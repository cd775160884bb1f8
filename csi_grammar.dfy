/**
 * What a CSI control sequence (the text after `ESC [`) decodes to, stated
 * on the consumed characters alone, independently of the character-at-a-time
 * parser in control_sequence.dfy.
 *
 * A sequence is `[!|?|>]? (digits | ';' | other)* final`, the final
 * character lying in 0x40-0x7E (ECMA-48, 5th edition, section 5.4).
 * Arguments are read from the digits and `;` alone: characters of any other
 * kind are set aside as "unhandled" and do not break a digit run.
 */
module CsiGrammar {
  import opened Wrappers
  import opened Sequences

  const ESC: char := '\U{1B}'

  /** A final character: 04/00-07/14, that is 0x40-0x7E. */
  predicate IsFinal(c: char) { '\U{40}' <= c <= '\U{7E}' }

  predicate IsDigit(c: char) { '0' <= c <= '9' }

  /** A private-parameter mark, honoured only as the first character. */
  predicate IsMark(c: char) { c == '!' || c == '?' || c == '>' }

  /** Characters that feed the argument list. */
  predicate IsArgChar(c: char) { IsDigit(c) || c == ';' }

  predicate NoFinal(s: seq<char>) { forall i :: 0 <= i < |s| ==> !IsFinal(s[i]) }

  predicate HasFinal(s: seq<char>) { exists i :: 0 <= i < |s| && IsFinal(s[i]) }

  function DigitValue(c: char): nat
  {
    if IsDigit(c) then (c as int) - ('0' as int) else 0
  }

  /** The decoded record of one control sequence. */
  datatype Csi = Csi(
    exclamation: bool,       // CSI !
    question: bool,          // CSI ?
    more: bool,              // CSI >
    args: seq<nat>,
    final: char,
    unhandled: Option<seq<char>>)

  /** Index of the first final character: where decoding stops. */
  function FinalIndex(s: seq<char>): (k: nat)
    requires HasFinal(s)
    ensures k < |s| && IsFinal(s[k]) && NoFinal(s[..k])
  {
    if IsFinal(s[0]) then 0
    else
      assert HasFinal(s[1..]) by {
        var i :| 0 <= i < |s| && IsFinal(s[i]);
        assert i > 0 && IsFinal(s[1..][i - 1]);
      }
      var k := FinalIndex(s[1..]);
      assert s[..k + 1] == [s[0]] + s[1..][..k];
      1 + k
  }

  /**
   * `consumed` is `s` read up to and including its first final character,
   * and `rest` is what follows.
   */
  predicate StopsAtFinal(s: seq<char>, consumed: seq<char>, rest: seq<char>)
  {
    && |consumed| > 0 && IsFinal(Last(consumed)) && NoFinal(consumed[..|consumed| - 1])
    && s == consumed + rest
  }

  /** Reading stops at the first final character: the split is the one `FinalIndex` gives. */
  lemma StopsAtFirstFinal(s: seq<char>, consumed: seq<char>, rest: seq<char>)
    requires StopsAtFinal(s, consumed, rest)
    ensures HasFinal(s) && FinalIndex(s) == |consumed| - 1
    ensures consumed == s[..FinalIndex(s) + 1] && rest == s[FinalIndex(s) + 1..]
  {
    var k := |consumed| - 1;
    assert IsFinal(s[k]);
    var j := FinalIndex(s);
    assert s[..k] == consumed[..k];
    assert j == k;
  }

  /** The body without a leading mark: the mark is not an unhandled character. */
  function AfterMark(body: seq<char>): seq<char>
  {
    if |body| > 0 && IsMark(body[0]) then body[1..] else body
  }

  /** The digits and semicolons of `u`, in order. */
  function ArgText(u: seq<char>): seq<char>
  {
    if u == [] then []
    else ArgText(u[..|u| - 1]) + (if IsArgChar(Last(u)) then [Last(u)] else [])
  }

  /** The characters of `u` that are neither digits nor semicolons, in order. */
  function Unhandled(u: seq<char>): seq<char>
  {
    if u == [] then []
    else Unhandled(u[..|u| - 1]) + (if IsArgChar(Last(u)) then [] else [Last(u)])
  }

  /** `f` cut at every semicolon: n semicolons give n + 1 pieces. */
  function Split(f: seq<char>): (ps: seq<seq<char>>)
    ensures |ps| > 0
  {
    if f == [] then [[]]
    else
      var ps := Split(f[..|f| - 1]);
      if Last(f) == ';' then ps + [[]]
      else ps[..|ps| - 1] + [Last(ps) + [Last(f)]]
  }

  /** The decimal value of a run of digits. */
  function DecimalValue(r: seq<char>): nat
  {
    if r == [] then 0 else 10 * DecimalValue(r[..|r| - 1]) + DigitValue(Last(r))
  }

  /** The values of the non-empty pieces, in order. */
  function RunValues(ps: seq<seq<char>>): seq<nat>
  {
    if ps == [] then []
    else RunValues(ps[..|ps| - 1]) + (if Last(ps) == [] then [] else [DecimalValue(Last(ps))])
  }

  /** Digit runs already closed by a semicolon. */
  function Committed(f: seq<char>): seq<nat>
  {
    var ps := Split(f);
    RunValues(ps[..|ps| - 1])
  }

  /** The digit run after the last semicolon (possibly empty). */
  function Pending(f: seq<char>): seq<char>
  {
    Last(Split(f))
  }

  /**
   * The argument list: one value per non-empty digit run, plus a trailing 0
   * when digits were seen and a semicolon follows the last of them
   * (`5;m` has the two arguments 5 and 0, `;;5m` the single argument 5).
   */
  function ArgumentsOf(f: seq<char>): seq<nat>
  {
    var ps := Split(f);
    var runs := RunValues(ps);
    if runs != [] && Last(ps) == [] then runs + [0] else runs
  }

  function OptionOf(u: seq<char>): Option<seq<char>>
  {
    if u == [] then None else Some(u)
  }

  /** The record decoded from the consumed text `t`, whose last character is the final one. */
  function Decode(t: seq<char>): Csi
    requires |t| > 0
  {
    var body := t[..|t| - 1];
    Csi(|body| > 0 && body[0] == '!',
        |body| > 0 && body[0] == '?',
        |body| > 0 && body[0] == '>',
        ArgumentsOf(ArgText(body)),
        Last(t),
        OptionOf(Unhandled(AfterMark(body))))
  }

  // ---------------------------------------------------------------------
  // Re-emission

  function DigitChar(d: nat): char
    requires d < 10
  {
    (('0' as int) + d) as char
  }

  /** `Integer.toString` of a non-negative value. */
  function DecimalString(n: nat): seq<char>
  {
    if n < 10 then [DigitChar(n)] else DecimalString(n / 10) + [DigitChar(n % 10)]
  }

  /** Arguments in decimal, joined by `;`. */
  function JoinArgs(args: seq<nat>): seq<char>
  {
    if |args| == 0 then []
    else if |args| == 1 then DecimalString(args[0])
    else JoinArgs(args[..|args| - 1]) + [';'] + DecimalString(Last(args))
  }

  /** The marks whose flags are set, in the fixed order `!`, `?`, `>`. */
  function Marks(r: Csi): seq<char>
  {
    MarkText(r.exclamation, r.question, r.more)
  }

  /** The marks text for the three flags. */
  function MarkText(exclamation: bool, question: bool, more: bool): seq<char>
  {
    (if exclamation then ['!'] else [])
    + (if question then ['?'] else [])
    + (if more then ['>'] else [])
  }

  /** The sequence after `ESC [` as re-emitted: marks, arguments, final character. */
  function Canonical(r: Csi): seq<char>
  {
    Marks(r) + JoinArgs(r.args) + [r.final]
  }

  /** What is pushed back: the unhandled characters, then `ESC [`, then the canonical text. */
  function Reordered(r: Csi): seq<char>
  {
    (if r.unhandled.Some? then r.unhandled.value else []) + [ESC, '['] + Canonical(r)
  }

  /** A record that a decoding can produce: at most one mark, a final character. */
  predicate WellFormed(r: Csi)
  {
    && (r.exclamation ==> !r.question && !r.more)
    && (r.question ==> !r.more)
    && IsFinal(r.final)
  }

  // ---------------------------------------------------------------------
  // Properties of decoding

  /** Only the first character can set a flag, so at most one flag is set. */
  lemma DecodeWellFormed(t: seq<char>)
    requires |t| > 0 && IsFinal(Last(t))
    ensures WellFormed(Decode(t))
  {
  }

  lemma {:induction false} RunValuesAppend(ps: seq<seq<char>>, p: seq<char>)
    ensures RunValues(ps + [p]) == RunValues(ps) + (if p == [] then [] else [DecimalValue(p)])
  {
    assert (ps + [p])[..|ps|] == ps;
  }

  /** A semicolon with no digit since the last one leaves the arguments alone. */
  lemma {:induction false} EmptySemicolonIsNoOp(f: seq<char>)
    requires Pending(f) == []
    ensures ArgumentsOf(f + [';']) == ArgumentsOf(f)
  {
    assert (f + [';'])[..|f|] == f;
    RunValuesAppend(Split(f), []);
  }

  /** The pieces after one more digit: the pending run grows by it. */
  lemma {:induction false} SplitDigit(f: seq<char>, d: char)
    requires IsDigit(d)
    ensures Committed(f + [d]) == Committed(f)
    ensures Pending(f + [d]) == Pending(f) + [d]
  {
    assert (f + [d])[..|f|] == f;
    var ps := Split(f);
    assert Split(f + [d])[..|ps| - 1] == ps[..|ps| - 1];
  }

  /** The pieces after one more semicolon: the pending run (if any) is committed. */
  lemma {:induction false} SplitSemicolon(f: seq<char>)
    ensures Committed(f + [';']) == Committed(f) + (if Pending(f) == [] then [] else [DecimalValue(Pending(f))])
    ensures Pending(f + [';']) == []
  {
    assert (f + [';'])[..|f|] == f;
    var ps := Split(f);
    assert Split(f + [';'])[..|ps|] == ps;
    assert ps == ps[..|ps| - 1] + [Last(ps)];
    RunValuesAppend(ps[..|ps| - 1], Last(ps));
  }

  /** The argument list is the committed runs followed by the pending one, when any digit was seen. */
  lemma {:induction false} ArgumentsFromRuns(f: seq<char>)
    ensures ArgumentsOf(f) ==
      Committed(f) + (if Committed(f) != [] || Pending(f) != [] then [DecimalValue(Pending(f))] else [])
  {
    var ps := Split(f);
    assert ps == ps[..|ps| - 1] + [Last(ps)];
    RunValuesAppend(ps[..|ps| - 1], Last(ps));
  }

  /** Digit runs and semicolons alone determine the argument count: committed runs plus one if any digit was seen. */
  lemma {:induction false} ArgumentCount(f: seq<char>)
    requires IsArgText(f)
    ensures |ArgumentsOf(f)| == |Committed(f)| + (if HasDigit(f) then 1 else 0)
  {
    ArgumentsFromRuns(f);
    SeenDigitIffRuns(f);
  }

  predicate HasDigit(f: seq<char>) { exists i :: 0 <= i < |f| && IsDigit(f[i]) }

  predicate IsArgText(f: seq<char>) { forall i :: 0 <= i < |f| ==> IsArgChar(f[i]) }

  /** Some digit was seen exactly when a run has been committed or is pending. */
  lemma {:induction false} SeenDigitIffRuns(f: seq<char>)
    requires IsArgText(f)
    ensures HasDigit(f) <==> Committed(f) != [] || Pending(f) != []
  {
    if f != [] {
      var g := f[..|f| - 1];
      assert f == g + [Last(f)];
      SeenDigitIffRuns(g);
      assert HasDigit(f) <==> HasDigit(g) || IsDigit(Last(f)) by {
        if HasDigit(f) && !IsDigit(Last(f)) {
          var i :| 0 <= i < |f| && IsDigit(f[i]);
          assert i < |g| && g[i] == f[i];
        }
        if HasDigit(g) {
          var i :| 0 <= i < |g| && IsDigit(g[i]);
          assert f[i] == g[i];
        }
      }
      if IsDigit(Last(f)) {
        SplitDigit(g, Last(f));
      } else {
        SplitSemicolon(g);
      }
    }
  }

  lemma ExampleRedundantSemicolons()
    ensures Decode(";;5m").args == [5]
  {
    RedundantSemicolonsText();
    RedundantSemicolonsRuns();
    ArgumentsFromRuns(";;5");
  }

  lemma RedundantSemicolonsText()
    ensures Decode(";;5m").args == ArgumentsOf(";;5")
  {
    assert ";;5m"[..3] == ";;5";
    assert ArgText(";;5") == ";;5" by {
      assert ";;5"[..2] == ";;" && ";;"[..1] == ";" && ";"[..0] == [];
    }
  }

  lemma RedundantSemicolonsRuns()
    ensures Committed(";;5") == [] && Pending(";;5") == "5"
  {
    assert "" + ";" == ";" && ";" + ";" == ";;" && ";;" + "5" == ";;5";
    SplitSemicolon("");
    SplitSemicolon(";");
    SplitDigit(";;", '5');
  }

  lemma ExampleTwoArguments()
    ensures Decode("5;6m").args == [5, 6]
  {
    var r := Csi(false, false, false, [5, 6], 'm', None);
    assert JoinArgs([5, 6]) == "5;6" by {
      assert [5, 6][..1] == [5];
    }
    assert Canonical(r) == "5;6m";
    CanonicalRoundTrip(r);
  }

  lemma ExampleTrailingSemicolon()
    ensures Decode("5;m").args == [5, 0]
  {
    TrailingSemicolonText();
    TrailingSemicolonRuns();
    ArgumentsFromRuns("5;");
  }

  lemma TrailingSemicolonText()
    ensures Decode("5;m").args == ArgumentsOf("5;")
  {
    var f := "5;";
    assert "5;m"[..2] == f;
    assert ArgText(f) == f by {
      assert f[..1] == "5" && "5"[..0] == [];
    }
  }

  lemma TrailingSemicolonRuns()
    ensures Committed("5;") == [5] && Pending("5;") == []
  {
    SplitDigit([], '5');
    assert [] + ['5'] == "5";
    SplitSemicolon("5");
    assert "5" + [';'] == "5;";
    assert DecimalValue("5") == 5 by { assert "5"[..0] == []; }
  }

  // ---------------------------------------------------------------------
  // Round trip of the re-emitted text

  predicate AllDigits(s: seq<char>) { forall i :: 0 <= i < |s| ==> IsDigit(s[i]) }

  /** `Integer.toString` yields digits whose decimal value is the number. */
  lemma {:induction false} DecimalStringValue(n: nat)
    ensures |DecimalString(n)| > 0 && AllDigits(DecimalString(n))
    ensures DecimalValue(DecimalString(n)) == n
  {
    var s := DecimalString(n);
    if n >= 10 {
      DecimalStringValue(n / 10);
      assert s[..|s| - 1] == DecimalString(n / 10);
    }
  }

  /** Digits and semicolons are their own argument text and leave nothing unhandled. */
  lemma {:induction false} ArgTextOfArgChars(s: seq<char>)
    requires forall i :: 0 <= i < |s| ==> IsArgChar(s[i])
    ensures ArgText(s) == s && Unhandled(s) == []
  {
    if s != [] {
      ArgTextOfArgChars(s[..|s| - 1]);
      assert s == s[..|s| - 1] + [Last(s)];
    }
  }

  /** Appending a run of digits extends the last piece by that run. */
  lemma {:induction false} SplitDigitRun(f: seq<char>, d: seq<char>)
    requires AllDigits(d)
    ensures Split(f + d) == Split(f)[..|Split(f)| - 1] + [Last(Split(f)) + d]
    decreases |d|
  {
    var S := Split(f);
    if d == [] {
      assert f + d == f;
      assert Last(S) + d == Last(S);
      assert S == S[..|S| - 1] + [Last(S)];
    } else {
      var d', c := d[..|d| - 1], Last(d);
      assert d == d' + [c];
      SplitDigitRun(f, d');
      assert f + d == (f + d') + [c];
      SplitOtherChar(f + d', c);
      SnocParts(S[..|S| - 1], Last(S) + d');
      assert Last(S) + d' + [c] == Last(S) + d;
    }
  }

  /** A character other than `;` extends the last piece. */
  lemma SplitOtherChar(f: seq<char>, c: char)
    requires c != ';'
    ensures Split(f + [c]) == Split(f)[..|Split(f)| - 1] + [Last(Split(f)) + [c]]
  {
    assert (f + [c])[..|f|] == f;
  }

  /** A non-empty sequence is its front followed by its last element. */
  lemma LastSplit<T>(s: seq<T>)
    requires |s| > 0
    ensures s == s[..|s| - 1] + [Last(s)]
  {
  }

  /** The parts of `a + [x]`. */
  lemma SnocParts<T>(a: seq<T>, x: T)
    ensures (a + [x])[..|a|] == a && Last(a + [x]) == x && |a + [x]| == |a| + 1
  {
  }

  lemma {:induction false} JoinArgsChars(args: seq<nat>)
    ensures forall i :: 0 <= i < |JoinArgs(args)| ==> IsArgChar(JoinArgs(args)[i])
    ensures |args| > 0 ==> Last(JoinArgs(args)) != ';'
  {
    if |args| == 1 {
      DecimalStringValue(args[0]);
    } else if |args| > 1 {
      JoinArgsChars(args[..|args| - 1]);
      DecimalStringValue(Last(args));
    }
  }

  /** Splitting joined arguments gives back their decimal strings. */
  lemma {:induction false} SplitJoinArgs(args: seq<nat>)
    requires |args| > 0
    ensures RunValues(Split(JoinArgs(args))) == args
    ensures Last(Split(JoinArgs(args))) != []
  {
    if |args| == 1 {
      var d := DecimalString(args[0]);
      DecimalStringValue(args[0]);
      SplitRun(d);
      RunValuesAppend([], d);
    } else {
      var init := args[..|args| - 1];
      LastSplit(args);
      SplitJoinArgs(init);
      SplitJoinArgsSnoc(init, Last(args));
    }
  }

  /** A lone digit run is a single piece. */
  lemma SplitRun(d: seq<char>)
    requires AllDigits(d)
    ensures Split(d) == [d]
  {
    SplitDigitRun([], d);
    assert [] + d == d;
  }

  /** One more argument adds one more run to the split. */
  lemma SplitJoinArgsSnoc(init: seq<nat>, x: nat)
    requires |init| > 0
    requires RunValues(Split(JoinArgs(init))) == init && Last(Split(JoinArgs(init))) != []
    ensures RunValues(Split(JoinArgs(init + [x]))) == init + [x]
    ensures Last(Split(JoinArgs(init + [x]))) != []
  {
    var d := DecimalString(x);
    DecimalStringValue(x);
    JoinArgsSnoc(init, x);
    SplitSemicolonRun(JoinArgs(init), d);
    RunValuesAppend(Split(JoinArgs(init)), d);
  }

  /** A semicolon followed by a digit run adds that run as one more piece. */
  lemma SplitSemicolonRun(f: seq<char>, d: seq<char>)
    requires AllDigits(d)
    ensures Split(f + [';'] + d) == Split(f) + [d]
  {
    var ps := Split(f);
    SplitAfterSemicolon(f);
    SplitDigitRun(f + [';'], d);
    assert (ps + [[]])[..|ps|] == ps;
    assert [] + d == d;
  }

  /** A semicolon opens a new, empty piece. */
  lemma SplitAfterSemicolon(f: seq<char>)
    ensures Split(f + [';']) == Split(f) + [[]]
  {
    assert (f + [';'])[..|f|] == f;
  }

  /** Rendering one more argument appends its separator and its digits. */
  lemma JoinArgsSnoc(a: seq<nat>, x: nat)
    ensures JoinArgs(a + [x]) == JoinArgs(a) + (if a == [] then [] else [';']) + DecimalString(x)
  {
    assert (a + [x])[..|a|] == a;
  }

  lemma {:induction false} ArgumentsOfJoin(args: seq<nat>)
    ensures ArgumentsOf(JoinArgs(args)) == args
  {
    if |args| > 0 {
      SplitJoinArgs(args);
    }
  }

  /**
   * Decoding the re-emitted text gives back the marks, the arguments and the
   * final character, with nothing left unhandled.
   */
  lemma {:induction false} CanonicalRoundTrip(r: Csi)
    requires WellFormed(r)
    ensures Decode(Canonical(r)) == r.(unhandled := None)
  {
    var j := JoinArgs(r.args);
    var m := Marks(r);
    assert Canonical(r)[..|Canonical(r)| - 1] == m + j;
    JoinArgsChars(r.args);
    ArgTextOfArgChars(j);
    ArgumentsOfJoin(r.args);
    MarkedBody(m, j);
  }

  /** A body made of at most one mark followed by argument text. */
  lemma {:induction false} MarkedBody(m: seq<char>, j: seq<char>)
    requires |m| <= 1 && (|m| == 1 ==> IsMark(m[0]))
    requires IsArgText(j) && ArgText(j) == j && Unhandled(j) == []
    ensures ArgText(m + j) == j && Unhandled(AfterMark(m + j)) == []
    ensures (|m + j| > 0 && (m + j)[0] == '!') == (m == ['!'])
    ensures (|m + j| > 0 && (m + j)[0] == '?') == (m == ['?'])
    ensures (|m + j| > 0 && (m + j)[0] == '>') == (m == ['>'])
  {
    if |m| == 0 {
      assert m + j == j;
    } else {
      assert m + j == [m[0]] + j;
      assert AfterMark(m + j) == j;
      ArgTextPrefixMark(m[0], j);
    }
  }

  /** A leading mark contributes nothing to the argument text. */
  lemma {:induction false} ArgTextPrefixMark(m: char, s: seq<char>)
    requires IsMark(m)
    ensures ArgText([m] + s) == ArgText(s)
    decreases |s|
  {
    if s == [] {
      assert ArgText([m]) == ArgText([]) + [] by { assert [m][..0] == []; }
    } else {
      var s' := s[..|s| - 1];
      ArgTextPrefixMark(m, s');
      assert ([m] + s)[..|[m] + s| - 1] == [m] + s';
    }
  }

  /**
   * Reading stops exactly at the end of the re-emitted text, whatever
   * follows it: only its last character is a final character.
   */
  lemma CanonicalStops(r: Csi, rest: seq<char>)
    requires WellFormed(r)
    ensures StopsAtFinal(Canonical(r) + rest, Canonical(r), rest)
  {
    JoinArgsChars(r.args);
    var c := Canonical(r);
    assert c[..|c| - 1] == Marks(r) + JoinArgs(r.args);
    assert Last(c) == r.final;
  }

  /**
   * The round trip for every sequence the parser can have read: reading the
   * re-emitted text back stops at its end and decodes to the same marks,
   * arguments and final character.
   */
  lemma DecodedRoundTrip(t: seq<char>, rest: seq<char>)
    requires |t| > 0 && IsFinal(Last(t))
    ensures StopsAtFinal(Canonical(Decode(t)) + rest, Canonical(Decode(t)), rest)
    ensures Decode(Canonical(Decode(t))) == Decode(t).(unhandled := None)
  {
    DecodeWellFormed(t);
    CanonicalStops(Decode(t), rest);
    CanonicalRoundTrip(Decode(t));
  }
}
