/**
 * The CSI parser of the terminal emulator: a `ControlSequence` reads one
 * control sequence, character by character, off a `DataStream`, and can
 * push an equivalent, reordered sequence back onto that stream.
 */
module Emulator {
  import opened Wrappers
  import opened CsiGrammar
  import opened Sequences

  /**
   * The character stream the parser reads from. Reading past the end is the
   * stream's failure (an `IOException` in the terminal): `GetChar` then
   * yields `None`.
   */
  class DataStream {
    var pending: seq<char>

    constructor (input: seq<char>)
      ensures pending == input
    {
      pending := input;
    }

    method GetChar() returns (c: Option<char>)
      modifies this
      ensures old(pending) == [] ==> c == None && pending == []
      ensures old(pending) != [] ==> c == Some(old(pending)[0]) && pending == old(pending)[1..]
    {
      if pending == [] {
        c := None;
      } else {
        c := Some(pending[0]);
        pending := pending[1..];
      }
    }

    /** The first `length` characters of `bytes` are read next, in order. */
    method PushBackBuffer(bytes: array<char>, length: int)
      requires 0 <= length <= bytes.Length
      modifies this
      ensures pending == bytes[..length] + old(pending)
    {
      pending := bytes[..length] + pending;
    }
  }

  /** The initial capacity of the argument array. */
  const INITIAL_CAPACITY: nat := 5

  function CapacityFrom(c: nat, n: nat): nat
    requires c > 0
    decreases n - c
  {
    if n < c then c else CapacityFrom(2 * c, n)
  }

  /** The smallest capacity 5 * 2^k that exceeds `n`: what doubling from 5 reaches. */
  function Capacity(n: nat): nat
  {
    CapacityFrom(INITIAL_CAPACITY, n)
  }

  lemma {:induction false} CapacityFromStep(c: nat, n: nat)
    requires c > 0
    ensures n < CapacityFrom(c, n)
    ensures CapacityFrom(c, n + 1) ==
      if n + 1 == CapacityFrom(c, n) then 2 * CapacityFrom(c, n) else CapacityFrom(c, n)
    decreases n - c
  {
    if n >= c {
      CapacityFromStep(2 * c, n);
    }
  }

  /**
   * Committing one more argument keeps the count below the capacity, and the
   * capacity doubles exactly when the count reaches it.
   */
  lemma CapacityStep(n: nat)
    ensures n < Capacity(n)
    ensures Capacity(n + 1) == if n + 1 == Capacity(n) then 2 * Capacity(n) else Capacity(n)
  {
    CapacityFromStep(INITIAL_CAPACITY, n);
  }

  /** The array starts with 5 slots, doubles to 10 at the fifth commit and to 20 at the tenth. */
  lemma ExampleCapacities()
    ensures Capacity(0) == 5 && Capacity(4) == 5 && Capacity(5) == 10 && Capacity(11) == 20
  {
  }

  // ---------------------------------------------------------------------
  // The reading loop's state as a value

  /**
   * What the reading loop has built after some characters: the mark flags,
   * the used argument slots (the committed arguments and the pending one)
   * with the array length, the length of the pending digit run, whether a
   * digit was seen, and the unhandled characters.
   */
  datatype Scan = Scan(
    exclamation: bool,
    question: bool,
    more: bool,
    slots: seq<nat>,
    capacity: nat,
    digit: int,
    seenDigit: int,
    unhandled: Option<seq<char>>)

  function UnhandledSoFar(u: Option<seq<char>>): seq<char>
  {
    if u.Some? then u.value else []
  }

  /** The state before any character: one empty slot in an array of 5. */
  const InitialScan: Scan := Scan(false, false, false, [0], INITIAL_CAPACITY, 0, 0, None)

  /**
   * One non-final character `b` at position `pos`, following the branches of
   * the reading loop: a leading mark sets its flag; `;` after a digit closes
   * the pending slot and opens a new one, doubling the array when full; a
   * digit extends the pending value; anything else is unhandled.
   */
  function Step(st: Scan, pos: int, b: char): Scan
    requires |st.slots| > 0
  {
    if b == '!' && pos == 0 then st.(exclamation := true)
    else if b == '?' && pos == 0 then st.(question := true)
    else if b == '>' && pos == 0 then st.(more := true)
    else if b == ';' then
      if st.digit > 0 then
        st.(slots := st.slots + [0],
            capacity := if |st.slots| == st.capacity then 2 * st.capacity else st.capacity,
            digit := 0)
      else st
    else if IsDigit(b) then
      st.(slots := st.slots[..|st.slots| - 1] + [10 * Last(st.slots) + DigitValue(b)],
          digit := st.digit + 1, seenDigit := 1)
    else st.(unhandled := Some(UnhandledSoFar(st.unhandled) + [b]))
  }

  /** The state after reading `t`, none of whose characters is final. */
  function ScanOf(t: seq<char>): (st: Scan)
    ensures |st.slots| > 0
    decreases |t|, 1
  {
    if t == [] then InitialScan else ScanLast(t)
  }

  /** The state after reading the non-empty `t`: one `Step` for its last character. */
  function ScanLast(t: seq<char>): (st: Scan)
    requires t != []
    ensures |st.slots| > 0
    decreases |t|, 0
  {
    Step(ScanOf(t[..|t| - 1]), |t| - 1, Last(t))
  }

  lemma ScanOfAppend(p: seq<char>, b: char)
    ensures ScanOf(p + [b]) == Step(ScanOf(p), |p|, b)
  {
    assert (p + [b])[..|p|] == p;
    assert ScanOf(p + [b]) == ScanLast(p + [b]);
  }

  /**
   * What the state means after reading `t`: the flags record a leading
   * mark, the slots and the counters are the argument state of the digits
   * and semicolons read (see `ArgState`), and the unhandled characters are
   * the others after the mark.
   */
  ghost predicate Means(st: Scan, t: seq<char>)
  {
    && MarksMean(st, t)
    && ArgState(st.slots, st.capacity, ArgText(t), st.digit, st.seenDigit)
    && UnhandledMean(st, t)
  }

  /** The flags record the leading mark of `t`. */
  ghost predicate MarksMean(st: Scan, t: seq<char>)
  {
    && st.exclamation == (|t| > 0 && t[0] == '!')
    && st.question == (|t| > 0 && t[0] == '?')
    && st.more == (|t| > 0 && t[0] == '>')
  }

  /** The unhandled characters are those of `t` after its mark that are not argument characters. */
  ghost predicate UnhandledMean(st: Scan, t: seq<char>)
  {
    st.unhandled == OptionOf(Unhandled(AfterMark(t)))
  }

  /** Every state the loop reaches means what `Means` says of the text read. */
  lemma {:induction false} ScanMeaning(t: seq<char>)
    ensures Means(ScanOf(t), t)
  {
    if t == [] {
      assert Split([]) == [[]];
    } else {
      var p := t[..|t| - 1];
      LastSplit(t);
      ScanMeaning(p);
      ScanOfAppend(p, Last(t));
      MeansStep(ScanOf(p), p, Last(t));
    }
  }

  /** One `Step` keeps `Means`. */
  lemma MeansStep(st: Scan, p: seq<char>, b: char)
    requires Means(st, p)
    ensures Means(Step(st, |p|, b), p + [b])
  {
    MarksStep(st, p, b);
    ArgsStep(st, p, b);
    UnhandledStep(st, p, b);
  }

  lemma MarksStep(st: Scan, p: seq<char>, b: char)
    requires |st.slots| > 0 && MarksMean(st, p)
    ensures MarksMean(Step(st, |p|, b), p + [b])
  {
    AfterMarkAppend(p, b);
  }

  lemma UnhandledStep(st: Scan, p: seq<char>, b: char)
    requires |st.slots| > 0 && UnhandledMean(st, p)
    ensures UnhandledMean(Step(st, |p|, b), p + [b])
  {
    AfterMarkAppend(p, b);
  }

  lemma ArgsStep(st: Scan, p: seq<char>, b: char)
    requires ArgState(st.slots, st.capacity, ArgText(p), st.digit, st.seenDigit)
    ensures var next := Step(st, |p|, b);
      ArgState(next.slots, next.capacity, ArgText(p + [b]), next.digit, next.seenDigit)
  {
    ArgTextAppend(p, b);
    ArgsStepText(st, |p|, b, ArgText(p));
  }

  /** `ArgsStep` over the argument text itself. */
  lemma ArgsStepText(st: Scan, pos: int, b: char, f: seq<char>)
    requires ArgState(st.slots, st.capacity, f, st.digit, st.seenDigit)
    ensures var next := Step(st, pos, b);
      ArgState(next.slots, next.capacity, f + (if IsArgChar(b) then [b] else []), next.digit, next.seenDigit)
  {
    if b == ';' {
      ArgsSemicolon(st, pos, f);
    } else if IsDigit(b) {
      ArgsDigit(st, pos, b, f);
    } else {
      StepOtherFields(st, pos, b);
      assert f + [] == f;
    }
  }

  lemma ArgsSemicolon(st: Scan, pos: int, f: seq<char>)
    requires ArgState(st.slots, st.capacity, f, st.digit, st.seenDigit)
    ensures var next := Step(st, pos, ';');
      ArgState(next.slots, next.capacity, f + [';'], next.digit, next.seenDigit)
  {
    ArgStateSemicolon(st.slots, st.capacity, f, st.digit, st.seenDigit);
  }

  lemma ArgsDigit(st: Scan, pos: int, b: char, f: seq<char>)
    requires ArgState(st.slots, st.capacity, f, st.digit, st.seenDigit) && IsDigit(b)
    ensures var next := Step(st, pos, b);
      ArgState(next.slots, next.capacity, f + [b], next.digit, next.seenDigit)
  {
    ArgStateDigit(st.slots, st.capacity, f, st.digit, st.seenDigit, b);
  }

  /** Characters other than digits and `;` leave the argument fields alone. */
  lemma StepOtherFields(st: Scan, pos: int, b: char)
    requires |st.slots| > 0 && !IsArgChar(b)
    ensures var next := Step(st, pos, b);
      next.slots == st.slots && next.capacity == st.capacity
      && next.digit == st.digit && next.seenDigit == st.seenDigit
  {
  }

  /**
   * The record the loop leaves on reading the final character `b` in state
   * `st`: the pending slot counts as an argument when a digit was seen.
   */
  function Finished(st: Scan, b: char): Csi
    requires 0 <= st.seenDigit <= 1 && |st.slots| > 0
  {
    Csi(st.exclamation, st.question, st.more, st.slots[..|st.slots| - 1 + st.seenDigit], b, st.unhandled)
  }

  /**
   * What the loop computes is the decoding: reading the final character
   * after `body` yields the record decoded from `body + [b]`, in an array
   * whose length is the capacity reached by the committed arguments.
   */
  lemma DecodeScan(body: seq<char>, b: char)
    ensures 0 <= ScanOf(body).seenDigit <= 1
    ensures Decode(body + [b]) == Finished(ScanOf(body), b)
    ensures ScanOf(body).capacity == Capacity(|Committed(ArgText(body))|)
  {
    ScanMeaning(body);
    MeansFinished(ScanOf(body), body, b);
    FinishDecoding(body, b);
  }

  /** The record `Finished` builds from a state that means `body`. */
  lemma MeansFinished(st: Scan, body: seq<char>, b: char)
    requires Means(st, body)
    ensures 0 <= st.seenDigit <= 1
    ensures Finished(st, b) == Csi(
      |body| > 0 && body[0] == '!', |body| > 0 && body[0] == '?', |body| > 0 && body[0] == '>',
      ArgumentsOf(ArgText(body)), b, OptionOf(Unhandled(AfterMark(body))))
    ensures st.capacity == Capacity(|Committed(ArgText(body))|)
  {
    ArgStateArguments(st.slots, st.capacity, ArgText(body), st.digit, st.seenDigit);
  }

  class ControlSequence {
    var argc: int
    var argv: array<nat>
    var finalChar: char
    var unhandledChars: Option<seq<char>>
    var startsWithExclamationMark: bool   // CSI !
    var startsWithQuestionMark: bool      // CSI ?
    var startsWithMoreMark: bool          // CSI >
    var sequenceString: seq<char>

    ghost predicate Valid()
      reads this
    {
      0 <= argc <= argv.Length
    }

    /** The parsed record the fields hold. */
    ghost function Record(): Csi
      reads this, argv
      requires Valid()
    {
      Csi(startsWithExclamationMark, startsWithQuestionMark, startsWithMoreMark,
          argv[..argc], finalChar, unhandledChars)
    }

    /** The state the field initialisers and the constructor leave before reading. */
    ghost predicate Initial()
      reads this, argv
    {
      && argc == 0 && argv.Length == INITIAL_CAPACITY && argv[0] == 0
      && unhandledChars == None && sequenceString == []
      && !startsWithExclamationMark && !startsWithQuestionMark && !startsWithMoreMark
    }

    constructor ()
      ensures Initial() && fresh(argv)
    {
      argv := new nat[INITIAL_CAPACITY](_ => 0);
      argc := 0;
      finalChar := '\0';
      unhandledChars := None;
      startsWithExclamationMark := false;
      startsWithQuestionMark := false;
      startsWithMoreMark := false;
      sequenceString := [];
    }

    /** The parser's state in the middle of reading, given its local counters. */
    ghost function Scanned(digit: int, seenDigit: int): Scan
      reads this, argv
      requires 0 <= argc < argv.Length
    {
      Scan(startsWithExclamationMark, startsWithQuestionMark, startsWithMoreMark,
           argv[..argc + 1], argv.Length, digit, seenDigit, unhandledChars)
    }

    /**
     * Closes the pending argument: the count grows by one, the array doubles
     * when the count reaches its length, and the new slot starts at 0.
     */
    method NextArgument()
      requires 0 <= argc < argv.Length
      modifies this, argv
      ensures argc == old(argc) + 1 && argc < argv.Length
      ensures argv.Length == if argc == old(argv.Length) then 2 * old(argv.Length) else old(argv.Length)
      ensures argv[..argc] == old(argv[..argc + 1]) && argv[argc] == 0
      ensures argv == old(argv) || fresh(argv)
      ensures finalChar == old(finalChar) && unhandledChars == old(unhandledChars)
      ensures sequenceString == old(sequenceString)
      ensures startsWithExclamationMark == old(startsWithExclamationMark)
      ensures startsWithQuestionMark == old(startsWithQuestionMark)
      ensures startsWithMoreMark == old(startsWithMoreMark)
    {
      argc := argc + 1;
      if argc == argv.Length {
        var replacement := new nat[argv.Length * 2](_ => 0);
        ArrayCopy(argv, replacement, argv.Length);
        argv := replacement;
      }
      argv[argc] := 0;
    }

    method AddUnhandled(b: char)
      modifies this
      ensures unhandledChars == Some(UnhandledSoFar(old(unhandledChars)) + [b])
      ensures argc == old(argc) && argv == old(argv) && finalChar == old(finalChar)
      ensures sequenceString == old(sequenceString)
      ensures startsWithExclamationMark == old(startsWithExclamationMark)
      ensures startsWithQuestionMark == old(startsWithQuestionMark)
      ensures startsWithMoreMark == old(startsWithMoreMark)
    {
      if unhandledChars == None {
        unhandledChars := Some([]);
      }
      unhandledChars := Some(unhandledChars.value + [b]);
    }

    /**
     * Reads up to and including the first final character. On success the
     * fields hold the decoding of exactly the consumed characters; running
     * out of input first is the stream's failure.
     */
    method ReadControlSequence(channel: DataStream) returns (ok: bool, ghost body: seq<char>)
      requires Initial()
      modifies this, argv, channel
      ensures Valid() && (argv == old(argv) || fresh(argv))
      ensures ok == HasFinal(old(channel.pending))
      ensures !ok ==> channel.pending == []
      ensures ok ==>
        && sequenceString == body + [finalChar]
        && StopsAtFinal(old(channel.pending), sequenceString, channel.pending)
        && 0 <= ScanOf(body).seenDigit <= 1
        && Record() == Finished(ScanOf(body), finalChar)
        && argv.Length == ScanOf(body).capacity
    {
      ghost var s := channel.pending;
      ghost var consumed: seq<char> := [];
      argc := 0;
      var digit := 0;
      var seenDigit := 0;
      var pos := -1;

      while true
        invariant s == consumed + channel.pending
        invariant pos == |consumed| - 1
        invariant sequenceString == consumed
        invariant NoFinal(consumed)
        invariant argv == old(argv) || fresh(argv)
        invariant 0 <= argc < argv.Length
        invariant Scanned(digit, seenDigit) == ScanOf(consumed)
        decreases |channel.pending|
      {
        ghost var p, q := consumed, channel.pending;
        var r := channel.GetChar();
        if r == None {
          assert s == consumed;
          return false, [];
        }
        var b := r.value;
        TakeFirst(s, p, q);
        consumed := consumed + [b];
        sequenceString := sequenceString + [b];
        pos := pos + 1;
        var final;
        digit, seenDigit, final := ScanChar(b, pos, digit, seenDigit, p);
        if final {
          ScanBounds(p);
          CountArguments(digit, seenDigit, ScanOf(p));
          FinalReached(s, p, b, channel.pending);
          return true, p;
        }
        NoFinalAppend(p, b);
      }
    }

    /**
     * After the final character: the pending argument counts when a digit
     * was seen, which leaves the record `Finished` describes.
     */
    method CountArguments(digit: int, seenDigit: int, ghost st: Scan)
      requires 0 <= argc < argv.Length && Scanned(digit, seenDigit) == st && 0 <= st.seenDigit <= 1
      modifies this
      ensures Valid() && Record() == Finished(st, finalChar) && argv.Length == st.capacity
      ensures argv == old(argv) && sequenceString == old(sequenceString) && finalChar == old(finalChar)
    {
      argc := argc + seenDigit;
      assert argv[..argc] == st.slots[..|st.slots| - 1 + seenDigit];
    }

    /**
     * One turn of the reading loop for the character `b` after the
     * non-final prefix `p`: a non-final character leaves the state of
     * `p + [b]`, a final one is recorded and leaves the state of `p`.
     */
    method ScanChar(b: char, pos: int, digit: int, seenDigit: int, ghost p: seq<char>)
      returns (digit': int, seenDigit': int, final: bool)
      requires 0 <= argc < argv.Length && pos == |p| && Scanned(digit, seenDigit) == ScanOf(p)
      modifies this, argv
      ensures final == IsFinal(b)
      ensures 0 <= argc < argv.Length && (argv == old(argv) || fresh(argv))
      ensures sequenceString == old(sequenceString)
      ensures final ==> finalChar == b && Scanned(digit', seenDigit') == ScanOf(p)
      ensures !final ==> Scanned(digit', seenDigit') == ScanOf(p + [b])
    {
      ScanOfAppend(p, b);
      digit', seenDigit', final := StepChar(b, pos, digit, seenDigit, ScanOf(p));
    }

    /**
     * The branches of the reading loop for one character `b` at position
     * `pos`: a non-final character updates the state as `Step` says, and a
     * final one is recorded and ends the loop.
     */
    method StepChar(b: char, pos: int, digit: int, seenDigit: int, ghost st: Scan)
      returns (digit': int, seenDigit': int, final: bool)
      requires 0 <= argc < argv.Length && Scanned(digit, seenDigit) == st
      modifies this, argv
      ensures final == IsFinal(b)
      ensures 0 <= argc < argv.Length && (argv == old(argv) || fresh(argv))
      ensures sequenceString == old(sequenceString)
      ensures final ==> finalChar == b && Scanned(digit', seenDigit') == st
      ensures !final ==> Scanned(digit', seenDigit') == Step(st, pos, b)
    {
      digit', seenDigit', final := digit, seenDigit, false;
      if b == '!' && pos == 0 {
        startsWithExclamationMark := true;
      } else if b == '?' && pos == 0 {
        startsWithQuestionMark := true;
      } else if b == '>' && pos == 0 {
        startsWithMoreMark := true;
      } else if b == ';' {
        digit' := SemicolonBranch(pos, digit, seenDigit, st);
      } else if '0' <= b <= '9' {
        digit', seenDigit' := DigitBranch(b, pos, digit, seenDigit, st);
      } else {
        final := OtherBranch(b, pos, digit, seenDigit, st);
      }
    }

    /** The `;` branch: a digit since the last one commits the pending argument. */
    method SemicolonBranch(pos: int, digit: int, seenDigit: int, ghost st: Scan) returns (digit': int)
      requires 0 <= argc < argv.Length && Scanned(digit, seenDigit) == st
      modifies this, argv
      ensures 0 <= argc < argv.Length && (argv == old(argv) || fresh(argv))
      ensures sequenceString == old(sequenceString) && finalChar == old(finalChar)
      ensures Scanned(digit', seenDigit) == Step(st, pos, ';')
    {
      digit' := digit;
      if digit > 0 {
        NextArgument();
        assert argv[..argc + 1] == st.slots + [0];
        digit' := 0;
      }
    }

    /** The digit branch: the digit extends the pending argument. */
    method DigitBranch(b: char, pos: int, digit: int, seenDigit: int, ghost st: Scan)
      returns (digit': int, seenDigit': int)
      requires IsDigit(b) && 0 <= argc < argv.Length && Scanned(digit, seenDigit) == st
      modifies argv
      ensures Scanned(digit', seenDigit') == Step(st, pos, b)
    {
      argv[argc] := argv[argc] * 10 + ((b as int) - ('0' as int));
      assert argv[..argc + 1] == st.slots[..argc] + [10 * Last(st.slots) + DigitValue(b)];
      digit' := digit + 1;
      seenDigit' := 1;
    }

    /**
     * The remaining branches: `:` to `?` (a mark after the first position)
     * and characters outside the final range are unhandled; a final
     * character is recorded.
     */
    method OtherBranch(b: char, pos: int, digit: int, seenDigit: int, ghost st: Scan) returns (final: bool)
      requires !IsArgChar(b) && !(IsMark(b) && pos == 0)
      requires 0 <= argc < argv.Length && Scanned(digit, seenDigit) == st
      modifies this
      ensures final == IsFinal(b) && argc == old(argc) && argv == old(argv)
      ensures sequenceString == old(sequenceString)
      ensures final ==> finalChar == b && Scanned(digit, seenDigit) == st
      ensures !final ==> Scanned(digit, seenDigit) == Step(st, pos, b)
    {
      final := false;
      if ':' <= b <= '?' {
        AddUnhandled(b);
      } else if '\U{40}' <= b <= '\U{7E}' {
        finalChar := b;
        final := true;
      } else {
        AddUnhandled(b);
      }
    }

    /** `System.arraycopy(src, 0, dst, 0, n)`. */
    static method ArrayCopy(src: array<nat>, dst: array<nat>, n: nat)
      requires n <= src.Length && n <= dst.Length && src != dst
      modifies dst
      ensures dst[..n] == src[..n]
      ensures dst[n..] == old(dst[n..])
    {
      var i := 0;
      while i < n
        invariant 0 <= i <= n
        invariant dst[..i] == src[..i]
        invariant dst[n..] == old(dst[n..])
      {
        dst[i] := src[i];
        i := i + 1;
      }
    }

    /**
     * Pushes back the unhandled characters, `ESC [`, the marks, the
     * arguments and the final character, when there were unhandled
     * characters; otherwise does nothing.
     */
    method PushBackReordered(channel: DataStream) returns (pushed: bool)
      requires Valid()
      requires |Reordered(Record())| <= 1024
      modifies channel
      ensures pushed == unhandledChars.Some?
      ensures pushed ==> channel.pending == Reordered(Record()) + old(channel.pending)
      ensures !pushed ==> channel.pending == old(channel.pending)
    {
      if unhandledChars == None {
        return false;
      }
      var bytes := new char[1024];
      var length := WriteReordered(bytes);
      channel.PushBackBuffer(bytes, length);
      return true;
    }

    /** The body of `PushBackReordered` up to the push-back: the buffer's text. */
    method WriteReordered(bytes: array<char>) returns (length: int)
      requires Valid() && unhandledChars.Some? && |Reordered(Record())| <= bytes.Length
      modifies bytes
      ensures 0 <= length <= bytes.Length && bytes[..length] == Reordered(Record())
    {
      ghost var r := Record();
      ghost var u := r.unhandled.value;
      ReorderedAfterUnhandled(r);
      length := CopyUnhandledCharacters(bytes, 0);
      assert bytes[..length] == u;
      length := AppendSpecialCharacters(bytes, length);
      assert bytes[..length] == u + [ESC, '['] + Marks(r);
      length := AppendArguments(bytes, length);
      assert bytes[..length] == u + [ESC, '['] + Marks(r) + JoinArgs(r.args);
      length := Put(bytes, length, finalChar);
    }

    method CopyUnhandledCharacters(bytes: array<char>, length: int) returns (newLength: int)
      requires unhandledChars.Some?
      requires 0 <= length && length + |unhandledChars.value| <= bytes.Length
      modifies bytes
      ensures newLength == length + |unhandledChars.value|
      ensures bytes[..newLength] == old(bytes[..length]) + unhandledChars.value
    {
      var u := unhandledChars.value;
      newLength := length;
      var i := 0;
      while i < |u|
        invariant 0 <= i <= |u|
        invariant newLength == length + i
        invariant bytes[..newLength] == old(bytes[..length]) + u[..i]
      {
        bytes[newLength] := u[i];
        newLength := newLength + 1;
        i := i + 1;
      }
    }

    method AppendSpecialCharacters(bytes: array<char>, length: int) returns (newLength: int)
      requires Valid()
      requires 0 <= length && length + 2 + |MarkText(startsWithExclamationMark, startsWithQuestionMark, startsWithMoreMark)| <= bytes.Length
      modifies bytes
      ensures newLength == length + 2 + |MarkText(startsWithExclamationMark, startsWithQuestionMark, startsWithMoreMark)|
      ensures bytes[..newLength] == old(bytes[..length]) + [ESC, '['] + MarkText(startsWithExclamationMark, startsWithQuestionMark, startsWithMoreMark)
    {
      ghost var start := bytes[..length];
      MarkTextAfter(start + [ESC, '['], startsWithExclamationMark, startsWithQuestionMark, startsWithMoreMark);
      newLength := Put(bytes, length, ESC);
      newLength := Put(bytes, newLength, '[');
      assert bytes[..newLength] == start + [ESC, '['];
      if startsWithExclamationMark {
        newLength := Put(bytes, newLength, '!');
      }
      if startsWithQuestionMark {
        newLength := Put(bytes, newLength, '?');
      }
      if startsWithMoreMark {
        newLength := Put(bytes, newLength, '>');
      }
    }

    /** `bytes[length++] = c`: one character written after the first `length`. */
    static method Put(bytes: array<char>, length: int, c: char) returns (newLength: int)
      requires 0 <= length < bytes.Length
      modifies bytes
      ensures newLength == length + 1 && bytes[..newLength] == old(bytes[..length]) + [c]
    {
      bytes[length] := c;
      newLength := length + 1;
    }

    method AppendArguments(bytes: array<char>, length: int) returns (newLength: int)
      requires Valid()
      requires 0 <= length && length + |JoinArgs(argv[..argc])| <= bytes.Length
      modifies bytes
      ensures newLength == length + |JoinArgs(argv[..argc])|
      ensures bytes[..newLength] == old(bytes[..length]) + JoinArgs(argv[..argc])
    {
      ghost var start, args := bytes[..length], argv[..argc];
      newLength := length;
      var argi := 0;
      while argi < argc
        invariant 0 <= argi <= argc
        invariant newLength == length + |JoinArgs(args[..argi])| <= bytes.Length
        invariant bytes[..newLength] == start + JoinArgs(args[..argi])
      {
        ghost var sep: seq<char> := if argi != 0 then [';'] else [];
        AppendArgumentStep(start, args[..argi], args[argi], sep);
        assert args[..argi + 1] == args[..argi] + [args[argi]];
        JoinArgsPrefixLength(args, argi + 1);
        if argi != 0 {
          newLength := Put(bytes, newLength, ';');
        }
        assert bytes[..newLength] == start + JoinArgs(args[..argi]) + sep;
        var s := DecimalString(argv[argi]);
        newLength := AppendChars(bytes, newLength, s);
        argi := argi + 1;
      }
      assert args[..argi] == args;
    }

    /** The inner loop of `AppendArguments`: the characters of `s`, one by one. */
    static method AppendChars(bytes: array<char>, length: int, s: seq<char>) returns (newLength: int)
      requires 0 <= length && length + |s| <= bytes.Length
      modifies bytes
      ensures newLength == length + |s|
      ensures bytes[..newLength] == old(bytes[..length]) + s
    {
      newLength := length;
      var j := 0;
      while j < |s|
        invariant 0 <= j <= |s|
        invariant newLength == length + j
        invariant bytes[..newLength] == old(bytes[..length]) + s[..j]
      {
        bytes[newLength] := s[j];
        newLength := newLength + 1;
        j := j + 1;
      }
    }

    function GetCount(): (n: int)
      reads this, argv
      requires Valid()
      ensures n == |Record().args|
    {
      argc
    }

    /**
     * Argument `index`, or `defaultValue` when there are no more than `index`
     * arguments; `None` for a negative index, where the array access fails
     * with `ArrayIndexOutOfBoundsException`.
     */
    function GetArg(index: int, defaultValue: int): (r: Option<int>)
      reads this, argv
      requires Valid()
      ensures r == None <==> index < 0
      ensures 0 <= index < |Record().args| ==> r == Some(Record().args[index])
      ensures |Record().args| <= index ==> r == Some(defaultValue)
    {
      if index >= argc then Some(defaultValue)
      else if index < 0 then None
      else Some(argv[index])
    }

    /** The readable form up to the final character: `ESC[`, marks, arguments, final. */
    method ToString() returns (sb: seq<char>)
      requires Valid()
      ensures sb == "ESC[" + Canonical(Record())
    {
      sb := "ESC[";
      MarkTextAfter(sb, startsWithExclamationMark, startsWithQuestionMark, startsWithMoreMark);
      if startsWithExclamationMark {
        sb := sb + "!";
      }
      if startsWithQuestionMark {
        sb := sb + "?";
      }
      if startsWithMoreMark {
        sb := sb + ">";
      }
      ghost var r := Record();
      CanonicalAfter("ESC[", r);
      assert sb == "ESC[" + Marks(r);
      sb := AppendArgumentList(sb);
      assert sb == "ESC[" + Marks(r) + JoinArgs(r.args);
      sb := sb + [finalChar];
    }

    /** The arguments loop of `ToString`: each argument in decimal, `;` between. */
    method AppendArgumentList(head: seq<char>) returns (sb: seq<char>)
      requires Valid()
      ensures sb == head + JoinArgs(argv[..argc])
    {
      sb := head;
      var sep := "";
      var i := 0;
      while i < argc
        invariant 0 <= i <= argc
        invariant sb == head + JoinArgs(argv[..i])
        invariant sep == if i == 0 then "" else ";"
      {
        AppendArgumentStep(head, argv[..i], argv[i], sep);
        assert argv[..i + 1] == argv[..i] + [argv[i]];
        sb := sb + sep;
        sb := sb + DecimalString(argv[i]);
        sep := ";";
        i := i + 1;
      }
      assert argv[..i] == argv[..argc];
    }
  }

  /**
   * `new ControlSequence(channel)`: a record of the next control sequence,
   * or `None` when the stream ends before a final character.
   */
  method NewControlSequence(channel: DataStream) returns (r: Option<ControlSequence>)
    modifies channel
    ensures r.Some? == HasFinal(old(channel.pending))
    ensures r == None ==> channel.pending == []
    ensures r.Some? ==>
      && fresh(r.value) && fresh(r.value.argv) && r.value.Valid()
      && StopsAtFinal(old(channel.pending), r.value.sequenceString, channel.pending)
      && r.value.Record() == Decode(r.value.sequenceString)
  {
    var cs := new ControlSequence();
    var ok, body := cs.ReadControlSequence(channel);
    if ok {
      DecodeScan(body, cs.finalChar);
      r := Some(cs);
    } else {
      r := None;
    }
  }

  /**
   * The round trip through the parser: a stream holding the re-emitted text
   * of a record, followed by anything, is read up to exactly the end of that
   * text, into the same marks, arguments and final character, with nothing
   * unhandled; what follows is left in the stream.
   */
  method ReadBackCanonical(r: Csi, rest: seq<char>) returns (again: ControlSequence, left: seq<char>)
    requires WellFormed(r)
    ensures again.Valid() && again.sequenceString == Canonical(r)
    ensures again.Record() == r.(unhandled := None)
    ensures left == rest
  {
    var channel := new DataStream(Canonical(r) + rest);
    CanonicalStops(r, rest);
    StopsAtFirstFinal(Canonical(r) + rest, Canonical(r), rest);
    var res := NewControlSequence(channel);
    again := res.value;
    StopsAtFirstFinal(Canonical(r) + rest, again.sequenceString, channel.pending);
    CanonicalRoundTrip(r);
    left := channel.pending;
  }

  /** Appending character `b` after a non-empty prefix appends it after the mark, too. */
  lemma AfterMarkAppend(p: seq<char>, b: char)
    ensures |p| > 0 ==> AfterMark(p + [b]) == AfterMark(p) + [b] && (p + [b])[0] == p[0]
    ensures IsArgChar(b) ==> Unhandled(AfterMark(p + [b])) == Unhandled(AfterMark(p))
    ensures |p| == 0 && IsMark(b) ==> Unhandled(AfterMark(p + [b])) == []
    ensures !IsArgChar(b) && !(|p| == 0 && IsMark(b)) ==>
      Unhandled(AfterMark(p + [b])) == Unhandled(AfterMark(p)) + [b]
  {
    var q := AfterMark(p + [b]);
    if |p| > 0 {
      if IsMark(p[0]) {
        assert (p + [b])[1..] == p[1..] + [b];
      }
      assert q == AfterMark(p) + [b];
      assert q[..|q| - 1] == AfterMark(p);
    } else if !IsMark(b) {
      assert q == [b];
      assert q[..0] == [];
    }
  }

  /** The marks written one after the other, each only when its flag is set. */
  lemma MarkTextAfter(s: seq<char>, exclamation: bool, question: bool, more: bool)
    ensures s + MarkText(exclamation, question, more) ==
      s + (if exclamation then ['!'] else []) + (if question then ['?'] else []) + (if more then ['>'] else [])
  {
  }

  /** The canonical text after a prefix: marks, arguments, final character in turn. */
  lemma CanonicalAfter(s: seq<char>, r: Csi)
    ensures s + Canonical(r) == s + Marks(r) + JoinArgs(r.args) + [r.final]
  {
  }

  /** The pushed-back text piece by piece. */
  lemma ReorderedAfterUnhandled(r: Csi)
    requires r.unhandled.Some?
    ensures Reordered(r) == r.unhandled.value + [ESC, '['] + Marks(r) + JoinArgs(r.args) + [r.final]
  {
  }

  /** The rendering of the first `k` arguments is no longer than that of all. */
  lemma {:induction false} JoinArgsPrefixLength(a: seq<nat>, k: nat)
    requires k <= |a|
    ensures |JoinArgs(a[..k])| <= |JoinArgs(a)|
    decreases |a| - k
  {
    if k < |a| {
      JoinArgsPrefixLength(a, k + 1);
      assert a[..k + 1] == a[..k] + [a[k]];
      JoinArgsSnoc(a[..k], a[k]);
    } else {
      assert a[..k] == a;
    }
  }

  /** One turn of the argument loop: text, separator, digits. */
  lemma AppendArgumentStep(head: seq<char>, a: seq<nat>, x: nat, sep: seq<char>)
    requires sep == if a == [] then [] else [';']
    ensures head + JoinArgs(a) + sep + DecimalString(x) == head + JoinArgs(a + [x])
  {
    JoinArgsSnoc(a, x);
  }

  /**
   * The argument state over values: `slots` are the used array slots (the
   * committed arguments and the pending one), `capacity` the array length,
   * `digit` the length of the pending run, `seenDigit` whether any digit
   * was read.
   */
  ghost predicate ArgState(slots: seq<nat>, capacity: nat, f: seq<char>, digit: int, seenDigit: int)
  {
    && |slots| > 0 && capacity == Capacity(|slots| - 1)
    && slots[..|slots| - 1] == Committed(f)
    && Last(slots) == DecimalValue(Pending(f))
    && digit == |Pending(f)|
    && seenDigit == (if Committed(f) != [] || Pending(f) != [] then 1 else 0)
  }

  /** At the final character the used slots, less an empty pending one, are the arguments. */
  lemma ArgStateArguments(slots: seq<nat>, capacity: nat, f: seq<char>, digit: int, seenDigit: int)
    requires ArgState(slots, capacity, f, digit, seenDigit)
    ensures 0 <= seenDigit <= 1 && slots[..|slots| - 1 + seenDigit] == ArgumentsOf(f)
    ensures capacity == Capacity(|Committed(f)|)
  {
    ArgumentsFromRuns(f);
    assert slots == slots[..|slots| - 1] + [Last(slots)];
  }

  /** A semicolon commits the pending argument, if it has a digit, and opens a new slot. */
  lemma ArgStateSemicolon(slots: seq<nat>, capacity: nat, f: seq<char>, digit: int, seenDigit: int)
    requires ArgState(slots, capacity, f, digit, seenDigit)
    ensures digit > 0 ==>
      ArgState(slots + [0], if |slots| == capacity then 2 * capacity else capacity, f + [';'], 0, seenDigit)
    ensures digit == 0 ==> ArgState(slots, capacity, f + [';'], digit, seenDigit)
  {
    CapacityStep(|slots| - 1);
    SplitSemicolon(f);
    var g := slots + [0];
    assert g[..|g| - 1] == slots;
    assert slots == slots[..|slots| - 1] + [Last(slots)];
  }

  /** A digit extends the pending argument. */
  lemma ArgStateDigit(slots: seq<nat>, capacity: nat, f: seq<char>, digit: int, seenDigit: int, d: char)
    requires ArgState(slots, capacity, f, digit, seenDigit) && IsDigit(d)
    ensures ArgState(slots[..|slots| - 1] + [10 * Last(slots) + DigitValue(d)], capacity, f + [d], digit + 1, 1)
  {
    SplitDigit(f, d);
    var p := Pending(f) + [d];
    assert p[..|p| - 1] == Pending(f);
  }

  /** Decoding the body followed by its final character. */
  lemma FinishDecoding(body: seq<char>, b: char)
    ensures Decode(body + [b]) == Csi(
      |body| > 0 && body[0] == '!', |body| > 0 && body[0] == '?', |body| > 0 && body[0] == '>',
      ArgumentsOf(ArgText(body)), b, OptionOf(Unhandled(AfterMark(body))))
  {
    assert (body + [b])[..|body|] == body;
  }

  lemma NoFinalAppend(p: seq<char>, b: char)
    requires NoFinal(p) && !IsFinal(b)
    ensures NoFinal(p + [b])
  {
  }

  /** At most one digit flag, and the pending slot is always there. */
  lemma ScanBounds(t: seq<char>)
    ensures 0 <= ScanOf(t).seenDigit <= 1
  {
    ScanMeaning(t);
  }

  /** The loop's exit: the characters read so far are free of final characters until `b`. */
  lemma FinalReached(s: seq<char>, p: seq<char>, b: char, rest: seq<char>)
    requires s == p + [b] + rest && NoFinal(p) && IsFinal(b)
    ensures StopsAtFinal(s, p + [b], rest) && HasFinal(s)
    ensures (p + [b])[..|p|] == p
  {
    assert (p + [b])[..|p|] == p;
    assert s[|p|] == b;
  }

  lemma TakeFirst(s: seq<char>, p: seq<char>, q: seq<char>)
    requires s == p + q && q != []
    ensures s == p + [q[0]] + q[1..]
  {
    assert q == [q[0]] + q[1..];
  }

  lemma ArgTextAppend(p: seq<char>, b: char)
    ensures ArgText(p + [b]) == ArgText(p) + (if IsArgChar(b) then [b] else [])
  {
    assert (p + [b])[..|p|] == p;
  }
}
