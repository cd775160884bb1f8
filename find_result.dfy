/**
 * The results of a substring search: the matches found (`FindItem`s), the
 * ranges they cover in each text buffer, and a cursor that steps backwards
 * through the matches, wrapping around.
 *
 * Buffers are compared by identity in the terminal; here a buffer carries
 * an `id` standing for that identity, next to its text.
 */
module FindResults {
  import opened Wrappers
  import opened Sequences

  /** A text segment of the scrollback. */
  datatype CharBuffer = CharBuffer(id: nat, text: seq<char>)

  /**
   * A buffer taking part in the search window, with the screen position
   * passed along with its first character. `identityHash` is the JVM's
   * identity hash of the token object, which `Object.toString` prints.
   */
  datatype TextToken = TextToken(x: int, y: int, buf: CharBuffer, identityHash: int)

  /** A `[start, end)` pair of offsets into one buffer. */
  type Range = (int, int)

  datatype Point = Point(x: int, y: int)

  /** The name `Object.toString` prints for a token. */
  const TOKEN_CLASS: seq<char> := "com.jediterm.terminal.SubstringFinder$TextToken"

  function HexDigit(d: nat): char
    requires d < 16
  {
    "0123456789abcdef"[d]
  }

  /** `Integer.toHexString` of the non-negative value `n`. */
  function Hex(n: nat): (s: seq<char>)
    ensures |s| >= 1
  {
    if n < 16 then [HexDigit(n)] else Hex(n / 16) + [HexDigit(n % 16)]
  }

  /** `Object.toString` of a token: class name, `@`, identity hash in unsigned hexadecimal. */
  function ObjectString(t: TextToken): seq<char>
  {
    TOKEN_CLASS + "@" + Hex(t.identityHash % 0x1_0000_0000)
  }

  /**
   * A match: the tokens that were in the window (copied), the offset of its
   * first character in the first token and of its last character in the last.
   */
  datatype FindItem = FindItem(tokens: seq<TextToken>, firstIndex: int, lastIndex: int)
  {
    /** The offsets lie in the buffers, so the item can be rendered. */
    predicate Renderable()
    {
      && |tokens| > 0
      && if |tokens| > 1 then
           0 <= firstIndex <= |tokens[0].buf.text| && 0 <= lastIndex + 1 <= |Last(tokens).buf.text|
         else
           0 <= firstIndex <= lastIndex + 1 <= |tokens[0].buf.text|
    }

    /** The part of the first buffer the item starts with. */
    function Head(): seq<char>
      requires Renderable()
    {
      if |tokens| > 1 then tokens[0].buf.text[firstIndex..]
      else tokens[0].buf.text[firstIndex..lastIndex + 1]
    }

    /** The part of the last buffer the item ends with, when it spans more than one. */
    function Tail(): seq<char>
      requires Renderable()
    {
      if |tokens| > 1 then Last(tokens).buf.text[..lastIndex + 1] else []
    }

    /** The middle tokens: whole buffers between the first and the last. */
    function Middle(): seq<TextToken>
      requires |tokens| > 0
    {
      if |tokens| > 1 then tokens[1..|tokens| - 1] else []
    }

    /**
     * The text the item covers in its buffers: the characters of the ranges
     * `patternMatched` records for it, one range after another.
     */
    function CoveredText(): (c: seq<char>)
      requires Renderable()
      ensures WithinBuffers(ItemRanges(this)) && c == RangeTexts(ItemRanges(this))
    {
      CoveredByRanges(this);
      Head() + BufferTexts(Middle()) + Tail()
    }

    /**
     * `toString` as written: the middle tokens are appended as objects, so
     * their `Object.toString` is printed instead of their buffers' text.
     */
    function Text(): (s: seq<char>)
      requires Renderable()
      ensures |tokens| <= 2 ==> s == CoveredText()
    {
      Head() + ObjectStrings(Middle()) + Tail()
    }

    /** `toString`, building the text with the loop over the middle tokens. */
    method ToString() returns (s: seq<char>)
      requires Renderable()
      ensures s == Text()
    {
      if |tokens| > 1 {
        s := tokens[0].buf.text[firstIndex..];
      } else {
        s := tokens[0].buf.text[firstIndex..lastIndex + 1];
      }
      s := AppendMiddle(s, tokens);
      if |tokens| > 1 {
        s := s + Last(tokens).buf.text[..lastIndex + 1];
      }
    }

    /** `getStart`: on the first token's row, at the column where the first recorded range starts. */
    function GetStart(): (p: Point)
      requires |tokens| > 0
      ensures p == Point(tokens[0].x + ItemRanges(this)[0].1.0, tokens[0].y)
    {
      Point(tokens[0].x + firstIndex, tokens[0].y)
    }

    /**
     * `getEnd`: on the last token's row, at the column of the last character
     * of the last recorded range. Within one buffer the item spans as many
     * columns of one row as it covers characters.
     */
    function GetEnd(): (p: Point)
      requires |tokens| > 0
      ensures p == Point(Last(tokens).x + Last(ItemRanges(this)).1.1 - 1, Last(tokens).y)
      ensures Renderable() && |tokens| == 1 ==>
        p.y == GetStart().y && p.x - GetStart().x + 1 == |CoveredText()|
    {
      Point(Last(tokens).x + lastIndex, Last(tokens).y)
    }
  }

  /** The loop of `toString` over the middle tokens, each appended as an object. */
  method AppendMiddle(head: seq<char>, tokens: seq<TextToken>) returns (s: seq<char>)
    requires |tokens| > 0
    ensures s == head + ObjectStrings(FindItem(tokens, 0, 0).Middle())
  {
    s := head;
    var i := 1;
    while i < |tokens| - 1
      invariant 1 <= i <= if |tokens| > 1 then |tokens| - 1 else 1
      invariant s == head + ObjectStrings(tokens[1..i])
    {
      ObjectStringsAppend(head, tokens[1..i], tokens[i]);
      assert tokens[1..i + 1] == tokens[1..i] + [tokens[i]];
      s := s + ObjectString(tokens[i]);
      i := i + 1;
    }
    assert |tokens| > 1 ==> tokens[1..i] == tokens[1..|tokens| - 1];
  }

  lemma ObjectStringsAppend(head: seq<char>, ts: seq<TextToken>, t: TextToken)
    ensures head + ObjectStrings(ts + [t]) == head + ObjectStrings(ts) + ObjectString(t)
  {
    assert (ts + [t])[..|ts|] == ts;
  }

  /** The texts of the buffers, one after another. */
  function BufferTexts(ts: seq<TextToken>): seq<char>
  {
    if ts == [] then [] else BufferTexts(ts[..|ts| - 1]) + Last(ts).buf.text
  }

  /** The `Object.toString` renderings of the tokens, one after another. */
  function ObjectStrings(ts: seq<TextToken>): seq<char>
  {
    if ts == [] then [] else ObjectStrings(ts[..|ts| - 1]) + ObjectString(Last(ts))
  }

  // ---------------------------------------------------------------------
  // What an item's text is

  /** A token renders as at least 49 characters: the class name, `@` and one hex digit. */
  lemma ObjectStringLength(t: TextToken)
    ensures |ObjectString(t)| >= |TOKEN_CLASS| + 2 == 49
  {
  }

  /**
   * Over three or more buffers the text is longer than the covered text when
   * every middle buffer is shorter than a token's rendering, so such an item
   * never shows the text it covers.
   */
  lemma TextOverShortMiddles(item: FindItem)
    requires item.Renderable() && |item.tokens| >= 3
    requires forall t :: t in item.Middle() ==> |t.buf.text| < 49
    ensures |item.Text()| > |item.CoveredText()|
  {
    ShortMiddlesRenderLonger(item.Middle());
  }

  lemma {:induction false} ShortMiddlesRenderLonger(ts: seq<TextToken>)
    requires ts != []
    requires forall t :: t in ts ==> |t.buf.text| < 49
    ensures |ObjectStrings(ts)| > |BufferTexts(ts)|
  {
    var init := ts[..|ts| - 1];
    ObjectStringLength(Last(ts));
    if init != [] {
      assert forall t :: t in init ==> t in ts;
      ShortMiddlesRenderLonger(init);
    }
  }

  /** Three one-character buffers holding "abc": the item covers "abc" but its text is not "abc". */
  lemma ExampleThreeBuffers()
    ensures var ts := [TextToken(0, 0, CharBuffer(1, "a"), 7),
                       TextToken(0, 1, CharBuffer(2, "b"), 8),
                       TextToken(0, 2, CharBuffer(3, "c"), 9)];
            var item := FindItem(ts, 0, 0);
            item.Renderable() && item.CoveredText() == "abc" && item.Text() != "abc"
  {
    var ts := [TextToken(0, 0, CharBuffer(1, "a"), 7),
               TextToken(0, 1, CharBuffer(2, "b"), 8),
               TextToken(0, 2, CharBuffer(3, "c"), 9)];
    var item := FindItem(ts, 0, 0);
    assert item.Middle() == [ts[1]];
    assert BufferTexts([ts[1]]) == "b" by { assert [ts[1]][..0] == []; }
    TextOverShortMiddles(item);
  }

  /** An item within one buffer renders as the characters it spans. */
  lemma SingleTokenText(t: TextToken, firstIndex: int, lastIndex: int)
    requires 0 <= firstIndex <= lastIndex + 1 <= |t.buf.text|
    ensures FindItem([t], firstIndex, lastIndex).Text() == t.buf.text[firstIndex..lastIndex + 1]
  {
    var item := FindItem([t], firstIndex, lastIndex);
    assert item.Middle() == [] && item.Tail() == [];
    assert ObjectStrings([]) == [];
    assert item.Head() + [] + [] == item.Head();
  }

  // ---------------------------------------------------------------------
  // Ranges per buffer

  /**
   * The ranges an item contributes, in the order they are recorded: the
   * first buffer from `firstIndex`, each middle buffer whole, the last
   * buffer up to `lastIndex`; a single buffer gets `[firstIndex, lastIndex + 1)`.
   */
  function ItemRanges(item: FindItem): seq<(CharBuffer, Range)>
    requires |item.tokens| > 0
  {
    var t := item.tokens;
    if |t| > 1 then
      [(t[0].buf, (item.firstIndex, |t[0].buf.text|))]
      + WholeRanges(t[1..|t| - 1])
      + [(Last(t).buf, (0, item.lastIndex + 1))]
    else
      [(t[0].buf, (item.firstIndex, item.lastIndex + 1))]
  }

  function WholeRanges(ts: seq<TextToken>): seq<(CharBuffer, Range)>
  {
    if ts == [] then [] else WholeRanges(ts[..|ts| - 1]) + [(Last(ts).buf, (0, |Last(ts).buf.text|))]
  }

  /** Every range lies within its buffer. */
  predicate WithinBuffers(ps: seq<(CharBuffer, Range)>)
  {
    forall i :: 0 <= i < |ps| ==> 0 <= ps[i].1.0 <= ps[i].1.1 <= |ps[i].0.text|
  }

  /** The characters the ranges select, one range after another. */
  function RangeTexts(ps: seq<(CharBuffer, Range)>): seq<char>
    requires WithinBuffers(ps)
  {
    if ps == [] then [] else RangeTexts(ps[..|ps| - 1]) + Last(ps).0.text[Last(ps).1.0..Last(ps).1.1]
  }

  lemma {:induction false} RangeTextsAppend(a: seq<(CharBuffer, Range)>, b: seq<(CharBuffer, Range)>)
    requires WithinBuffers(a) && WithinBuffers(b)
    ensures WithinBuffers(a + b) && RangeTexts(a + b) == RangeTexts(a) + RangeTexts(b)
    decreases |b|
  {
    if b != [] {
      var b' := b[..|b| - 1];
      RangeTextsAppend(a, b');
      assert (a + b)[..|a + b| - 1] == a + b';
    } else {
      assert a + b == a;
    }
  }

  /** Whole-buffer ranges select the buffers' texts. */
  lemma {:induction false} WholeRangeTexts(ts: seq<TextToken>)
    ensures WithinBuffers(WholeRanges(ts)) && RangeTexts(WholeRanges(ts)) == BufferTexts(ts)
  {
    if ts != [] {
      var ts' := ts[..|ts| - 1];
      WholeRangeTexts(ts');
      var w := WholeRanges(ts);
      assert w[..|w| - 1] == WholeRanges(ts');
    }
  }

  /** An item's ranges lie within its buffers and select its head, middle buffers and tail. */
  lemma CoveredByRanges(item: FindItem)
    requires item.Renderable()
    ensures WithinBuffers(ItemRanges(item))
    ensures RangeTexts(ItemRanges(item)) == item.Head() + BufferTexts(item.Middle()) + item.Tail()
  {
    var t := item.tokens;
    if |t| > 1 {
      var first := [(t[0].buf, (item.firstIndex, |t[0].buf.text|))];
      var last := [(Last(t).buf, (0, item.lastIndex + 1))];
      assert RangeTexts(first) == item.Head() by { assert first[..0] == []; }
      assert RangeTexts(last) == item.Tail() by { assert last[..0] == []; }
      WholeRangeTexts(item.Middle());
      RangeTextsAppend(first, WholeRanges(item.Middle()));
      RangeTextsAppend(first + WholeRanges(item.Middle()), last);
    } else {
      var only := ItemRanges(item);
      assert only[..0] == [];
      assert BufferTexts(item.Middle()) == [] && item.Tail() == [];
    }
  }

  /** Putting one more whole buffer's range. */
  lemma PutWholeStep(m: map<CharBuffer, seq<Range>>, ts: seq<TextToken>, t: TextToken)
    ensures PutAll(m, WholeRanges(ts + [t])) == PutRange(PutAll(m, WholeRanges(ts)), t.buf, (0, |t.buf.text|))
  {
    assert (ts + [t])[..|ts|] == ts;
    var w := WholeRanges(ts + [t]);
    assert w[..|w| - 1] == WholeRanges(ts);
  }

  predicate AllTokened(items: seq<FindItem>)
  {
    forall i :: 0 <= i < |items| ==> |items[i].tokens| > 0
  }

  /** The ranges of all items, in the order they were recorded. */
  function Recorded(items: seq<FindItem>): seq<(CharBuffer, Range)>
    requires AllTokened(items)
  {
    if items == [] then [] else Recorded(items[..|items| - 1]) + ItemRanges(Last(items))
  }

  /** `put`: the buffer's list gets the range appended, created on first use. */
  function PutRange(m: map<CharBuffer, seq<Range>>, c: CharBuffer, r: Range): map<CharBuffer, seq<Range>>
  {
    if c in m then m[c := m[c] + [r]] else m[c := [r]]
  }

  /** A sequence of `put`s. */
  function PutAll(m: map<CharBuffer, seq<Range>>, ps: seq<(CharBuffer, Range)>): map<CharBuffer, seq<Range>>
  {
    if ps == [] then m else PutRange(PutAll(m, ps[..|ps| - 1]), Last(ps).0, Last(ps).1)
  }

  /** The ranges recorded for buffer `c`, in order. */
  function RangesFor(c: CharBuffer, ps: seq<(CharBuffer, Range)>): seq<Range>
  {
    if ps == [] then [] else RangesFor(c, ps[..|ps| - 1]) + (if Last(ps).0 == c then [Last(ps).1] else [])
  }

  /** One `put` touches only its own buffer's list, which grows by the range. */
  lemma PutRangeEffect(m: map<CharBuffer, seq<Range>>, c: CharBuffer, r: Range, d: CharBuffer)
    ensures d in PutRange(m, c, r) <==> d in m || d == c
    ensures d != c && d in m ==> PutRange(m, c, r)[d] == m[d]
    ensures PutRange(m, c, r)[c] == (if c in m then m[c] else []) + [r]
  {
  }

  /** After a sequence of `put`s a buffer's list is its old list followed by its ranges in order. */
  lemma {:induction false} PutAllFor(m: map<CharBuffer, seq<Range>>, ps: seq<(CharBuffer, Range)>, c: CharBuffer)
    ensures c in PutAll(m, ps) <==> c in m || RangesFor(c, ps) != []
    ensures c in PutAll(m, ps) ==> PutAll(m, ps)[c] == (if c in m then m[c] else []) + RangesFor(c, ps)
  {
    if ps != [] {
      var init := ps[..|ps| - 1];
      PutAllFor(m, init, c);
      PutRangeEffect(PutAll(m, init), Last(ps).0, Last(ps).1, c);
    }
  }

  lemma {:induction false} PutAllAppend(m: map<CharBuffer, seq<Range>>, a: seq<(CharBuffer, Range)>, b: seq<(CharBuffer, Range)>)
    ensures PutAll(m, a + b) == PutAll(PutAll(m, a), b)
  {
    if b == [] {
      assert a + b == a;
    } else {
      var init := b[..|b| - 1];
      PutAllAppend(m, a, init);
      assert (a + b)[..|a + b| - 1] == a + init;
      assert Last(a + b) == Last(b);
    }
  }

  /** Going back from cursor `c` over `n` items: from 0 to the newest, else one back. */
  function Previous(c: int, n: int): int
  {
    if c == 0 then n - 1 else c - 1
  }

  /** The cursor after `k` steps back from the start. */
  function CursorAfter(n: int, k: nat): int
  {
    if k == 0 then 0 else Previous(CursorAfter(n, k - 1), n)
  }

  /** Over the first round the cursor visits n-1, n-2, ..., 0. */
  lemma {:induction false} CursorFirstRound(n: int, k: nat)
    requires 0 < k <= n
    ensures CursorAfter(n, k) == n - k
  {
    if k > 1 {
      CursorFirstRound(n, k - 1);
    }
  }

  /** After `n` steps the cursor is back where it started: n-1, ..., 0, n-1, ... */
  lemma {:induction false} CursorPeriodic(n: int, k: nat)
    requires n > 0
    ensures CursorAfter(n, k + n) == CursorAfter(n, k)
  {
    if k == 0 {
      CursorFirstRound(n, n);
    } else {
      CursorPeriodic(n, k - 1);
      assert k + n - 1 == (k - 1) + n;
    }
  }

  /** With items present the cursor, stepped from the start, always lies among them. */
  lemma {:induction false} CursorInBounds(n: int, k: nat)
    requires n > 0
    ensures 0 <= CursorAfter(n, k) < n
  {
    if k > 0 {
      CursorInBounds(n, k - 1);
    }
  }

  /** Once the cursor has gone below zero it stays there, whatever the number of items. */
  lemma CursorStaysNegative(c: int, n: int)
    requires c < 0
    ensures Previous(c, n) < 0
  {
  }

  /**
   * The search result: the matches in the order found, the ranges per buffer,
   * and the cursor of `NextFindItem`.
   */
  class FindResult {
    var items: seq<FindItem>
    var ranges: map<CharBuffer, seq<Range>>
    var currentFindItem: int

    /** Each buffer's list holds the ranges the items recorded for it; the cursor stays below the item count. */
    ghost predicate Valid()
      reads this
    {
      && AllTokened(items)
      && ranges == PutAll(map[], Recorded(items))
      && (currentFindItem == 0 || currentFindItem < |items|)
    }

    constructor ()
      ensures Valid() && items == [] && ranges == map[] && currentFindItem == 0
    {
      items := [];
      ranges := map[];
      currentFindItem := 0;
    }

    /**
     * `getRanges`: the list of ranges recorded for the buffer, `None` (null)
     * for a buffer no match touched.
     */
    function GetRanges(characters: CharBuffer): (r: Option<seq<Range>>)
      reads this
      requires Valid()
      ensures var rs := RangesFor(characters, Recorded(items));
        r == if rs == [] then None else Some(rs)
    {
      RangesRecorded(this, characters);
      if characters in ranges then Some(ranges[characters]) else None
    }

    /** `put`: append a range to the buffer's list, creating the list on first use. */
    method Put(characters: CharBuffer, range: Range)
      modifies this
      ensures ranges == PutRange(old(ranges), characters, range)
      ensures items == old(items) && currentFindItem == old(currentFindItem)
    {
      if characters in ranges {
        ranges := ranges[characters := ranges[characters] + [range]];
      } else {
        ranges := ranges[characters := [range]];
      }
    }

    /** `patternMatched`: record the ranges of a match, then the match itself. */
    method PatternMatched(tokens: seq<TextToken>, firstIndex: int, lastIndex: int)
      requires Valid() && |tokens| > 0
      modifies this
      ensures Valid()
      ensures items == old(items) + [FindItem(tokens, firstIndex, lastIndex)]
      ensures ranges == PutAll(old(ranges), ItemRanges(FindItem(tokens, firstIndex, lastIndex)))
      ensures currentFindItem == old(currentFindItem)
    {
      var item := FindItem(tokens, firstIndex, lastIndex);
      ghost var parts := ItemRangeParts(item);
      if |tokens| > 1 {
        Put(tokens[0].buf, (firstIndex, |tokens[0].buf.text|));
      } else {
        Put(tokens[0].buf, (firstIndex, lastIndex + 1));
      }
      assert ranges == PutAll(old(ranges), parts.0);
      PutMiddle(tokens);
      PutAllAppend(old(ranges), parts.0, parts.1);
      if |tokens| > 1 {
        Put(Last(tokens).buf, (0, lastIndex + 1));
      }
      assert ranges == PutAll(PutAll(old(ranges), parts.0 + parts.1), parts.2);
      PutAllAppend(old(ranges), parts.0 + parts.1, parts.2);
      RecordedAppend(items, item);
      PutAllAppend(map[], Recorded(items), ItemRanges(item));
      items := items + [item];
    }

    /** The loop of `patternMatched` over the middle tokens: each buffer's whole range. */
    method PutMiddle(tokens: seq<TextToken>)
      requires |tokens| > 0
      modifies this
      ensures ranges == PutAll(old(ranges), WholeRanges(FindItem(tokens, 0, 0).Middle()))
      ensures items == old(items) && currentFindItem == old(currentFindItem)
    {
      var i := 1;
      while i < |tokens| - 1
        invariant 1 <= i <= if |tokens| > 1 then |tokens| - 1 else 1
        invariant ranges == PutAll(old(ranges), WholeRanges(tokens[1..i]))
        invariant items == old(items) && currentFindItem == old(currentFindItem)
      {
        assert tokens[1..i + 1] == tokens[1..i] + [tokens[i]];
        PutWholeStep(old(ranges), tokens[1..i], tokens[i]);
        Put(tokens[i].buf, (0, |tokens[i].buf.text|));
        i := i + 1;
      }
      assert |tokens| > 1 ==> tokens[1..i] == tokens[1..|tokens| - 1];
    }

    /**
     * `nextFindItem`: step the cursor back (from 0 to the newest item) and
     * return the item under it, `None` (null) when there is none.
     */
    method NextFindItem() returns (r: Option<FindItem>)
      requires Valid()
      modifies this
      ensures Valid() && items == old(items) && ranges == old(ranges)
      ensures currentFindItem == Previous(old(currentFindItem), |items|)
      ensures r == if 0 <= currentFindItem < |items| then Some(items[currentFindItem]) else None
    {
      if currentFindItem == 0 {
        currentFindItem := |items| - 1;
      } else {
        currentFindItem := currentFindItem - 1;
      }
      if 0 <= currentFindItem <= |items| {
        r := Some(items[currentFindItem]);
      } else {
        r := None;
      }
    }
  }

  /**
   * A buffer's list holds, in the order recorded, the ranges every match
   * so far covers in that buffer; there is no list for a buffer no match touches.
   */
  lemma RangesRecorded(result: FindResult, characters: CharBuffer)
    requires result.Valid()
    ensures var rs := RangesFor(characters, Recorded(result.items));
      && (characters in result.ranges <==> rs != [])
      && (characters in result.ranges ==> result.ranges[characters] == rs)
  {
    var rs := Recorded(result.items);
    assert result.ranges == PutAll(map[], rs);
    PutAllFor(map[], rs, characters);
    assert [] + RangesFor(characters, rs) == RangesFor(characters, rs);
  }

  /** An item's ranges in three parts: the first buffer's, the middle buffers', the last buffer's. */
  function ItemRangeParts(item: FindItem): (parts: (seq<(CharBuffer, Range)>, seq<(CharBuffer, Range)>, seq<(CharBuffer, Range)>))
    requires |item.tokens| > 0
    ensures parts.0 + parts.1 + parts.2 == ItemRanges(item)
    ensures parts.1 == WholeRanges(item.Middle()) && |parts.0| == 1
  {
    var t := item.tokens;
    if |t| > 1 then
      ([(t[0].buf, (item.firstIndex, |t[0].buf.text|))], WholeRanges(t[1..|t| - 1]), [(Last(t).buf, (0, item.lastIndex + 1))])
    else
      ([(t[0].buf, (item.firstIndex, item.lastIndex + 1))], [], [])
  }

  lemma RecordedAppend(items: seq<FindItem>, item: FindItem)
    requires AllTokened(items) && |item.tokens| > 0
    ensures AllTokened(items + [item])
    ensures Recorded(items + [item]) == Recorded(items) + ItemRanges(item)
  {
    assert (items + [item])[..|items|] == items;
  }
}
