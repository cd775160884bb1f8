/**
 * The window of the substring search, stated on values: the tokens, the
 * offset of the window's first character in the first token, and the offset
 * `e` of its newest character in the last token. The window's text is what
 * an item made of these tokens covers.
 */
module FinderWindow {
  import opened Sequences
  import opened FindResults

  /** Every token's buffer holds text, and the offsets lie in the buffers. */
  ghost predicate Placed(ts: seq<TextToken>, fi: int, e: int)
  {
    && NonEmptyTexts(ts)
    && (ts == [] ==> fi == 0)
    && (|ts| == 1 ==> 0 <= fi <= e + 1 <= |ts[0].buf.text| && fi < |ts[0].buf.text|)
    && (|ts| > 1 ==> 0 <= fi < |ts[0].buf.text| && 0 <= e + 1 <= |Last(ts).buf.text|)
  }

  /** No token's buffer is empty. */
  ghost predicate NonEmptyTexts(ts: seq<TextToken>)
  {
    ts == [] || (|ts[0].buf.text| > 0 && NonEmptyTexts(ts[1..]))
  }

  lemma {:induction false} NonEmptySnoc(ts: seq<TextToken>, tok: TextToken)
    requires NonEmptyTexts(ts) && |tok.buf.text| > 0
    ensures NonEmptyTexts(ts + [tok])
  {
    if ts != [] {
      NonEmptySnoc(ts[1..], tok);
      assert (ts + [tok])[1..] == ts[1..] + [tok];
    } else {
      assert [tok][1..] == [];
    }
  }

  /**
   * The text of the window: the first buffer from `fi`, the middle buffers
   * whole, the last buffer up to `e`.
   */
  ghost function WindowOf(ts: seq<TextToken>, fi: int, e: int): seq<char>
    requires Placed(ts, fi, e)
  {
    if ts == [] then []
    else if |ts| == 1 then ts[0].buf.text[fi..e + 1]
    else ts[0].buf.text[fi..] + BufferTexts(ts[1..|ts| - 1]) + Last(ts).buf.text[..e + 1]
  }

  /** After a match the window is empty, whether or not the buffer has characters left. */
  lemma RestartPlaced(tok: TextToken, index: int)
    requires 0 <= index < |tok.buf.text|
    ensures index + 1 < |tok.buf.text| ==> Placed([tok], index + 1, index) && WindowOf([tok], index + 1, index) == []
    ensures Placed([], 0, index) && WindowOf([], 0, index) == []
  {
    assert [tok][1..] == [];
  }

  /** The window is what an item made of the tokens covers. */
  lemma WindowIsCovered(ts: seq<TextToken>, fi: int, e: int)
    requires Placed(ts, fi, e) && ts != []
    ensures FindItem(ts, fi, e).Renderable()
    ensures WindowOf(ts, fi, e) == FindItem(ts, fi, e).CoveredText()
  {
    var item := FindItem(ts, fi, e);
    if |ts| == 1 {
      assert item.Head() + BufferTexts([]) + [] == item.Head();
    }
  }

  /** A token is added when the character comes from another buffer than the last token's. */
  function Added(ts: seq<TextToken>, tok: TextToken): seq<TextToken>
  {
    if ts == [] || Last(ts).buf != tok.buf then ts + [tok] else ts
  }

  /** The oldest character leaves: the front token goes once its last character has left. */
  function Dropped(ts: seq<TextToken>, fi: int): (seq<TextToken>, int)
  {
    if ts != [] && fi + 1 == |ts[0].buf.text| then (ts[1..], 0) else (ts, fi + 1)
  }

  /** The tokens after one character, before any match: added to, then dropped from when the window was full. */
  function Advanced(ts: seq<TextToken>, fi: int, full: bool, tok: TextToken): (seq<TextToken>, int)
  {
    if full then Dropped(Added(ts, tok), fi) else (Added(ts, tok), fi)
  }

  /** The window after one more character: it grows up to `n` characters, then slides. */
  function Slide(w: seq<char>, c: char, n: int): seq<char>
    requires |w| > 0 || |w| != n
  {
    if |w| == n then w[1..] + [c] else w + [c]
  }

  /** The window holds the last `n` characters seen, or all of them while fewer than `n` came. */
  lemma SlideKeepsLast(w: seq<char>, c: char, n: int)
    requires 0 <= |w| <= n && n > 0
    ensures |Slide(w, c, n)| == if |w| < n then |w| + 1 else n
    ensures Slide(w, c, n) == (w + [c])[|w| + 1 - |Slide(w, c, n)|..]
  {
    if |w| == n {
      assert (w + [c])[1..] == w[1..] + [c];
    } else {
      assert (w + [c])[0..] == w + [c];
    }
  }

  /**
   * Characters come in document order: the next one of the last token's
   * buffer, or the first of a new buffer once the last one is exhausted.
   */
  ghost predicate Follows(ts: seq<TextToken>, e: int, buf: CharBuffer, index: int)
  {
    && 0 <= index < |buf.text|
    && if ts != [] && Last(ts).buf == buf then index == e + 1
       else index == 0 && (ts != [] ==> e == |Last(ts).buf.text| - 1)
  }

  lemma BufferTextsFront(t: TextToken, ts: seq<TextToken>)
    ensures BufferTexts([t] + ts) == t.buf.text + BufferTexts(ts)
    decreases |ts|
  {
    if ts != [] {
      var init := ts[..|ts| - 1];
      BufferTextsFront(t, init);
      assert ([t] + ts)[..|ts|] == [t] + init;
    } else {
      assert [t][..0] == [];
    }
  }

  lemma BufferTextsSnoc(ts: seq<TextToken>, t: TextToken)
    ensures BufferTexts(ts + [t]) == BufferTexts(ts) + t.buf.text
  {
    assert (ts + [t])[..|ts|] == ts;
  }

  /**
   * The character `index` of `tok`'s buffer, fed in document order, is added
   * at the end of the window, and the tokens still place it.
   */
  lemma ExtendWindow(ts: seq<TextToken>, fi: int, e: int, tok: TextToken, index: int)
    requires Placed(ts, fi, e) && Follows(ts, e, tok.buf, index)
    ensures Placed(Added(ts, tok), fi, index)
    ensures WindowOf(Added(ts, tok), fi, index) == WindowOf(ts, fi, e) + [tok.buf.text[index]]
    ensures Last(Added(ts, tok)).buf == tok.buf
  {
    if ts == [] {
      ExtendEmpty(tok, index);
    } else if Last(ts).buf == tok.buf {
      ExtendSameBuffer(ts, fi, e, tok, index);
    } else if |ts| == 1 {
      ExtendSecondBuffer(ts, fi, e, tok);
    } else {
      ExtendNewBuffer(ts, fi, e, tok);
    }
  }

  lemma ExtendEmpty(tok: TextToken, index: int)
    requires Follows([], -1, tok.buf, index)
    ensures Placed([tok], 0, index) && WindowOf([tok], 0, index) == [tok.buf.text[index]]
  {
  }

  lemma ExtendSameBuffer(ts: seq<TextToken>, fi: int, e: int, tok: TextToken, index: int)
    requires Placed(ts, fi, e) && ts != [] && Last(ts).buf == tok.buf && Follows(ts, e, tok.buf, index)
    ensures Placed(ts, fi, index)
    ensures WindowOf(ts, fi, index) == WindowOf(ts, fi, e) + [tok.buf.text[index]]
  {
    var item, item' := FindItem(ts, fi, e), FindItem(ts, fi, index);
    var text := tok.buf.text;
    if |ts| == 1 {
      assert text[fi..index + 1] == text[fi..index] + [text[index]];
    } else {
      assert text[..index + 1] == text[..index] + [text[index]];
      assert item'.Tail() == item.Tail() + [text[index]];
    }
  }

  lemma ExtendSecondBuffer(ts: seq<TextToken>, fi: int, e: int, tok: TextToken)
    requires Placed(ts, fi, e) && |ts| == 1 && Last(ts).buf != tok.buf && Follows(ts, e, tok.buf, 0)
    ensures Placed(ts + [tok], fi, 0)
    ensures WindowOf(ts + [tok], fi, 0) == WindowOf(ts, fi, e) + [tok.buf.text[0]]
  {
    var item' := FindItem(ts + [tok], fi, 0);
    assert item'.Middle() == [];
    assert item'.Tail() == [tok.buf.text[0]];
    assert ts[0].buf.text[fi..e + 1] == ts[0].buf.text[fi..];
  }

  lemma ExtendNewBuffer(ts: seq<TextToken>, fi: int, e: int, tok: TextToken)
    requires Placed(ts, fi, e) && |ts| > 1 && Last(ts).buf != tok.buf && Follows(ts, e, tok.buf, 0)
    ensures Placed(ts + [tok], fi, 0)
    ensures WindowOf(ts + [tok], fi, 0) == WindowOf(ts, fi, e) + [tok.buf.text[0]]
  {
    NonEmptySnoc(ts, tok);
    SnocMiddle(ts, tok);
    assert Placed(ts + [tok], fi, 0);
    var head, mid, last := ts[0].buf.text[fi..], ts[1..|ts| - 1], Last(ts).buf.text;
    NewBufferWindow(ts + [tok], head, mid, Last(ts), fi, tok.buf.text[..1]);
    assert WindowOf(ts, fi, e) == head + BufferTexts(mid) + last by {
      assert last[..e + 1] == last;
    }
  }

  lemma NewBufferWindow(ts': seq<TextToken>, head: seq<char>, mid: seq<TextToken>, l: TextToken, fi: int, tail: seq<char>)
    requires |ts'| > 2 && Placed(ts', fi, 0)
    requires ts'[0].buf.text[fi..] == head && ts'[1..|ts'| - 1] == mid + [l] && Last(ts').buf.text[..1] == tail
    ensures WindowOf(ts', fi, 0) == head + BufferTexts(mid) + l.buf.text + tail
  {
    BufferTextsSnoc(mid, l);
    AppendAssoc(head, BufferTexts(mid), l.buf.text);
  }

  lemma SnocMiddle(ts: seq<TextToken>, tok: TextToken)
    requires |ts| > 1
    ensures (ts + [tok])[0] == ts[0] && Last(ts + [tok]) == tok
    ensures (ts + [tok])[1..|ts|] == ts[1..|ts| - 1] + [Last(ts)]
  {
  }

  /**
   * The oldest character leaves a window of at least two characters: it is
   * the front token's character at `fi`, and what the tokens place after
   * `Dropped` is the rest of the window.
   */
  lemma DropOldest(ts: seq<TextToken>, fi: int, e: int)
    requires Placed(ts, fi, e) && |WindowOf(ts, fi, e)| >= 2
    ensures ts != [] && 0 <= fi < |ts[0].buf.text|
    ensures ts[0].buf.text[fi] == WindowOf(ts, fi, e)[0]
    ensures Placed(Dropped(ts, fi).0, Dropped(ts, fi).1, e)
    ensures WindowOf(Dropped(ts, fi).0, Dropped(ts, fi).1, e) == WindowOf(ts, fi, e)[1..]
    ensures Dropped(ts, fi).0 != [] && Last(Dropped(ts, fi).0) == Last(ts)
  {
    var d := Dropped(ts, fi);
    DropSplit(ts, fi, e);
    var w, c := WindowOf(ts, fi, e), ts[0].buf.text[fi];
    assert w == [c] + WindowOf(d.0, d.1, e);
    assert w[0] == c;
    assert w[1..] == WindowOf(d.0, d.1, e);
  }

  lemma DropSplit(ts: seq<TextToken>, fi: int, e: int)
    requires Placed(ts, fi, e) && |WindowOf(ts, fi, e)| >= 2
    ensures ts != [] && 0 <= fi < |ts[0].buf.text|
    ensures Placed(Dropped(ts, fi).0, Dropped(ts, fi).1, e)
    ensures WindowOf(ts, fi, e) == [ts[0].buf.text[fi]] + WindowOf(Dropped(ts, fi).0, Dropped(ts, fi).1, e)
    ensures Dropped(ts, fi).0 != [] && Last(Dropped(ts, fi).0) == Last(ts)
  {
    var text := ts[0].buf.text;
    if |ts| == 1 {
      DropWithinSingle(ts, fi, e);
    } else if fi + 1 < |text| {
      DropWithinFront(ts, fi, e);
    } else if |ts| == 2 {
      DropFrontOfTwo(ts, fi, e);
    } else {
      DropFrontOfMany(ts, fi, e);
    }
  }

  lemma DropWithinSingle(ts: seq<TextToken>, fi: int, e: int)
    requires Placed(ts, fi, e) && |ts| == 1 && |WindowOf(ts, fi, e)| >= 2
    ensures fi + 1 < |ts[0].buf.text| && Placed(ts, fi + 1, e)
    ensures WindowOf(ts, fi, e) == [ts[0].buf.text[fi]] + WindowOf(ts, fi + 1, e)
  {
    var text := ts[0].buf.text;
    assert WindowOf(ts, fi, e) == text[fi..e + 1];
    assert fi + 1 <= e + 1 <= |text|;
    assert Placed(ts, fi + 1, e);
    assert WindowOf(ts, fi + 1, e) == text[fi + 1..e + 1];
    SliceFirst(text, fi, e + 1);
  }

  lemma DropWithinFront(ts: seq<TextToken>, fi: int, e: int)
    requires Placed(ts, fi, e) && |ts| > 1 && fi + 1 < |ts[0].buf.text|
    ensures Placed(ts, fi + 1, e)
    ensures WindowOf(ts, fi, e) == [ts[0].buf.text[fi]] + WindowOf(ts, fi + 1, e)
  {
    var text := ts[0].buf.text;
    var mid, tail := BufferTexts(ts[1..|ts| - 1]), Last(ts).buf.text[..e + 1];
    assert Placed(ts, fi + 1, e);
    calc {
      WindowOf(ts, fi, e);
      text[fi..] + mid + tail;
      { assert text[fi..] == [text[fi]] + text[fi + 1..]; }
      [text[fi]] + text[fi + 1..] + mid + tail;
      { AppendAssoc([text[fi]], text[fi + 1..], mid); AppendAssoc([text[fi]], text[fi + 1..] + mid, tail); }
      [text[fi]] + (text[fi + 1..] + mid + tail);
      [text[fi]] + WindowOf(ts, fi + 1, e);
    }
  }

  lemma DropFrontOfTwo(ts: seq<TextToken>, fi: int, e: int)
    requires Placed(ts, fi, e) && |ts| == 2 && fi + 1 == |ts[0].buf.text|
    ensures Placed(ts[1..], 0, e)
    ensures WindowOf(ts, fi, e) == [ts[0].buf.text[fi]] + WindowOf(ts[1..], 0, e)
  {
    var text := ts[0].buf.text;
    assert text[fi..] == [text[fi]];
    assert FindItem(ts, fi, e).Middle() == [];
    assert Last(ts) == ts[1..][0];
  }

  lemma DropFrontOfMany(ts: seq<TextToken>, fi: int, e: int)
    requires Placed(ts, fi, e) && |ts| > 2 && fi + 1 == |ts[0].buf.text|
    ensures Placed(ts[1..], 0, e)
    ensures WindowOf(ts, fi, e) == [ts[0].buf.text[fi]] + WindowOf(ts[1..], 0, e)
  {
    var text, rest := ts[0].buf.text, ts[1..];
    var mid, tail := rest[1..|rest| - 1], Last(ts).buf.text[..e + 1];
    assert text[fi..] == [text[fi]];
    assert ts[1..|ts| - 1] == [ts[1]] + mid;
    BufferTextsFront(ts[1], mid);
    assert NonEmptyTexts(rest);
    assert Last(rest) == Last(ts) && rest[0] == ts[1];
    assert rest[0].buf.text[0..] == ts[1].buf.text;
    assert WindowOf(rest, 0, e) == ts[1].buf.text + BufferTexts(mid) + tail;
  }
}
