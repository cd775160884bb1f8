/**
 * The Rabin-Karp substring search over text split into buffers. Characters
 * are fed one at a time in document order; the finder keeps the window of
 * the last |pattern| characters as tokens (buffers) plus the offset of its
 * first character, and a rolling 32-bit hash of the window's text. A hash
 * equal to the pattern's is confirmed by comparing the item's text with the
 * pattern; a confirmed match is recorded and the window starts afresh after it.
 */
module Finder {
  import opened Sequences
  import opened JavaInt
  import opened StringHash
  import opened FindResults
  import opened FinderWindow

  /** The weight of the oldest character of a window of `n` characters, 0 for an empty window. */
  function PowerOf(n: int): int
  {
    if n <= 0 then 0 else Int32(Pow31(n - 1))
  }

  /**
   * When the finder records a match for the window text `w` and the
   * candidate `item`: the window is full, its hash is the pattern's, and the
   * item's text, folded, is the pattern.
   */
  ghost predicate Hit(ignoreCase: bool, pattern: seq<char>, patternHash: int, w: seq<char>, item: FindItem)
    requires item.Renderable()
  {
    && |w| == |pattern|
    && Int32(Hash(Folded(ignoreCase, w))) == patternHash
    && Folded(ignoreCase, item.Text()) == pattern
  }

  class SubstringFinder {
    const pattern: seq<char>
    const patternHash: int
    var currentHash: int
    var currentLength: int
    var tokens: seq<TextToken>
    var firstIndex: int
    var power: int
    const result: FindResult
    const ignoreCase: bool
    /** The offset of the newest character in the last token's buffer. */
    ghost var end: int

    ghost function Window(): seq<char>
      reads this
      requires Placed(tokens, firstIndex, end)
    {
      WindowOf(tokens, firstIndex, end)
    }

    /** The finder's result list is consistent and `Tracking` holds. */
    ghost predicate Valid()
      reads this, result
    {
      result.Valid() && Tracking()
    }

    /**
     * The tokens place the window; its length is at most the pattern's; the
     * hash is the wrapped hash of its folded text and the power the weight
     * of its oldest character.
     */
    ghost predicate Tracking()
      reads this
    {
      && |pattern| > 0 && patternHash == Int32(Hash(pattern))
      && Placed(tokens, firstIndex, end)
      && currentLength == |Window()| <= |pattern|
      && currentHash == Int32(Hash(Folded(ignoreCase, Window())))
      && power == PowerOf(currentLength)
    }

    constructor (pattern: seq<char>, ignoreCase: bool)
      requires |pattern| > 0
      ensures Valid() && fresh(result) && result.items == []
      ensures this.ignoreCase == ignoreCase && this.pattern == Folded(ignoreCase, pattern)
      // the stored pattern is already folded, so it compares with folded text like with like
      ensures Folded(ignoreCase, this.pattern) == this.pattern
      ensures tokens == [] && Window() == []
    {
      this.ignoreCase := ignoreCase;
      this.pattern := if ignoreCase then Lower(pattern) else pattern;
      patternHash := HashCode(if ignoreCase then Lower(pattern) else pattern);
      currentHash := 0;
      currentLength := 0;
      tokens := [];
      firstIndex := 0;
      power := 0;
      result := new FindResult();
      end := -1;
      new;
      FoldedChars(ignoreCase, pattern);
      HashCodeIsWrappedHash(this.pattern);
      LowerIdempotent(pattern);
    }

    /** `charHash`: the code of the character as it is folded for the search. */
    function CharHash(c: char): (h: int)
      ensures h == Folded(ignoreCase, [c])[0] as int
    {
      FoldedChars(ignoreCase, [c]);
      if ignoreCase then ToLower(c) as int else c as int
    }

    /** `hashCodeForChar`: the character's weight as the oldest of the window, in `int` arithmetic. */
    function HashCodeForChar(c: char): (h: int)
      reads this
      ensures power == PowerOf(currentLength) && currentLength > 0 ==>
        h == Int32(Int32(Pow31(currentLength - 1)) * CharHash(c))
    {
      Int32(power * CharHash(c))
    }

    /**
     * `nextChar`: feed the character `index` of `characters`, which comes
     * next in document order. The window takes it in (sliding once full);
     * the tokens cover the new window exactly. A match is recorded exactly
     * when the finder's test holds (`Hit`), and then the window restarts
     * empty after the matched character.
     */
    method NextChar(x: int, y: int, characters: CharBuffer, index: int, identityHash: int)
      requires Valid() && Follows(tokens, end, characters, index)
      modifies this, result
      ensures Valid() && end == index
      ensures var tok := TextToken(x, y, characters, identityHash);
        var w := Slide(old(Window()), characters.text[index], |pattern|);
        var next := Advanced(old(tokens), old(firstIndex), old(currentLength) == |pattern|, tok);
        var item := FindItem(next.0, next.1, index);
        && item.Renderable() && item.CoveredText() == w
        && if Hit(ignoreCase, pattern, patternHash, w, item) then
             && result.items == old(result.items) + [item]
             && tokens == (if index + 1 < |characters.text| then [tok] else [])
             && firstIndex == (if index + 1 < |characters.text| then index + 1 else 0)
             && Window() == []
           else
             && result.items == old(result.items)
             && tokens == next.0 && firstIndex == next.1
             && Window() == w
      ensures result.currentFindItem == old(result.currentFindItem)
    {
      var tok := TextToken(x, y, characters, identityHash);
      TakeIn(tok, index);
      CheckMatch(tok, index);
    }

    /**
     * The character enters the window: the token list, the window, its
     * length, the power and the hash all follow.
     */
    method TakeIn(tok: TextToken, index: int)
      requires Tracking() && Follows(tokens, end, tok.buf, index)
      modifies this
      ensures Tracking() && end == index
      ensures Window() == Slide(old(Window()), tok.buf.text[index], |pattern|)
      ensures (tokens, firstIndex) == Advanced(old(tokens), old(firstIndex), old(currentLength) == |pattern|, tok)
      ensures tokens != [] && Last(tokens).buf == tok.buf
    {
      ghost var w0 := Window();
      var c := tok.buf.text[index];
      AddToken(tok, index);
      if currentLength == |pattern| {
        SlideOut(w0, c);
        PushHash(w0[1..], c);
      } else {
        Grow();
        PushHash(w0, c);
      }
    }

    /** The hash takes in the newest character: `31 * h + c` in `int` arithmetic. */
    method PushHash(ghost v: seq<char>, c: char)
      requires currentHash == Int32(Hash(Folded(ignoreCase, v)))
      modifies this
      ensures currentHash == Int32(Hash(Folded(ignoreCase, v + [c])))
      ensures tokens == old(tokens) && firstIndex == old(firstIndex) && end == old(end)
      ensures currentLength == old(currentLength) && power == old(power)
    {
      HashIn(ignoreCase, v, c);
      var h := CharHash(c);
      assert h == Fold(ignoreCase, c) as int;
      currentHash := Int32(Int32(31 * currentHash) + h);
    }

    /** The first lines of `nextChar`: a token for the buffer unless it is the last token's. */
    method AddToken(tok: TextToken, index: int)
      requires Placed(tokens, firstIndex, end) && Follows(tokens, end, tok.buf, index)
      modifies this
      ensures tokens == Added(old(tokens), tok) && end == index
      ensures Placed(tokens, firstIndex, end) && Window() == old(Window()) + [tok.buf.text[index]]
      ensures Last(tokens).buf == tok.buf
      ensures firstIndex == old(firstIndex) && currentHash == old(currentHash)
      ensures currentLength == old(currentLength) && power == old(power)
    {
      ExtendWindow(tokens, firstIndex, end, tok, index);
      if tokens == [] || Last(tokens).buf != tok.buf {
        tokens := tokens + [tok];
      }
      end := index;
    }

    /**
     * A full window lets its oldest character go: its weight leaves the
     * hash, and the front token goes once its last character has left.
     */
    method SlideOut(ghost w0: seq<char>, ghost c: char)
      requires Placed(tokens, firstIndex, end) && Window() == w0 + [c] && |w0| > 0
      requires currentLength == |w0| && power == PowerOf(|w0|)
      requires currentHash == Int32(Hash(Folded(ignoreCase, w0)))
      modifies this
      ensures (tokens, firstIndex) == Dropped(old(tokens), old(firstIndex))
      ensures Placed(tokens, firstIndex, end) && Window() == w0[1..] + [c]
      ensures currentHash == Int32(Hash(Folded(ignoreCase, w0[1..])))
      ensures currentLength == old(currentLength) && power == old(power) && end == old(end)
      ensures tokens != [] && Last(tokens) == Last(old(tokens))
    {
      DropOldest(tokens, firstIndex, end);
      assert (w0 + [c])[1..] == w0[1..] + [c];
      PopHash(w0, tokens[0].buf.text[firstIndex]);
      if firstIndex + 1 == |tokens[0].buf.text| {
        firstIndex := 0;
        tokens := tokens[1..];
      } else {
        firstIndex := firstIndex + 1;
      }
    }

    /** The hash lets the oldest character go: `h -= power * c` in `int` arithmetic. */
    method PopHash(ghost w0: seq<char>, oldest: char)
      requires |w0| > 0 && oldest == w0[0] && power == PowerOf(|w0|)
      requires currentHash == Int32(Hash(Folded(ignoreCase, w0)))
      modifies this
      ensures currentHash == Int32(Hash(Folded(ignoreCase, w0[1..])))
      ensures tokens == old(tokens) && firstIndex == old(firstIndex) && end == old(end)
      ensures currentLength == old(currentLength) && power == old(power)
    {
      HashOut(ignoreCase, w0);
      var weight := HashCodeForChar(oldest);
      assert CharHash(oldest) == Fold(ignoreCase, w0[0]) as int;
      assert weight == Int32(Int32(Pow31(|w0| - 1)) * (Fold(ignoreCase, w0[0]) as int));
      currentHash := Int32(currentHash - weight);
    }

    /** A window not yet full grows by one, and the weight of its oldest character by 31. */
    method Grow()
      requires power == PowerOf(currentLength) && currentLength >= 0
      modifies this
      ensures currentLength == old(currentLength) + 1 && power == PowerOf(currentLength)
      ensures tokens == old(tokens) && firstIndex == old(firstIndex) && end == old(end)
      ensures currentHash == old(currentHash)
    {
      PowerGrows(currentLength);
      currentLength := currentLength + 1;
      if power == 0 {
        power := 1;
      } else {
        power := Int32(power * 31);
      }
    }

    /**
     * The last lines of `nextChar`: a full window whose hash is the
     * pattern's is compared with the pattern; on a match it is recorded and
     * the window restarts after the matched character.
     */
    method CheckMatch(tok: TextToken, index: int)
      requires Valid() && end == index && tokens != [] && Last(tokens).buf == tok.buf
      requires 0 <= index < |tok.buf.text|
      modifies this, result
      ensures Valid() && end == index
      ensures var item := FindItem(old(tokens), old(firstIndex), index);
        && item.Renderable() && item.CoveredText() == old(Window())
        && if Hit(ignoreCase, pattern, patternHash, old(Window()), item) then
             && result.items == old(result.items) + [item]
             && tokens == (if index + 1 < |tok.buf.text| then [tok] else [])
             && firstIndex == (if index + 1 < |tok.buf.text| then index + 1 else 0)
             && Window() == []
           else
             && result.items == old(result.items)
             && tokens == old(tokens) && firstIndex == old(firstIndex)
             && Window() == old(Window())
      ensures result.currentFindItem == old(result.currentFindItem)
    {
      WindowIsCovered(tokens, firstIndex, end);
      ghost var w := Window();
      var item := FindItem(tokens, firstIndex, index);
      if currentLength == |pattern| && currentHash == patternHash {
        var text := item.ToString();
        if pattern == Folded(ignoreCase, text) {
          assert Hit(ignoreCase, pattern, patternHash, w, item);
          RecordMatch(tok, index);
        } else {
          assert !Hit(ignoreCase, pattern, patternHash, w, item);
        }
      } else {
        assert !Hit(ignoreCase, pattern, patternHash, w, item);
      }
    }

    /** A confirmed match is recorded, and the window restarts after it. */
    method RecordMatch(tok: TextToken, index: int)
      requires Valid() && end == index && tokens != [] && 0 <= index < |tok.buf.text|
      modifies this, result
      ensures Valid() && end == index
      ensures result.items == old(result.items) + [FindItem(old(tokens), old(firstIndex), index)]
      ensures result.currentFindItem == old(result.currentFindItem)
      ensures tokens == (if index + 1 < |tok.buf.text| then [tok] else [])
      ensures firstIndex == (if index + 1 < |tok.buf.text| then index + 1 else 0)
      ensures Window() == []
    {
      result.PatternMatched(tokens, firstIndex, index);
      Restart(tok, index);
    }

    /** After a match the window starts empty, after the matched character. */
    method Restart(tok: TextToken, index: int)
      requires Tracking() && 0 <= index < |tok.buf.text| && end == index
      modifies this
      ensures Tracking() && end == index
      ensures tokens == (if index + 1 < |tok.buf.text| then [tok] else [])
      ensures firstIndex == (if index + 1 < |tok.buf.text| then index + 1 else 0)
      ensures Window() == []
    {
      EmptyWindowHash(ignoreCase);
      RestartPlaced(tok, index);
      currentHash := 0;
      currentLength := 0;
      power := 0;
      if index + 1 < |tok.buf.text| {
        firstIndex := index + 1;
        tokens := [tok];
      } else {
        firstIndex := 0;
        tokens := [];
      }
    }
  }

  /** The empty window hashes to 0 and has no power. */
  lemma EmptyWindowHash(ignoreCase: bool)
    ensures Int32(Hash(Folded(ignoreCase, []))) == 0 && PowerOf(0) == 0
  {
    assert Folded(ignoreCase, []) == [];
    assert Int32(0) == 0;
  }

  /** `power *= 31`, or 1 for the first character, gives the weight in a window one longer. */
  lemma PowerGrows(n: nat)
    ensures PowerOf(n + 1) == if PowerOf(n) == 0 then 1 else Int32(PowerOf(n) * 31)
  {
    if n > 0 {
      PowerNonZero(n - 1);
      PowerStep(n - 1);
    }
  }

  /** Taking a character in: `31 * h + c` in `int` arithmetic on the folded text. */
  lemma HashIn(ignoreCase: bool, v: seq<char>, c: char)
    ensures Int32(Int32(31 * Int32(Hash(Folded(ignoreCase, v)))) + (Fold(ignoreCase, c) as int))
         == Int32(Hash(Folded(ignoreCase, v + [c])))
  {
    var f := Folded(ignoreCase, v);
    PushChar(Hash(f), Fold(ignoreCase, c));
    FoldedAppend(ignoreCase, v, c);
    assert (f + [Fold(ignoreCase, c)])[..|f|] == f;
  }

  /** Letting the oldest character go: `h -= power * c` in `int` arithmetic on the folded text. */
  lemma HashOut(ignoreCase: bool, w: seq<char>)
    requires |w| > 0
    ensures Int32(Int32(Hash(Folded(ignoreCase, w))) - Int32(Int32(Pow31(|w| - 1)) * (Fold(ignoreCase, w[0]) as int)))
         == Int32(Hash(Folded(ignoreCase, w[1..])))
  {
    FoldedDropFirst(ignoreCase, w);
    DropFirst(Folded(ignoreCase, w));
  }

  /**
   * Within one or two buffers the test is exact: a match is recorded exactly
   * when the full window's folded text is the pattern.
   */
  lemma HitWithinTwoBuffers(ignoreCase: bool, pattern: seq<char>, patternHash: int, w: seq<char>, item: FindItem)
    requires patternHash == Int32(Hash(pattern))
    requires item.Renderable() && |item.tokens| <= 2 && item.CoveredText() == w
    ensures Hit(ignoreCase, pattern, patternHash, w, item) <==> Folded(ignoreCase, w) == pattern
  {
    FoldedChars(ignoreCase, w);
  }

  /**
   * Over three or more buffers whose middle ones are shorter than a token's
   * `Object.toString`, no match is recorded, even when the window's text is
   * the pattern.
   */
  lemma NoHitOverShortMiddles(ignoreCase: bool, pattern: seq<char>, patternHash: int, w: seq<char>, item: FindItem)
    requires item.Renderable() && |item.tokens| >= 3 && item.CoveredText() == w
    requires forall t :: t in item.Middle() ==> |t.buf.text| < 49
    ensures !Hit(ignoreCase, pattern, patternHash, w, item)
  {
    TextOverShortMiddles(item);
    FoldedChars(ignoreCase, item.Text());
  }

  /**
   * The test with the middle buffers' text in place of their tokens'
   * `Object.toString`: the comparison `toString` was evidently meant to make.
   */
  ghost predicate IntendedHit(ignoreCase: bool, pattern: seq<char>, patternHash: int, w: seq<char>, item: FindItem)
    requires item.Renderable()
  {
    && |w| == |pattern|
    && Int32(Hash(Folded(ignoreCase, w))) == patternHash
    && Folded(ignoreCase, item.CoveredText()) == pattern
  }

  /** With the intended text the test is exact over any number of buffers. */
  lemma IntendedHitExact(ignoreCase: bool, pattern: seq<char>, patternHash: int, w: seq<char>, item: FindItem)
    requires patternHash == Int32(Hash(pattern))
    requires item.Renderable() && item.CoveredText() == w
    ensures IntendedHit(ignoreCase, pattern, patternHash, w, item) <==> Folded(ignoreCase, w) == pattern
  {
    FoldedChars(ignoreCase, w);
  }

  /**
   * Matches do not overlap: searching "aa" in one buffer "aaa" records the
   * single match at 0..1; the third character starts a new window.
   */
  method ExampleNonOverlapping() returns (items: seq<FindItem>)
    ensures items == [FindItem([TextToken(0, 0, CharBuffer(1, "aaa"), 5)], 0, 1)]
  {
    var tok := TextToken(0, 0, CharBuffer(1, "aaa"), 5);
    var finder := new SubstringFinder("aa", false);
    FeedFirst(finder, tok);
    FeedSecond(finder, tok);
    FeedThird(finder, tok);
    items := finder.result.items;
  }

  /** The first 'a' only fills half the window. */
  method FeedFirst(finder: SubstringFinder, tok: TextToken)
    requires finder.Valid() && finder.pattern == "aa" && !finder.ignoreCase && tok.buf.text == "aaa"
    requires finder.tokens == [] && finder.result.items == []
    modifies finder, finder.result
    ensures finder.Valid() && finder.end == 0 && finder.tokens == [tok] && finder.firstIndex == 0
    ensures finder.Window() == "a" && finder.result.items == []
  {
    assert [] + [tok] == [tok] && [] + ['a'] == "a";
    finder.NextChar(tok.x, tok.y, tok.buf, 0, tok.identityHash);
  }

  /** The second 'a' completes the match 0..1, and the window restarts at 2. */
  method FeedSecond(finder: SubstringFinder, tok: TextToken)
    requires finder.Valid() && finder.pattern == "aa" && !finder.ignoreCase && tok.buf.text == "aaa"
    requires finder.end == 0 && finder.tokens == [tok] && finder.firstIndex == 0
    requires finder.Window() == "a" && finder.result.items == []
    modifies finder, finder.result
    ensures finder.Valid() && finder.end == 1 && finder.tokens == [tok] && finder.firstIndex == 2
    ensures finder.Window() == [] && finder.result.items == [FindItem([tok], 0, 1)]
  {
    var item := FindItem([tok], 0, 1);
    SingleTokenText(tok, 0, 1);
    assert "a" + "a" == "aa" && tok.buf.text[0..2] == "aa";
    assert Hit(false, finder.pattern, finder.patternHash, "aa", item);
    finder.NextChar(tok.x, tok.y, tok.buf, 1, tok.identityHash);
  }

  /** The third 'a' starts a new window, which cannot overlap the match. */
  method FeedThird(finder: SubstringFinder, tok: TextToken)
    requires finder.Valid() && finder.pattern == "aa" && !finder.ignoreCase && tok.buf.text == "aaa"
    requires finder.end == 1 && finder.tokens == [tok] && finder.firstIndex == 2
    requires finder.Window() == []
    modifies finder, finder.result
    ensures finder.Valid() && finder.result.items == old(finder.result.items)
  {
    assert [] + ['a'] == "a";
    finder.NextChar(tok.x, tok.y, tok.buf, 2, tok.identityHash);
  }
}
