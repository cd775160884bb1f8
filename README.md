# jediterm: CSI parsing and buffer-spanning substring search, in Dafny

This project models two parts of the jediterm terminal emulator and proves
properties of them.

**The CSI parser** (`ControlSequence`). After `ESC [`, the emulator reads
one control sequence from its data stream, one character at a time:

- an optional leading mark `!`, `?` or `>`;
- decimal arguments separated by `;`, kept in an `int` array of initial
  length 5 that doubles when full;
- other characters, set aside as "unhandled";
- a final character in 0x40-0x7E (ECMA-48, section 5.4), which ends the
  sequence.

When unhandled characters were seen, `pushBackReordered` pushes back onto the
stream the unhandled characters followed by an equivalent, clean sequence.
`getCount`, `getArg` and `toString` expose the parsed record.

The model has two layers:

- `csi_grammar.dfy` defines what the consumed text decodes to, independently
  of the loop. `Decode` gives the marks, the arguments (`ArgumentsOf`, over
  the `;`-separated digit runs), the final character and the unhandled
  characters. `Canonical` and `Reordered` give the re-emitted text.
- `control_sequence.dfy` is the imperative parser. It is a class over an
  argument array that grows by doubling, with the source's reading loop. It
  is proved against `Decode` through the loop state `Scan`.

The argument rule is the source's, quirks included:

- `;;5m` has the single argument 5, because a `;` with no digit before it is
  ignored.
- `5;m` has the two arguments 5 and 0, because a `;` after a digit opens a
  new zero argument.
- Decoding the canonical text gives the record back
  (`CsiGrammar.CanonicalRoundTrip`), and the parser itself, reading that
  text back from a stream, stops exactly at its end and rebuilds the same
  record (`Emulator.ReadBackCanonical`).

**The substring search** (`SubstringFinder`). A Rabin-Karp search runs over
terminal text that is split into character buffers. Characters are fed in
document order. The finder keeps:

- the window of the last |pattern| characters, as a list of tokens (one per
  buffer) plus the offset of the first character;
- the window's hash, as a rolling Java `String.hashCode` in 32-bit
  arithmetic;
- the weight of the oldest character.

When the hash equals the pattern's, the finder compares the `FindItem`'s
`toString` with the pattern. A confirmed match is recorded in the
`FindResult`: the item itself, plus a range per buffer in a map from buffer
to ranges. The window then restarts after the match, so matches never
overlap. `nextFindItem` cycles backwards through the items.

The model has four layers:

- `java_int.dfy` models Java `int` wrap-around.
- `string_hash.dfy` relates the polynomial hash to `String.hashCode` and
  defines case folding.
- `finder_window.dfy` states what the tokens denote. `WindowOf` is the
  window's text, and the window is exactly what a `FindItem` made of the
  tokens covers.
- `find_result.dfy` and `substring_finder.dfy` hold the classes.

`FindItem.toString` is modelled as written. It appends the middle tokens
themselves, so their `Object.toString` is printed instead of their buffers'
text. The consequence is proved: a match across three or more buffers with
short middle buffers is never recorded. This is reported under Findings
below.

Java's `Lists.newArrayList(tokens)` copy in the `FindItem` constructor is
modelled by value semantics. The item recorded by `NextChar` keeps the
tokens it was given, even though the finder's token list is reset right
after.

## Model

| member | source | states |
|---|---|---|
| CsiGrammar.FinalIndex | core/src/com/jediterm/terminal/emulator/ControlSequence.java:74-77 | the index where reading stops is that of a final character, with no final character before it |
| CsiGrammar.StopsAtFirstFinal | core/src/com/jediterm/terminal/emulator/ControlSequence.java:41-81 | a read that consumes up to a final character consumes exactly the input up to and including the first one, and leaves the rest |
| CsiGrammar.DecodeWellFormed | core/src/com/jediterm/terminal/emulator/ControlSequence.java:45-53 | only the first character can set a mark, so a decoded record has at most one mark and a final character |
| CsiGrammar.EmptySemicolonIsNoOp | core/src/com/jediterm/terminal/emulator/ControlSequence.java:54-65 | a `;` with no digit since the last one leaves the argument list unchanged |
| CsiGrammar.SplitDigit | core/src/com/jediterm/terminal/emulator/ControlSequence.java:66-70 | a digit extends the pending run and commits nothing |
| CsiGrammar.SplitSemicolon | core/src/com/jediterm/terminal/emulator/ControlSequence.java:54-65 | a `;` commits the pending run (when non-empty) and leaves an empty pending run |
| CsiGrammar.ArgumentsFromRuns | core/src/com/jediterm/terminal/emulator/ControlSequence.java:54-82 | the arguments are the committed runs plus the pending run's value, this last one present exactly when some run was seen |
| CsiGrammar.ArgumentCount | core/src/com/jediterm/terminal/emulator/ControlSequence.java:82 | the argument count is the number of committed runs plus one when any digit was seen (`myArgc += seenDigit`) |
| CsiGrammar.SeenDigitIffRuns | core/src/com/jediterm/terminal/emulator/ControlSequence.java:66-70 | a digit was seen if and only if a run was committed or is pending |
| CsiGrammar.ExampleRedundantSemicolons | core/src/com/jediterm/terminal/emulator/ControlSequence.java:54-65 | `;;5m` has the single argument 5 |
| CsiGrammar.ExampleTrailingSemicolon | core/src/com/jediterm/terminal/emulator/ControlSequence.java:54-82 | `5;m` has the two arguments 5 and 0 |
| CsiGrammar.ExampleTwoArguments | core/src/com/jediterm/terminal/emulator/ControlSequence.java:54-82 | `5;6m` has the arguments 5 and 6 |
| CsiGrammar.DecimalStringValue | core/src/com/jediterm/terminal/emulator/ControlSequence.java:138 | `Integer.toString` of a non-negative argument is a non-empty digit string whose decimal value is the argument |
| CsiGrammar.ArgumentsOfJoin | core/src/com/jediterm/terminal/emulator/ControlSequence.java:135-145 | the arguments written with `;` between them read back as the same arguments |
| CsiGrammar.CanonicalRoundTrip | core/src/com/jediterm/terminal/emulator/ControlSequence.java:117-145 | decoding the re-emitted marks, arguments and final character gives the record back, with nothing unhandled |
| CsiGrammar.CanonicalStops | core/src/com/jediterm/terminal/emulator/ControlSequence.java:41-77 | in the re-emitted text of a well-formed record only the last character is a final character, so reading it back stops exactly at its end whatever follows |
| CsiGrammar.DecodedRoundTrip | core/src/com/jediterm/terminal/emulator/ControlSequence.java:93-107 | for every text the parser can read, reading its re-emitted text back, followed by anything, stops exactly at the end of that text and decodes to the same marks, arguments and final character |
| Emulator.CapacityStep | core/src/com/jediterm/terminal/emulator/ControlSequence.java:57-61 | the array length always exceeds the committed count, and doubles exactly when a commit fills it |
| Emulator.ExampleCapacities | core/src/com/jediterm/terminal/emulator/ControlSequence.java:28-61 | the array starts with 5 slots, is still 5 after 4 commits, and has doubled to 10 after 5 commits and to 20 after 11 |
| Emulator.ScanOfAppend | core/src/com/jediterm/terminal/emulator/ControlSequence.java:41-81 | the loop state after one more character is one `Step` from the previous state |
| Emulator.ScanMeaning | core/src/com/jediterm/terminal/emulator/ControlSequence.java:41-81 | every loop state holds the marks, arguments and unhandled characters that `Decode` assigns to the text read so far |
| Emulator.MeansStep | core/src/com/jediterm/terminal/emulator/ControlSequence.java:45-80 | each branch of the loop keeps that correspondence |
| Emulator.ArgsStep | core/src/com/jediterm/terminal/emulator/ControlSequence.java:54-70 | the `;` and digit branches keep the argument slots equal to the committed and pending runs of the argument text |
| Emulator.DecodeScan | core/src/com/jediterm/terminal/emulator/ControlSequence.java:34-83 | the record built from the final loop state is `Decode` of the consumed text, and the array length is the capacity the commits reach |
| Emulator.ControlSequence.constructor | core/src/com/jediterm/terminal/emulator/ControlSequence.java:18-29 | the field initialisers and the constructor leave no marks, no unhandled list, an empty sequence string and a fresh array of length 5 |
| Emulator.NewControlSequence | core/src/com/jediterm/terminal/emulator/ControlSequence.java:27-32 | a sequence is produced exactly when the input holds a final character; it consumes exactly up to the first one and its record is `Decode` of what it consumed; otherwise the input is exhausted (the `IOException`) |
| Emulator.ReadBackCanonical | core/src/com/jediterm/terminal/emulator/ControlSequence.java:27-107 | the parser reading a stream that holds the re-emitted text of a record, followed by anything, consumes exactly that text, decodes it to the same marks, arguments and final character with nothing unhandled, and leaves what follows in the stream |
| Emulator.ControlSequence.ReadControlSequence | core/src/com/jediterm/terminal/emulator/ControlSequence.java:34-83 | the reading loop consumes up to the first final character and leaves the fields holding the decoding of the consumed text |
| Emulator.ControlSequence.StepChar | core/src/com/jediterm/terminal/emulator/ControlSequence.java:45-80 | one iteration of the loop moves the fields from a state to its `Step`, or stops at a final character |
| Emulator.ControlSequence.SemicolonBranch | core/src/com/jediterm/terminal/emulator/ControlSequence.java:54-65 | the `;` branch commits the pending argument only after a digit, doubling the array when it is full |
| Emulator.ControlSequence.DigitBranch | core/src/com/jediterm/terminal/emulator/ControlSequence.java:66-70 | the digit branch appends the digit to the pending argument |
| Emulator.ControlSequence.OtherBranch | core/src/com/jediterm/terminal/emulator/ControlSequence.java:71-80 | the remaining branches set the unhandled characters aside, or store the final character and stop |
| Emulator.ControlSequence.NextArgument | core/src/com/jediterm/terminal/emulator/ControlSequence.java:56-62 | committing moves to a fresh zero slot, copying the array into one twice as long when it was full and keeping the committed values |
| Emulator.ControlSequence.ArrayCopy | core/src/com/jediterm/terminal/emulator/ControlSequence.java:59 | `System.arraycopy` gives the destination the source's first `n` values and leaves the rest of it as it was |
| Emulator.ControlSequence.CountArguments | core/src/com/jediterm/terminal/emulator/ControlSequence.java:82 | after the loop the count includes the pending argument exactly when a digit was seen |
| Emulator.ControlSequence.AddUnhandled | core/src/com/jediterm/terminal/emulator/ControlSequence.java:85-90 | the character is appended to the unhandled list, which is created on first use |
| Emulator.ControlSequence.PushBackReordered | core/src/com/jediterm/terminal/emulator/ControlSequence.java:93-107 | with no unhandled characters nothing is pushed and `false` is returned; otherwise the stream next yields the unhandled characters, `ESC [`, the marks, the arguments and the final character |
| Emulator.ControlSequence.WriteReordered | core/src/com/jediterm/terminal/emulator/ControlSequence.java:95-103 | the buffer's first `length` characters are exactly the reordered text |
| Emulator.ReorderedAfterUnhandled | core/src/com/jediterm/terminal/emulator/ControlSequence.java:99-103 | the reordered text is the four pieces written in turn |
| Emulator.ControlSequence.CopyUnhandledCharacters | core/src/com/jediterm/terminal/emulator/ControlSequence.java:109-115 | the unhandled characters are written after the first `length` characters, in order |
| Emulator.ControlSequence.AppendSpecialCharacters | core/src/com/jediterm/terminal/emulator/ControlSequence.java:117-133 | `ESC [` and then the set mark are written after the first `length` characters |
| Emulator.ControlSequence.AppendArguments | core/src/com/jediterm/terminal/emulator/ControlSequence.java:135-145 | the arguments in decimal, with `;` between them, are written after the first `length` characters |
| Emulator.ControlSequence.AppendChars | core/src/com/jediterm/terminal/emulator/ControlSequence.java:139-141 | the inner loop writes the characters of the decimal string after the first `length` characters, in order |
| Emulator.ControlSequence.Put | core/src/com/jediterm/terminal/emulator/ControlSequence.java:103 | `bytes[length++] = c` writes `c` after the first `length` characters and advances the length by one |
| Emulator.ControlSequence.GetCount | core/src/com/jediterm/terminal/emulator/ControlSequence.java:147-149 | the count is the number of decoded arguments |
| Emulator.ControlSequence.GetArg | core/src/com/jediterm/terminal/emulator/ControlSequence.java:151-156 | argument `index` of the decoding, or the default value when there are no more than `index` arguments; a negative index fails (`None`, the `ArrayIndexOutOfBoundsException`), and only a negative index does |
| Emulator.ControlSequence.ToString | core/src/com/jediterm/terminal/emulator/ControlSequence.java:158-177 | the text is `ESC[` followed by the canonical text of the decoded record: marks, arguments with `;` between them, final character |
| Emulator.ControlSequence.AppendArgumentList | core/src/com/jediterm/terminal/emulator/ControlSequence.java:171-176 | the separator loop writes the arguments in decimal with `;` between them |
| StringHash.HashCodeIsWrappedHash | src-terminal/com/jediterm/terminal/SubstringFinder.java:34 | `String.hashCode`, wrapping at every step, is the polynomial hash with base 31 reduced to 32 bits |
| StringHash.DropFirst | src-terminal/com/jediterm/terminal/SubstringFinder.java:44 | subtracting weight times oldest character in `int` arithmetic leaves the wrapped hash of the rest of the window |
| StringHash.PowerNonZero | src-terminal/com/jediterm/terminal/SubstringFinder.java:53-57 | the weight 31^k never wraps to 0, so `myPower == 0` means exactly an empty window |
| StringHash.PowerStep | src-terminal/com/jediterm/terminal/SubstringFinder.java:56 | `myPower *= 31` in `int` arithmetic is the wrapped next power |
| StringHash.FoldedChars | src-terminal/com/jediterm/terminal/SubstringFinder.java:81-83 | folding a text keeps its length and folds it character by character, as `charHash` folds the character |
| StringHash.LowerIdempotent | src-terminal/com/jediterm/terminal/SubstringFinder.java:33 | lower-casing the pattern again changes nothing |
| FindResults.FindItem.ToString | src-terminal/com/jediterm/terminal/SubstringFinder.java:114-135 | the built text is the head of the first buffer, then each middle token's `Object.toString`, then the tail of the last buffer |
| FindResults.FindItem.Text | src-terminal/com/jediterm/terminal/SubstringFinder.java:114-135 | with one or two tokens the text `toString` builds is exactly what the item covers |
| FindResults.FindItem.CoveredText | src-terminal/com/jediterm/terminal/SubstringFinder.java:146-166 | the text an item covers is the characters of the ranges `patternMatched` records for it, one range after another, and those ranges lie within their buffers |
| FindResults.CoveredByRanges | src-terminal/com/jediterm/terminal/SubstringFinder.java:146-166 | the recorded ranges select the first buffer from `firstIndex`, the middle buffers whole and the last buffer up to `lastIndex` |
| FindResults.FindItem.GetStart | src-terminal/com/jediterm/terminal/SubstringFinder.java:137-139 | the start is on the first token's row, at the column where the first recorded range starts |
| FindResults.FindItem.GetEnd | src-terminal/com/jediterm/terminal/SubstringFinder.java:141-143 | the end is on the last token's row, at the column of the last character of the last recorded range; within one buffer start and end share the row and span as many columns as the item covers characters |
| FindResults.AppendMiddle | src-terminal/com/jediterm/terminal/SubstringFinder.java:125-127 | the loop appends the `Object.toString` of each middle token in order |
| FindResults.SingleTokenText | src-terminal/com/jediterm/terminal/SubstringFinder.java:120-123 | within one buffer the text is the characters from `firstIndex` to `lastIndex` |
| FindResults.ObjectStringLength | src-terminal/com/jediterm/terminal/SubstringFinder.java:126 | a token renders as at least 49 characters: class name, `@`, hexadecimal hash |
| FindResults.TextOverShortMiddles | src-terminal/com/jediterm/terminal/SubstringFinder.java:125-127 | with three or more tokens whose middle buffers are shorter than 49 characters, the text is longer than what the item covers |
| FindResults.ExampleThreeBuffers | src-terminal/com/jediterm/terminal/SubstringFinder.java:125-127 | an item over buffers "a", "b", "c" covers "abc" but does not render as "abc" |
| FindResults.FindResult.constructor | src-terminal/com/jediterm/terminal/SubstringFinder.java:95-97 | a result starts with no items, no ranges and the cursor at 0 |
| FindResults.FindResult.Put | src-terminal/com/jediterm/terminal/SubstringFinder.java:168-174 | the range is appended to the buffer's list, which is created on first use; no other list changes |
| FindResults.PutRangeEffect | src-terminal/com/jediterm/terminal/SubstringFinder.java:168-174 | after a `put`, a buffer has a list if and only if it had one or is the buffer put to; only that buffer's list grows, by the range |
| FindResults.PutAllFor | src-terminal/com/jediterm/terminal/SubstringFinder.java:168-174 | after a series of `put`s each buffer's list is its old list followed by the ranges put to it, in order, and exists if and only if it existed or some range was put to it |
| FindResults.FindResult.PatternMatched | src-terminal/com/jediterm/terminal/SubstringFinder.java:146-166 | one range per token is put (the first buffer from `firstIndex`, middle buffers whole, the last up to `lastIndex`) and the item is appended; every list still holds exactly the ranges the items record for it |
| FindResults.FindResult.PutMiddle | src-terminal/com/jediterm/terminal/SubstringFinder.java:155-157 | the loop puts each middle buffer's whole range, in order |
| FindResults.RangesRecorded | src-terminal/com/jediterm/terminal/SubstringFinder.java:96 | a buffer has a list if and only if some recorded match covers part of it, and its list holds, in order, the ranges every recorded match covers in it |
| FindResults.FindResult.GetRanges | src-terminal/com/jediterm/terminal/SubstringFinder.java:99-101 | `getRanges` gives, in order, the ranges every recorded match covers in that buffer, and null for a buffer no match touches |
| FindResults.FindResult.NextFindItem | src-terminal/com/jediterm/terminal/SubstringFinder.java:180-192 | the cursor steps back, from 0 to the newest item; the item under it is returned, or null when there is none; items and ranges are unchanged |
| FindResults.CursorFirstRound | src-terminal/com/jediterm/terminal/SubstringFinder.java:180-186 | from the start, successive calls visit n-1, n-2, ..., 0 |
| FindResults.CursorPeriodic | src-terminal/com/jediterm/terminal/SubstringFinder.java:180-186 | after n calls the cursor is back where it was, so the order repeats n-1, ..., 0, n-1, ... |
| FindResults.CursorInBounds | src-terminal/com/jediterm/terminal/SubstringFinder.java:187-188 | with items present the cursor always indexes an item, so `<= items.size()` never lets an out-of-range index through |
| FindResults.CursorStaysNegative | src-terminal/com/jediterm/terminal/SubstringFinder.java:181-185 | once a call finds no items the cursor stays negative, and every later call returns null |
| FinderWindow.WindowIsCovered | src-terminal/com/jediterm/terminal/SubstringFinder.java:103-112 | the window's text is exactly what a `FindItem` built from the tokens, first index and current index covers |
| FinderWindow.ExtendWindow | src-terminal/com/jediterm/terminal/SubstringFinder.java:39-41 | adding a token only for a new buffer extends the window by the new character |
| FinderWindow.DropOldest | src-terminal/com/jediterm/terminal/SubstringFinder.java:43-50 | the character at `myFirstIndex` of the first token is the window's oldest; advancing the index, or dropping the token at its end, removes exactly that character |
| FinderWindow.SlideKeepsLast | src-terminal/com/jediterm/terminal/SubstringFinder.java:43-58 | the window holds the last |pattern| characters fed, or all of them while fewer were fed |
| FinderWindow.RestartPlaced | src-terminal/com/jediterm/terminal/SubstringFinder.java:70-76 | after a match the tokens and first index describe an empty window, whether or not the buffer has characters left |
| Finder.SubstringFinder.constructor | src-terminal/com/jediterm/terminal/SubstringFinder.java:31-35 | the pattern is stored folded, with its `hashCode`; folding it again changes nothing, so it compares with folded text like with like; the window is empty and the result has no items |
| Finder.SubstringFinder.CharHash | src-terminal/com/jediterm/terminal/SubstringFinder.java:81-83 | the character's code as it is folded for the search |
| Finder.SubstringFinder.HashCodeForChar | src-terminal/com/jediterm/terminal/SubstringFinder.java:86-88 | the oldest character's weight in the window hash, in `int` arithmetic |
| Finder.SubstringFinder.NextChar | src-terminal/com/jediterm/terminal/SubstringFinder.java:38-79 | the window slides over the new character and the tokens cover it exactly; a match is recorded if and only if the window is full, its hash equals the pattern's and the item's text equals the pattern; after a match the window restarts empty after the matched character; otherwise nothing is recorded |
| Finder.SubstringFinder.TakeIn | src-terminal/com/jediterm/terminal/SubstringFinder.java:39-60 | the tokens, window, length, power and hash all follow the new character |
| Finder.SubstringFinder.AddToken | src-terminal/com/jediterm/terminal/SubstringFinder.java:39-41 | a token is added only for a buffer other than the last token's |
| Finder.SubstringFinder.SlideOut | src-terminal/com/jediterm/terminal/SubstringFinder.java:43-50 | a full window drops its oldest character from the tokens and from the hash |
| Finder.SubstringFinder.PopHash | src-terminal/com/jediterm/terminal/SubstringFinder.java:44 | `myCurrentHash -= hashCodeForChar(oldest)` leaves the wrapped hash of the window without its oldest character |
| Finder.SubstringFinder.Grow | src-terminal/com/jediterm/terminal/SubstringFinder.java:51-58 | a window that is not full grows by one, and the power becomes the weight of its oldest character |
| Finder.PowerGrows | src-terminal/com/jediterm/terminal/SubstringFinder.java:53-57 | `myPower = 1` for an empty window and `myPower *= 31` otherwise give the weight for a window one character longer |
| Finder.SubstringFinder.PushHash | src-terminal/com/jediterm/terminal/SubstringFinder.java:60 | `31 * h + charHash(c)` in `int` arithmetic is the wrapped hash of the window with `c` added |
| Finder.HashIn | src-terminal/com/jediterm/terminal/SubstringFinder.java:60 | the rolling step agrees with the hash of the folded window with the character added |
| Finder.HashOut | src-terminal/com/jediterm/terminal/SubstringFinder.java:44 | the removing step agrees with the hash of the folded window without its first character |
| Finder.SubstringFinder.CheckMatch | src-terminal/com/jediterm/terminal/SubstringFinder.java:62-78 | a full window whose hash matches is confirmed by comparing the item's text with the pattern; a confirmed match is recorded and restarts the window; anything else leaves the state alone |
| Finder.SubstringFinder.RecordMatch | src-terminal/com/jediterm/terminal/SubstringFinder.java:66-76 | a confirmed match is appended to the result, and the window restarts empty after the matched character |
| Finder.SubstringFinder.Restart | src-terminal/com/jediterm/terminal/SubstringFinder.java:67-76 | after a match, the hash, length and power are 0; the tokens hold the buffer again only when it has characters left after the match |
| Finder.EmptyWindowHash | src-terminal/com/jediterm/terminal/SubstringFinder.java:67-69 | the empty window hashes to 0 and has power 0 |
| Finder.HitWithinTwoBuffers | src-terminal/com/jediterm/terminal/SubstringFinder.java:62-65 | within one or two buffers a match is recorded if and only if the full window, folded, is the pattern |
| Finder.NoHitOverShortMiddles | src-terminal/com/jediterm/terminal/SubstringFinder.java:62-65 | across three or more buffers whose middle ones are shorter than 49 characters no match is ever recorded, even when the window is the pattern |
| Finder.IntendedHitExact | src-terminal/com/jediterm/terminal/SubstringFinder.java:62-65 | comparing the covered text instead, a match would be recorded if and only if the full window, folded, is the pattern, over any number of buffers |
| Finder.ExampleNonOverlapping | src-terminal/com/jediterm/terminal/SubstringFinder.java:62-76 | searching "aa" in one buffer "aaa" records the single match 0..1 |

## Left out

- `TerminalDataStream` is modelled as a class over the sequence of pending characters (`Emulator.DataStream`). Reading past the end, where the stream throws `IOException`, yields `None`. `pushBackBuffer` puts characters back in front. The stream's own implementation is not part of this model.
- Emulator.ControlSequence.ReadControlSequence: arguments are unbounded naturals. The 32-bit overflow of `myArgv[myArgc] * 10 + b - '0'` for arguments above 2147483647 is not modelled.
- Emulator.ControlSequence.PushBackReordered: requires the reordered text to fit the 1024-character buffer. For a longer text the source throws `ArrayIndexOutOfBoundsException`, and that path is not modelled.
- Emulator.ControlSequence.ToString: states the text only up to the final character. The " Unhandled:" suffix, written by `CharUtils.appendChar`, is left out because that helper is not part of this model.
- `getFinalChar` and the three `startsWith...` getters only return fields, which the model exposes directly. `getDebugInfo` prints the `toString` text and then the raw sequence (`", raw: ESC["` followed by `mySequenceString`); it is left out, but `sequenceString`, the raw text it prints, is kept and is proved to be the consumed text.
- The `(byte)` casts in `appendSpecialCharacters` are not modelled separately, because every character they apply to is ASCII.
- Finder.SubstringFinder.constructor: requires a non-empty pattern. With an empty pattern, `myPower` stays 0, so line 44 subtracts nothing and the rolling hash `31 * h + c` of line 60 keeps covering all the text fed since the last match. When line 47 has emptied the token list at the end of a buffer and that hash wraps to 0, line 64 builds a `FindItem` with no tokens and its `toString` fails at line 122; when the hash reaches 0 while a token remains, an empty range is recorded. That behaviour is not modelled.
- Finder.SubstringFinder.NextChar: requires the characters to be fed in document order. Each call passes the next index of the last token's buffer, or index 0 of a new buffer once the last one is used up. The source relies on its caller for this.
- Finder.SubstringFinder.NextChar: the JVM identity hash of a new token, which `Object.toString` prints, is an input (`identityHash`). Both tokens a call may create get the same value. The second one is always the first token, so it is never printed.
- StringHash.ToLower: `Character.toLowerCase` and `String.toLowerCase` are modelled for ASCII letters only. Unicode and locale case mappings are left out.
- Finder.SubstringFinder.NextChar, Finder.SubstringFinder.CharHash, StringHash.Hash, StringHash.HashCodeIsWrappedHash and Emulator.ControlSequence.AddUnhandled: characters are Unicode scalar values, not Java's 16-bit UTF-16 code units. Surrogate code units (0xD800-0xDFFF) are not modelled, so a character outside the Basic Multilingual Plane, which Java stores and hashes as two units and counts as two columns in the window length, `firstIndex`, `lastIndex` and the ranges, has no counterpart in the model.
- FindResults.FindItem.GetStart: `Point` coordinates are unbounded integers, so `x + firstIndex` (line 138) does not wrap.
- FindResults.FindItem.GetEnd: likewise `x + lastIndex` (line 142) is unbounded and does not wrap.
- `CharBuffer` identity, which both the token check and the range map use, is modelled as value equality of a buffer record that carries an `id`. Two distinct buffers are assumed to differ in `id`.
- FindResults.FindResult.GetRanges: returns the list as a value. In the source the caller receives the live list, which later matches keep extending. The aliasing is not modelled.
- `getResult` and `getItems` return fields and are not modelled separately.

## Findings

| source | as written | input that shows it | evidently intended | confidence | as-written member | corrected member |
|---|---|---|---|---|---|---|
| src-terminal/com/jediterm/terminal/SubstringFinder.java:125-127 | `b.append(tokens.get(i))` appends the middle `TextToken` itself, so `toString` prints `...SubstringFinder$TextToken@<hash>` instead of that buffer's text | pattern "abc" over the buffers "a", "b", "c": the hash matches, but the text compared is "a" + the token's `Object.toString` + "c", so the match is missed | append `tokens.get(i).buf`, so that the compared text is the window's text | high (not executed) | Finder.NoHitOverShortMiddles | Finder.IntendedHitExact |

The search in this model keeps the source's comparison, so
`Finder.SubstringFinder.NextChar` behaves as the code is written. The
intended comparison is `Finder.IntendedHit`, over
`FindResults.FindItem.CoveredText`, the text that the window, the ranges and
`FinderWindow.WindowIsCovered` already use.
