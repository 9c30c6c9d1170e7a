# Recursive Regexp Raptor in Dafny

This project models regexp4 ("Recursive Regexp Raptor") in Dafny. It is a
small backtracking pattern engine over byte strings. Its syntax differs from
POSIX:

- `:x` escapes and classes;
- `(...)` groups and `<...>` captures;
- `[...]` sets, with `[^...]` toggling negation;
- `@n` back-references;
- `?`, `+`, `*`, `{m}`, `{m,}` and `{m,n}` quantifiers;
- `#` modifier runs, which select:
  - `^` anchor at the start, `$` anchor at the end;
  - `?` single match, `~` step one code point after a match;
  - `*` case-insensitive, `/` case-sensitive again, `!` negation.

A pattern is written as in the source, e.g. `#^$<a|b>{2}`.

The model follows the structure of the two source files:

- `char_utils.dfy` (module `CharUtils`) models the byte helpers of `charUtils.go`:
  - the ASCII class predicates, with the source's swapped names: `IsUpper` is a–z and `IsLower` is A–Z;
  - lower-casing and the case-insensitive comparisons;
  - digit-prefix parsing;
  - `utf8meter`, the length of the first code point. It is modelled as a range function equivalent to Go's first-byte table and second-byte accept ranges, and proved equal to the well-formed sequences of section 4 of RFC 3629.
- `asm.dfy` (module `Asm`) holds:
  - the fragment, instruction and capture-slot records of `regexp4.go`, and the modifier constants;
  - the grammar of a compiled arena. A path block is Path at `lo`, then PathEle alternatives, each linked to the next, then PathEnd. Groups and captures enclose a path block. A set encloses its members. Leaves link to themselves. One End closes the arena.
  - the local well-formedness that the interpreter relies on at each index.
- `tokenizer.dfy` (module `Tokenizer`) models `tracker`, `trackerSet`, `cutSimple`, `cutByLen`, `cutByType`, `walkSet`, `walkMeta`, `getLoops` and `getMods`.
  - Each Go routine that shortens a fragment through pointers is a value-level step here. It returns the remainder and the cut fragment, or `Malformed` where the source would panic or recurse forever.
  - The loops (`ScanCut`, `WalkMeta`, `WalkSet`, `CutSimple`, `ScanMods`, `TrackerSet`) are methods. Each is proved equal to a recursive specification function.
- `matchers.dfy` (module `Matchers`) models the single-atom matchers `matchText`, `matchRange`, `matchMeta`, the member scan of `matchSet`, and `matchBackRef`. Each is a function that returns whether the atom matched and the `forward` byte count.
- `captures.dfy` (module `Captures`) gives the capture readers and the reference semantics of replacement (`OldRplCatch`) and of template expansion (`PutCatch`).
- `regexp4.dfy` (module `Regexp4`, class `RE`) is the engine object, with the fields of Go's `RE`:
  - the compiler. It appends to the `asm` sequence and back-patches the `close` links. It is proved to produce an arena of the grammar above. It succeeds exactly when the pattern satisfies `PathOk`: the recursive predicates `PathOk`, `TracksOk`, `SetOk` and `MembersOk` follow the tokenizer's cuts and hold when no cut along the way is malformed.
  - `UnlessAt` and `WhileAt` give the cursor after k repetitions of an atom, or -1 when k repetitions are not possible. A negated repetition steps one code point where the atom fails; a plain one steps the atom's forward where it matches.
  - the interpreter (`trekking`, `walker`, `looper`, `loopGroup`, `match`, capture opening and closing). It moves the cursor `txtPos` and the slot counters. It is proved to keep the arena-indexed invariant `Running` and to move forward only.
  - `MatchString`, with its anchor and stride logic.
  - the capture API. `RplCatch` writes into an `array<bv8>` buffer, as the source does.

## Model

| member | source | states |
|---|---|---|
| CharUtils.ClassFacts | charUtils.go:3-9 | letters are A–Z and a–z; alphanumerics add 0–9; space is ' ' and 9..13; blank implies space; a digit is neither a letter nor a space |
| CharUtils.ToLower | charUtils.go:11-15 | A–Z map to a–z (plus 32); every other byte is unchanged; the result is never an upper-case letter |
| CharUtils.ToLowerIdempotent | charUtils.go:11-15 | lower-casing twice is lower-casing once |
| CharUtils.Strnchr | charUtils.go:25-31 | true exactly when the byte occurs in the string |
| CharUtils.FindRuneCommunist | charUtils.go:37-44 | the case-insensitive lookup answers true for every input, because the fall-through return is also true |
| CharUtils.CmpChrCommunist | charUtils.go:33-35 | two bytes compare equal exactly when they are the same byte, or two letters 32 apart (a capital and its small letter) |
| CharUtils.StrnEqlCommunist | charUtils.go:46-52 | the comparison holds exactly when each of the first n bytes of the two strings compares equal up to ASCII case |
| CharUtils.CountCharDigits | charUtils.go:64-70 | the count is at most the length, and the byte after the digit run is not a digit |
| CharUtils.CountDigitsRun | charUtils.go:64-70 | every byte before the count is a digit |
| CharUtils.AToI | charUtils.go:54-62 | without a leading digit the value is 0; the value is never negative |
| CharUtils.ScanAToI | charUtils.go:54-62 | the accumulating loop computes the decimal value of the leading digit run |
| CharUtils.AToIDigitsOnly | charUtils.go:54-70 | on an all-digit string the count is the length and the value is its decimal value |
| CharUtils.AToIStops | charUtils.go:54-62 | digits followed by a non-digit have the value of the digits alone |
| CharUtils.CountStops | charUtils.go:64-70 | digits followed by a non-digit are counted exactly |
| CharUtils.DecimalLeadingZero | charUtils.go:54-62 | a leading zero does not change the value |
| CharUtils.DecimalAppend | charUtils.go:58 | appending a digit multiplies the value by ten and adds the digit |
| CharUtils.DecimalNat | charUtils.go:54-62 | the value of a digit string is never negative |
| CharUtils.Utf8Meter | charUtils.go:127-153 | 0 exactly for the empty string; otherwise between 1 and 4, and never more than the length |
| CharUtils.Utf8MeterIsRfc3629 | charUtils.go:119-153 | the length is 2, 3 or 4 exactly when the string starts with a well-formed UTF-8 sequence of that length (section 4 of RFC 3629), and 1 otherwise |
| CharUtils.Utf8MeterSingle | charUtils.go:95-133 | ASCII, continuation bytes, C0, C1 and F5..FF as the first byte give 1 |
| CharUtils.Utf8MeterTruncated | charUtils.go:135-137 | a string shorter than its lead byte announces gives 1 |
| Asm.ArenaWf | regexp4.go:89-164 | a compiled arena meets what the interpreter reads at every index: links stay in range and never point backwards, a Set links to its SetEnd with only members between, fragment texts are long enough, and End occurs only at the last index |
| Asm.ElesLinks | regexp4.go:94-101 | each alternative of a chain links to a later alternative or to the PathEnd of its block |
| Tokenizer.CutByLen | regexp4.go:240-245 | the cut succeeds exactly for a length within the text; the fragment has that length, the remainder the rest, and both keep every other field |
| Tokenizer.CutByLenParts | regexp4.go:240-245 | fragment followed by remainder is the original text |
| Tokenizer.NextPos | regexp4.go:285-292 | the offset after a run of `:x` pairs is an even distance away and is not `:` |
| Tokenizer.NextPosRun | regexp4.go:285-292 | every even offset of the skipped run is `:` |
| Tokenizer.WalkMeta | regexp4.go:285-292 | the skipping loop returns the offset after the escape run |
| Tokenizer.SetEndAt | regexp4.go:277-283 | the set scan stops at a `]` outside escapes, or at the end |
| Tokenizer.WalkSet | regexp4.go:277-283 | the set-walking loop returns the offset SetEndAt describes |
| Tokenizer.CutScan | regexp4.go:252-271 | a found delimiter is inside the text; it is `]` for a set and a bar for an alternative |
| Tokenizer.GroupScanStopsOnCloser | regexp4.go:252-263 | inside a group or capture the scan stops only on `)` or `>` |
| Tokenizer.OpenedScan | regexp4.go:247-271 | the scan never stops on the opening bracket; a group or capture stops on a closer; a set scan always finds `]` or runs out of range |
| Tokenizer.CutByTypeSpec | regexp4.go:247-275 | empty input gives no cut; without a delimiter the whole text is the fragment and the remainder is empty; fields other than the text and kind are inherited |
| Tokenizer.CutPathParts | regexp4.go:262-268 | a closed alternative, the bar and the remainder reassemble the text |
| Tokenizer.PathCutShrinks | regexp4.go:262-268 | both parts of a closed alternative are shorter than the text |
| Tokenizer.CutSetParts | regexp4.go:261-268 | `[`, the members, `]` and the remainder reassemble the text |
| Tokenizer.CutGroupParts | regexp4.go:260-268 | opener, body, closer and remainder reassemble the text |
| Tokenizer.CutByTypeUnclosed | regexp4.go:273-274 | only an alternative, group or capture can lack its delimiter; an unterminated set runs out of range instead |
| Tokenizer.CutByType | regexp4.go:247-275 | the scanning loop and its slicing compute the balanced cut CutByTypeSpec |
| Tokenizer.ScanCut | regexp4.go:252-271 | the loop computes the outcome of CutScan from offset 0 at depth 0 |
| Tokenizer.SimpleLenFrom | regexp4.go:221-238 | the literal length lies between -1 and the text length, and is at least 1 once the scan is past the first byte |
| Tokenizer.CutSimple | regexp4.go:221-238 | the loop cuts the literal of length SimpleLenFrom |
| Tokenizer.GetLoops | regexp4.go:315-343 | a quantifier read fails only when the text starts with `{`; it changes only the bounds of the fragment and never lengthens the text |
| Tokenizer.LoopsSingle | regexp4.go:320-323 | `?` gives {0,1}, `+` gives {1,inf} and `*` gives {0,inf}, each consuming exactly its one byte |
| Tokenizer.BraceLoops | regexp4.go:324-338 | the brace reader changes only the bounds and never lengthens the text |
| Tokenizer.LoopsNone | regexp4.go:316-319 | no quantifier gives {1,1} and consumes nothing |
| Tokenizer.LoopsExact | regexp4.go:324-330 | `{m}` gives {m,m} and consumes exactly the quantifier; zero-padded digits are read as decimal |
| Tokenizer.LoopsAtLeast | regexp4.go:331-333 | `{m,}` gives {m,inf} and consumes exactly the quantifier |
| Tokenizer.LoopsBetween | regexp4.go:334-338 | `{m,n}` gives {m,n} and consumes exactly the quantifier |
| Tokenizer.LoopsSuffix | regexp4.go:315-343 | the quantifier reader drops only a head of the text |
| Tokenizer.ModsAt | regexp4.go:298-309 | the modifier run ends inside the text at a byte that is not a modifier, or at the end |
| Tokenizer.ModsRun | regexp4.go:298-309 | every byte of the run is a modifier byte |
| Tokenizer.ModsSetOnly | regexp4.go:298-306 | the anchor, single-match, stride and negate bits are set after the run exactly when they were set before or their byte occurs in the run |
| Tokenizer.GetModsSpec | regexp4.go:294-313 | only the fragment's modifier byte and the text's length change, and the text never grows |
| Tokenizer.GetMods | regexp4.go:294-313 | the method computes GetModsSpec: negation is cleared, then a `#` run is folded in and dropped from the text |
| Tokenizer.ScanMods | regexp4.go:297-311 | the modifier loop computes ModsAt from the first byte after `#` |
| Tokenizer.ModsSuffix | regexp4.go:294-313 | the modifier reader drops only a head of the text |
| Tokenizer.HeadCutLeaf | regexp4.go:201-208 | a leaf fragment is cut straight off the head: one byte for `.`, two for an escape, `@` and its digits, one code point for a non-ASCII byte, and a literal is never empty |
| Tokenizer.HeadCutBracket | regexp4.go:209-211 | a bracketed fragment is the text between the opener at the head and its closer |
| Tokenizer.TrackerFacts | regexp4.go:198-219 | a tracker step ends only on empty text and keeps the kind and text of its head cut; the remainder is a strictly shorter tail of the text, with the parent's other fields |
| Tokenizer.Tracker | regexp4.go:198-219 | the method computes TrackerSpec: head cut, then quantifier, then modifiers |
| Tokenizer.CutHead | regexp4.go:199-214 | the dispatch on the first byte computes HeadCut |
| Tokenizer.MemberCut | regexp4.go:174-189 | a member is a literal or a range, and a range requires the dash at index 1 |
| Tokenizer.SetHeadFacts | regexp4.go:166-190 | a set member is a literal, range, escape or code point cut from the head of the set text |
| Tokenizer.TrackerSetFacts | regexp4.go:166-196 | a member step ends only on empty text; members are cut from the head, match exactly once and lose negation |
| Tokenizer.TrackerSet | regexp4.go:166-196 | the member loop computes TrackerSetSpec |
| Matchers.MatchText | regexp4.go:469-479 | forward is the literal length; a match needs that many bytes of text |
| Matchers.MatchTextPrefix | regexp4.go:469-479 | a literal matches exactly when it is a prefix of the text: byte for byte, or after lower-casing both sides under case-insensitivity |
| Matchers.MatchTextFoldCase | regexp4.go:474-476 | a case-insensitive literal gives the same step on the text and on its lower-cased form |
| Matchers.MatchRange | regexp4.go:481-489 | a range always consumes one byte |
| Matchers.MatchRangeMeaning | regexp4.go:481-489 | a case-sensitive range matches exactly the first bytes between its ends; a case-insensitive one gives the same answer for a byte and its lower-cased form |
| Matchers.MatchMeta | regexp4.go:491-515 | an escape consumes one byte or one code point |
| Matchers.MetaUpperNegates | regexp4.go:495-514 | a lower-case class matches one byte in its class; its upper-case partner matches exactly when the first byte is not in the class, and then consumes one code point |
| Matchers.MetaLiteral | regexp4.go:506-509 | `:&` matches exactly a non-ASCII first byte; an escaped byte that names no class matches only itself |
| Matchers.SetScanAny | regexp4.go:517-536 | a set matches exactly when one of its members accepts the text |
| Matchers.SetScanForward | regexp4.go:517-536 | a set's forward is never negative, and is the accepting member's own when that member is not a literal |
| Matchers.SetForwardCarry | regexp4.go:517-536 | a literal member that accepts after a failed two-byte code point member reports forward 2 on a one-byte text |
| Matchers.BackrefMeaning | regexp4.go:538-555 | a back-reference matches exactly when the newest committed slot with its id exists, is non-empty and is a byte-exact prefix of the text; with no slot of the id it fails |
| Captures.CatchReaders | regexp4.go:581-594 | outside [1, counter) the readers give "" and 0; inside it the offset and length are non-negative, and the text of a slot inside the text has that length at that offset |
| Captures.LastIdFrom | regexp4.go:549-555 | the search gives the table length or a slot at or below the start that carries the id |
| Captures.LastIdFromIsLast | regexp4.go:549-555 | the slot found is the highest one with the id, and none is found only when no slot has it |
| Captures.SpliceNone | regexp4_test.go:2062-2078 | with no slot of the id the reference replacement is the text itself |
| Captures.SpliceLength | regexp4.go:608 | for ordered slots the reference replacement has the length of the source's buffer |
| Captures.RplFitsBuffer | regexp4.go:606-622 | for ordered slots inside the text the buffer is exactly large enough, or at least large enough in char-stride mode, so the buffered result is the reference replacement |
| Captures.SpliceBound | regexp4.go:610-620 | for slots whose starts never go back, the reference from a slot on is no longer than the text from where it resumes plus one replacement per slot |
| Captures.RplFitsBufferRising | regexp4.go:606-622 | in char-stride mode the buffer holds the whole reference result whenever the starts of the slots never go back, even where the slots overlap |
| Captures.RplBufferShort | regexp4.go:606-622 | a slot table whose starts go back (text "aaaab", slots [4,5], [2,2], [3,3], [4,5], replacement "X") gives a ten-byte reference result and a nine-byte char-stride buffer |
| Captures.Truncate | regexp4.go:614-622 | a buffer of cap bytes keeps the first cap bytes of what is written |
| Captures.ExpandStep | regexp4.go:626-637 | one template step: a plain byte is copied, `##` gives `#`, `#digits` gives the text of that slot |
| Captures.ExpandPlain | regexp4.go:625-640 | a template without `#` expands to itself |
| Captures.ExpandPieces | regexp4.go:625-640 | expansion distributes over a copied byte, `##` and `#digits` followed by the rest |
| Regexp4.LeafInst | regexp4.go:130-135 | a single fragment becomes a leaf instruction of its own kind, or a literal |
| Regexp4.MemberInst | regexp4.go:154-159 | a member becomes a member instruction of its own kind, or a literal |
| Regexp4.SetNegation | regexp4.go:143-147 | a leading `^` is dropped and the negation bit toggled; nothing else changes |
| Regexp4.GlobalModifiers | regexp4.go:59-64 | the whole pattern is a path whose text follows the leading `#` run; its anchor, single-match and stride bits are set exactly when their byte is in that run; without `#` there are none |
| Regexp4.PathOkCases | regexp4.go:89-103 | a path (the pattern proper, or a group body) compiles when its text is used up, fails at an unterminated cut, and otherwise compiles exactly when the alternative cut off and the rest both do |
| Regexp4.TracksOkCases | regexp4.go:105-138 | the fragments of an alternative compile when the text is used up, fail at a malformed fragment, and otherwise compile exactly when the fragment (its path for a group or capture, its set for a set) and the rest both do |
| Regexp4.MembersOkCases | regexp4.go:152-160 | the members of a set compile when the text is used up, fail at a malformed member, and otherwise compile exactly when the rest does |
| Regexp4.AlnumCompiles | regexp4.go:54-72 | every non-empty pattern of letters and digits compiles |
| Regexp4.OpenGroupFails | regexp4.go:209-211 | a lone `(` does not compile: its group has no closer |
| Regexp4.RE.Compile | regexp4.go:54-72 | the counter is reset; an empty pattern leaves the engine uncompiled and the arena as it was; the engine is compiled exactly when the pattern is non-empty and its path compiles (PathOk of the pattern after its global modifiers); a compiled pattern yields a well-formed arena headed by the whole pattern, with the global modifiers read |
| Regexp4.RE.GenPaths | regexp4.go:89-103 | the arena only grows; it succeeds exactly when the fragment's path compiles, and then gains one path block for the fragment |
| Regexp4.RE.GenAlternatives | regexp4.go:94-99 | it succeeds exactly when the path compiles, and then the appended instructions form a chain of alternatives |
| Regexp4.RE.PathTurn | regexp4.go:94-99 | one turn ends the chain on an exhausted text without emitting, or appends one linked alternative and leaves a strictly shorter text whose path compiles exactly when the whole one does; a failure means the path does not compile |
| Regexp4.RE.EmitAlternative | regexp4.go:95-98 | a PathEle is appended, then the alternative's items, then the PathEle is linked past them; it succeeds exactly when the alternative's fragments compile |
| Regexp4.RE.CloseAlternative | regexp4.go:98 | the PathEle is linked to the end of the arena and nothing else changes |
| Regexp4.RE.ClosePath | regexp4.go:101-102 | the Path is linked to a PathEnd appended after its alternatives, completing a path block |
| Regexp4.RE.GenTracks | regexp4.go:105-138 | the arena only grows; it succeeds exactly when the fragments compile, and then gains a sequence of items |
| Regexp4.RE.EmitLeaf | regexp4.go:130-135 | exactly one leaf instruction that links to itself is appended |
| Regexp4.RE.EmitBracket | regexp4.go:110-127 | a group or capture appends its opener, a path block and its closer, as one item; it succeeds exactly when its body path compiles |
| Regexp4.RE.CloseBracket | regexp4.go:117-118 | the opener is linked to a closer of its kind appended after the path block |
| Regexp4.RE.GenSet | regexp4.go:140-164 | an empty set text emits nothing; otherwise the arena gains one Set item; it succeeds exactly when the set compiles |
| Regexp4.RE.GenMembers | regexp4.go:152-160 | each member appends one member instruction that links to itself; it succeeds exactly when the members compile |
| Regexp4.RE.CloseSet | regexp4.go:162-163 | the Set is linked to a SetEnd appended after its members |
| Regexp4.RE.AtomStep | regexp4.go:458-467 | an atom's forward is never negative |
| Regexp4.RE.MatchAt | regexp4.go:458-467 | the dispatch computes the atom's step on the remaining text |
| Regexp4.RE.MatchSet | regexp4.go:517-536 | the member loop computes the set scan |
| Regexp4.RE.MatchBackRef | regexp4.go:538-547 | the method computes the back-reference step |
| Regexp4.RE.LastIdCatch | regexp4.go:549-555 | the loop returns the newest committed slot with the id, or the table length |
| Regexp4.RE.OpenCatch | regexp4.go:557-569 | a slot at the cursor is written at the counter, or appended when the table is full; the counter and the id both step on; the attempt invariant is kept |
| Regexp4.RE.CloseCatch | regexp4.go:571-575 | an open slot gets its end at the cursor; otherwise nothing changes |
| Regexp4.RE.UnlessNext | regexp4.go:421-424 | from the cursor after k negated repetitions, one more steps one code point on where the atom fails, and is impossible where it matches |
| Regexp4.RE.WhileNext | regexp4.go:426-429 | from the cursor after k plain repetitions, one more steps past what the atom matched, and is impossible where it fails |
| Regexp4.RE.Looper | regexp4.go:418-435 | the cursor never moves back, at most loopsMax repetitions are made, success means at least loopsMin; the new cursor is UnlessAt (negated) or WhileAt (plain) of the old one after the repetitions made, and below loopsMax with text left one more repetition is impossible |
| Regexp4.RE.RepeatUnless | regexp4.go:421-425 | at most loopsMax repetitions; the cursor is UnlessAt of the start after them, at least one byte per repetition on; stopping early with text left means one more is impossible |
| Regexp4.RE.UnlessTurn | regexp4.go:421-423 | one negated repetition stops where no further one is possible, and otherwise reaches the next UnlessAt cursor |
| Regexp4.RE.RepeatWhile | regexp4.go:426-431 | at most loopsMax repetitions; the cursor is WhileAt of the start after them; stopping early with text left means one more is impossible |
| Regexp4.RE.WhileTurn | regexp4.go:426-428 | one plain repetition stops where no further one is possible, and otherwise reaches the next WhileAt cursor |
| Regexp4.RE.LoopGroup | regexp4.go:437-456 | the returned count is at most loopsMax (or 0), success means the count reaches loopsMin, a negated group advances exactly one byte per repetition, and the interpreter only moves forward; for a plain group the count is not tied to the body's successes (see Left out) |
| Regexp4.RE.Walker | regexp4.go:407-416 | when no alternative matches, the cursor and both slot counters are back at their values on entry |
| Regexp4.RE.Trekking | regexp4.go:388-405 | running a sequence of items keeps the attempt invariant and only moves forward |
| Regexp4.RE.TrekItem | regexp4.go:390-399 | a capture, group, path block or atom keeps the attempt invariant and only moves forward |
| Regexp4.RE.MatchString | regexp4.go:360-386 | the count is 0 for empty text or an uncompiled pattern, lies between 0 and the text's length, is at most 1 under `#^`, `#$` or `#?`, under `#^` only offset 0 is tried, and a `#$` match ends at the end of the text; the slots of a failed scan are dropped |
| Regexp4.RE.TryAt | regexp4.go:371-382 | one attempt starts at the given offset, stops the scan only on a `#$` match that reaches the end or a `#?` match; otherwise the count grows by at most one, and the stride is the match length `txtPos` after a counted non-empty match without `#~`, and one code point (utf8meter of the text at the offset) after any other attempt; an attempt that adds no match restores the slot counter it found, except that a `#$` match that falls short of the end resets it to 1 |
| Regexp4.RE.Attempt | regexp4.go:371-375 | an attempt starts at the offset and keeps every committed slot well formed |
| Regexp4.RE.Match | regexp4.go:351-354 | compiling then matching gives a count between 0 and the text's length, and 0 for an empty pattern |
| Regexp4.RE.Find | regexp4.go:347-349 | found exactly when the count is positive, never for an empty pattern |
| Regexp4.RE.FindString | regexp4.go:356-358 | found exactly when the count is positive, never for empty text or an uncompiled pattern |
| Regexp4.RE.TotCatch | regexp4.go:579 | the captures of the last match are numbered 1 up to the total: outside that range every reader answers "" or 0 |
| Regexp4.RE.GetCatch | regexp4.go:581-584 | "" outside the committed slots; otherwise, for a slot inside the text, the bytes of the text from its start to its end |
| Regexp4.RE.GpsCatch | regexp4.go:586-589 | 0 outside the committed slots; never negative |
| Regexp4.RE.LenCatch | regexp4.go:591-594 | 0 outside the committed slots; never negative; for a slot inside the text, the length of GetCatch, ending where the slot ends |
| Regexp4.RE.RplCatch | regexp4.go:596-623 | with no slot of the id the text is returned; otherwise the result is the reference replacement cut to the computed buffer size |
| Regexp4.RE.CountSlots | regexp4.go:597-603 | the first pass counts the slots of the id and sums their lengths |
| Regexp4.RE.SpliceInto | regexp4.go:610-620 | the second pass writes the reference replacement into the buffer, as much as fits |
| Regexp4.RE.RplSlot | regexp4.go:611-617 | one slot of the id copies the text up to the slot and then the replacement |
| Regexp4.CopyAt | regexp4.go:614-620 | a bounded copy writes as much of the source as fits after what is already written |
| Regexp4.RE.PutCatch | regexp4.go:625-640 | the loop computes the template expansion |
| Regexp4.RE.PutPiece | regexp4.go:627-636 | one step consumes the template piece by piece and yields its expansion |
| Regexp4.RE.Copy | regexp4.go:642-650 | a fresh engine with the same text, pattern, arena, result, counter and modifiers; its table holds exactly counter slots copied from the original (zero past its end), and its attempt state is zero |
| Regexp4.Compile | regexp4.go:652-656 | a fresh engine in which the pattern is compiled as RE.Compile states |

## Left out

- Malformed patterns: where the source panics or recurses forever, the tokenizer returns `Malformed` and the compiler then leaves `compile` false. This covers an unclosed `(` or `<`, an unterminated set or `{`, and a fragment or set opening with a quantifier or dash. Which patterns compile is characterised by the recursive predicates `PathOk`, `TracksOk`, `SetOk` and `MembersOk` over the tokenizer's own specification functions, not by a grammar of pattern text.
- Tokenizer: the walkers index a whole fragment at absolute offsets instead of re-slicing suffixes. `walkMeta`'s out-parameter is its return value.
- Go `range` decoding of runes in `aToi`, `countCharDigits`, `cutSimple`, `getMods` and `strnchr` is modelled byte by byte. Every comparison there is against ASCII, so the answers do not change.
- `isPath` and `strChr` are not modelled, because nothing calls them.
- `genTracks`'s empty `asmPath` case is not modelled, because the tracker never cuts a Path.
- Go machine-int overflow in `aToi`, in `inf` and in slot arithmetic: integers are unbounded.
- Allocation:
  - the capacity 32 of the arena is not modelled;
  - the 32 zero slots of `MatchString` are a 32-element sequence;
  - `append` is replaced by sequence concatenation;
  - `Copy`'s deep copy of `asm` is sequence value semantics.
- The test harness, its benchmarks, and the `BufferRplCatch` and `bytes.Buffer` variants are not modelled.
- Regexp4.RE.GetCatch: a committed slot that ends past the text yields "" where Go's slice would panic. This can only follow a negated group at the end of the text, or a set that over-advances.
- Regexp4.RE.RplCatch: requires that the starts of the replaced slots lie inside the text and that the computed buffer size is non-negative. Go panics otherwise. The slots are read up to the counter cut to the table (`Top`).
- Regexp4.RE.LoopGroup: for a group without negation the repetition count is not tied to how often the body matched, because Trekking's success outcome is not stated; only the bounds and the loopsMin rule on the count are.
- Regexp4.RE.Result: a plain reader of `result`, with no contract of its own. What the count means is stated on MatchString, Match, Find and FindString.
- Captures.RplFitsBuffer: in char-stride mode the fit is proved for slots whose starts never go back (RplFitsBufferRising). Where they go back, the buffer can be too short and the result is cut (RplBufferShort); whether a match can leave such a table is not established here.
- Regexp4.RE.Walker: the contract states the restore on failure and the invariant, not which alternative succeeds first.
- Regexp4.RE.MatchString: the count bounds, the `#^` restriction to offset 0 and the `#$` end position are stated, and TryAt states the stride from one offset to the next in terms of the attempt's outcome and `txtPos`; which offsets match is not stated. The interpreter is characterised by its invariants (`Running`, `Forward`) and its local step contracts, not by a declarative match relation.
- Regexp4.RE.TrekItem, Regexp4.RE.Trekking: these are stated by the invariant only, not by the success outcome.
- Some single Go functions appear as several members here: getMods (ScanMods), cutByType (ScanCut), tracker (CutHead), looper (RepeatUnless, RepeatWhile, UnlessTurn, WhileTurn), trekking (TrekItem), MatchString (TryAt, Attempt), genPaths (GenAlternatives, PathTurn, EmitAlternative, CloseAlternative, ClosePath), genTracks (EmitLeaf, EmitBracket, CloseBracket), genSet (GenMembers, CloseSet), RplCatch (CountSlots, SpliceInto, RplSlot, CopyAt) and PutCatch (PutPiece). They take the same branches in the same order.
