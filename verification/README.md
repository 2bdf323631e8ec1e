# Regular expressions, FAT volumes and BDF fonts: a verified model

This project models three parts of the Solaris sources in Dafny, and proves what each of them is for.

**`<regexp.h>`** is a one-pass compiler from patterns to byte code and a backtracking matcher of that code. The model
keeps both as they are: `Compiler.Compile` writes and patches an array in place, and `Matcher.Advance` walks byte code
and overwrites global capture lists that it never restores. Between them stand a pure parse of patterns
(`RegexpPattern`), an encoding of items (`RegexpCode`), and a declarative meaning (`RegexpMeaning`): a pattern matches
a stretch if cut points split it into pieces that fit its items. The main theorem, `CompileAndStep`, joins all of it:
compile, then search, finds the leftmost match, and among the matches there the lexicographically greatest parse; and
it says exactly when the search never comes back. `SearchText` says the same of patterns as they are written: a list of
pieces (`RegexpWritten`), the text it makes, and what each piece stands for, with no items and no byte code in between.

**newfs** for PCFS builds a FAT file system. The model has the packing of 12 and 16 bit table entries, the layout of the
table, the sequential writer with its 16-bit counts, the sizing arithmetic, and the walk along extended partitions. Its
partner is the kernel's own reader (`pc_getfat`, `pc_bmap`, `pc_getcluster`), modelled beside it: `InstallAndRead`
proves that the image has the layout of the FAT format, byte by byte (`FatLayout`), and that the kernel reads back the
first file that newfs wrote, and `InstallPartition` does so for a boot partition
that newfs sizes itself and whose entry width the kernel takes from the boot sector.

**loadfont** prints fonts in Adobe's Glyph Bitmap Distribution Format 2.1 and loads them. `Loader` is the loader with
its line buffer and its growing byte buffer, proved to find exactly what `BdfLoad.Font` says a file holds, and `FontIff`
says which lines are a font; `OutputBdf` is the printer; `PrintAndLoad` proves that one undoes the other, and exactly
when.

Where the code does not do what one would expect, the model follows the code, a lemma gives an input that shows it,
and another lemma says for which inputs the code is right: back references to an enclosing group are accepted, and
then captures leak (`SelfReferenceIsAccepted`, `SelfReferenceLeaks`, `SelfReferencesLeak`,
`ScopedIffNoSelfReference`); a starred back reference can loop forever (`EndlessHangs`, `HangsIffLoops`,
`TerminationIsExact`); interval bounds and drive numbers wrap around (`BoundCanWrap`, `BoundIsExact`, `DigitsCanWrap`,
`DigitsNameDrive`); a first file can come to 65536 sectors and vanish (`RestCanVanish`, `RestIsWhole`); a 12-bit chain
that reaches cluster 0xFF0 is cut off there, because the kernel takes the number for a reserved code
(`ReservedClusterIsLost`, `FollowedIffLinksHold`); a 16-bit table can be two entries short (`WideTableCanBeShort`,
`WideTableFits`); newfs and the kernel can disagree on the entry width (`WidthsCanDisagree`, `WrongWidthMisreads`,
`WidthsAgree`); a glyph of width 0 takes a byte for each row (`NoWidthTakesOne`, `RowLength`).

## Layout

| module | part |
|---|---|
| `Bytes`, `Numbers` | bytes, bitmaps, failures; decimal numbers in 32-bit ints |
| `RegexpCode`, `RegexpPattern`, `RegexpRoom` | byte code and its decoding; the pure parse; the room it asks for |
| `RegexpBracket`, `RegexpCompile` | the compiler |
| `RegexpMeaning`, `RegexpGroups` | the declarative meaning and the pure matcher; captures and termination |
| `RegexpMatch` | `advance` and `step` |
| `RegexpPatternFacts`, `RegexpSearch` | facts about accepted patterns; the end-to-end theorem |
| `RegexpElements`, `RegexpWritten`, `RegexpMarks` | bracket expressions, patterns and groups as they are written, and that they are read so |
| `RegexpText`, `RegexpRefusals` | the end-to-end theorem for written patterns; which texts are refused, with which error |
| `RegexpWitnesses` | patterns that the matcher does not cope with |
| `RegexpMinimal`, `RegexpTermination`, `RegexpLeaks`, `RegexpPatternLimits` | the shortest subject; which patterns can loop, and which leak captures |
| `FatTable`, `FatImage` | the allocation table; the writer |
| `FatLayout` | the volume, byte by byte |
| `FatVolume` | the kernel's reader and the round trip |
| `FatSizing`, `FatBoot` | sizing; boot partitions from end to end |
| `FatPartition` | drive names and extended partitions |
| `BdfText`, `BdfLines` | numbers as text; lines |
| `BdfLoad`, `BdfFile`, `BdfLoader` | what a file means; which lines are a font; the loader |
| `BdfPrint`, `BdfReadBack`, `BdfRoundTrip` | the printer; what its lines say; the round trip |

Conventions: a byte is an integer below 256, and bit operations are written as arithmetic on it. 16 and 32 bit
wrap-around is written out where it can happen. A supported pattern (`RegexpSearch.Supported`) has no NUL, no interval
after a group mark, a back reference or another interval (`advance` has no case for these), and no back reference
inside the group it names; everything the compiler accepts is modelled in `Compile` itself.


## Model

| member | source | states |
|---|---|---|
| `RegexpSearch.CompileAndStep` | os_net/src_ws/usr/src/head/regexp.h:59-326 | compiling any supported pattern and searching any NUL-terminated subject with the code: on success `loc1` is the leftmost position where the declarative meaning has a parse, `loc2` and the captures are those of the lexicographically greatest parse there; failure means no parse and no endless loop at any position tried; it hangs where the search comes to a starred back reference to an empty group before it comes to a parse, with nothing at the positions before |
| `RegexpSearch.RunMeans` | os_net/src_ws/usr/src/head/regexp.h:328-542 | the greedy matcher restated without a search: it hangs if and only if a stuck item comes before every parse, a match is the greatest parse with its end and captures, and no match means that no parse exists |
| `RegexpSearch.FoundIsUnique` | os_net/src_ws/usr/src/head/regexp.h:291-326 | the three results of a search exclude each other and determine `loc1`, `loc2` and the captures, so that the specification of the end-to-end theorem is exact |
| `RegexpSearch.Search` | os_net/src_ws/usr/src/head/regexp.h:291-326 | the same for `step` on any executable code |
| `RegexpSearch.SupportedIsReady` | os_net/src_ws/usr/src/head/regexp.h:97-286 | the code of every supported pattern decodes to its items, none accepts NUL, and every back reference names a closed group: everything `advance` relies on |
| `RegexpSearch.ParsePointwise` | os_net/src_ws/usr/src/head/regexp.h:346-529 | a parse is a list of cut points such that each item fits the piece between its two |
| `RegexpSearch.CapturesAreCuts` | os_net/src_ws/usr/src/head/regexp.h:388-394 | the final captures of a match are the cut points at the marks of each group |
| `RegexpSearch.FinalKeeps` | os_net/src_ws/usr/src/head/regexp.h:388-394 | slots of groups that the pattern does not have keep what they held |
| `RegexpText.SearchText` | os_net/src_ws/usr/src/head/regexp.h:59-326 | the same search told by the written pattern and the subject alone, without items or byte code: success is the first place with a match, with the end and the captures of the best one there, failure means that no place tried has a match, and only a starred reference can keep the search from coming back |
| `RegexpText.SpellsIff` | os_net/src_ws/usr/src/head/regexp.h:346-529 | for every written pattern: cut points are a parse if and only if each piece takes the stretch between its two: a literal or quoted character itself, `\n` a newline, `.` anything but NUL, brackets what they list or do not list, as often as the stars or the interval permit; marks nothing, `$` the end, a reference the text between the marks of the group it counts to |
| `RegexpText.FoundIsTextFound` | os_net/src_ws/usr/src/head/regexp.h:291-326 | whatever `CompileAndStep` reports for the text of a written pattern has that meaning |
| `RegexpText.LexIs` | os_net/src_ws/usr/src/head/regexp.h:519-526 | the best match is the one that is further on at the first cut point where two matches differ |
| `RegexpText.OnePasses` | os_net/src_ws/usr/src/head/regexp.h:350-386 | the byte code itself: opcode 4 lets its operand pass, 8 anything but NUL, 12, 40 and 16 what their bitmaps say bit by bit, and nothing else; then execution goes on behind the character |
| `RegexpText.DotMatches` | os_net/src_ws/usr/src/head/regexp.h:111-113 | the text `.` matches at the first place searched and ends one further, on every NUL-free subject with a character there |
| `RegexpWritten.PatternRead` | os_net/src_ws/usr/src/head/regexp.h:97-286 | the text of every written pattern (literals, quoted characters, `.`, brackets, marks, references, `$`, with any stars around an interval) is read as its pieces: groups are numbered in the order in which they open, `\1` names the first, `m`, `m,` and `m,n` are the bounds, and `*`, `$`, `^` and a brace are characters where nothing makes them special |
| `RegexpWritten.PieceRead` | os_net/src_ws/usr/src/head/regexp.h:109-286 | each piece by itself |
| `RegexpWritten.CountsRead` | os_net/src_ws/usr/src/head/regexp.h:226-260 | the three forms of an interval, for all numbers below 255 in any number of digits |
| `RegexpWritten.SuffixRead` | os_net/src_ws/usr/src/head/regexp.h:124-128 | stars before and behind an interval do nothing, and several stars are one |
| `RegexpMarks.GroupMarks` | os_net/src_ws/usr/src/head/regexp.h:210-224 | the marks that belong together by nesting carry the number of the opening mark |
| `RegexpMarks.GroupOnce` | os_net/src_ws/usr/src/head/regexp.h:210-224 | a number belongs to one group, and a closing mark to one opening mark |
| `RegexpMarks.ClosedBefore` | os_net/src_ws/usr/src/head/regexp.h:218-224 | a group that was opened and is not open any more was closed |
| `RegexpRefusals.FaultRefused` | os_net/src_ws/usr/src/head/regexp.h:97-286 | behind any right pieces: a stray closing mark is error 42, a tenth group 43, a newline behind a backslash 36, a reference to a group that is not closed 25, a NUL or newline between brackets 49, an open group at the end 42, a newline for a delimiter 36, and a bad interval has its own error |
| `RegexpRefusals.CountsRefused` | os_net/src_ws/usr/src/head/regexp.h:226-260 | an interval without a number is error 16, with a number from 255 on 11, with a second comma 44, without its brace 45, and with bounds in the wrong order 46 |
| `RegexpMeaning.RunFindsParse` | os_net/src_ws/usr/src/head/regexp.h:346-529 | what the pure backtracking matcher finds is a parse, and its end and captures are those of that parse |
| `RegexpMeaning.RunFindsGreatest` | os_net/src_ws/usr/src/head/regexp.h:346-529 | no parse is lexicographically greater than the one found: greedy order is longest first, item by item |
| `RegexpMeaning.RunFailsMeansNone` | os_net/src_ws/usr/src/head/regexp.h:346-529 | when the matcher fails, no list of cut points is a parse |
| `RegexpMeaning.HangsIffLoops` | os_net/src_ws/usr/src/head/regexp.h:474-486 | the matcher never comes back if and only if some cut points lead to a starred back reference whose text is empty, and no parse is lexicographically greater |
| `RegexpMeaning.HangsWhereStuck` | os_net/src_ws/usr/src/head/regexp.h:474-486 | where it hangs, the items before fit their pieces and the group is empty |
| `RegexpMeaning.HangsBeforeAnyParse` | os_net/src_ws/usr/src/head/regexp.h:481-526 | no parse comes before that in greedy order |
| `RegexpMeaning.StuckIsReached` | os_net/src_ws/usr/src/head/regexp.h:474-526 | where an item can get stuck the matcher does not fail: it hangs, or finds a match that comes before |
| `RegexpMeaning.RepeatedStretches` | os_net/src_ws/usr/src/head/regexp.h:396-462 | the two scans of a repeated character reach exactly the permitted stretches, with `\{m,\}` as m to m+20000 |
| `RegexpMeaning.ScanIsLongest` | os_net/src_ws/usr/src/head/regexp.h:489-517 | a scan ends at the longest stretch of accepted characters within its limit |
| `RegexpMeaning.CopiesAre` | os_net/src_ws/usr/src/head/regexp.h:478-479 | the scan of a starred back reference reaches exactly the whole numbers of copies of the captured text |
| `RegexpMeaning.PickTried` | os_net/src_ws/usr/src/head/regexp.h:519-526 | the loops over candidates pass over a candidate only after the rest of the pattern failed there |
| `RegexpMeaning.PickHit` | os_net/src_ws/usr/src/head/regexp.h:519-526 | the candidate they settle on is one of the list, and `locs` does not come before it |
| `RegexpMeaning.NextFits` | os_net/src_ws/usr/src/head/regexp.h:346-529 | the piece that the matcher gives to an item fits it |
| `RegexpMeaning.LongerFails` | os_net/src_ws/usr/src/head/regexp.h:481-526 | every longer piece that fits an item was tried and failed; after a failure, every piece that fits |
| `RegexpGroups.StaleIgnored` | os_net/src_ws/usr/src/head/regexp.h:388-394 | captures never leak: with group discipline, outcome, end and final captures are the same whatever an abandoned attempt left in the slots the remaining items write |
| `RegexpGroups.ScopedWrites` | os_net/src_ws/usr/src/head/regexp.h:388-394 | a slot that is in use is never written again |
| `RegexpGroups.StalePick` | os_net/src_ws/usr/src/head/regexp.h:519-526 | the choice among candidates does not depend on stale slots either |
| `RegexpGroups.StaleBack` | os_net/src_ws/usr/src/head/regexp.h:464-486 | nor does a back reference, single or starred |
| `RegexpGroups.NeverHangs` | os_net/src_ws/usr/src/head/regexp.h:474-486 | a check on the pattern alone that rules out the endless loop on every subject: each starred back reference names a group that takes a character |
| `RegexpTermination.TerminationIsExact` | os_net/src_ws/usr/src/head/regexp.h:474-486 | the check is exact: if every character of the pattern can be matched and `$` is last, it holds if and only if the matcher comes back from every NUL-free subject |
| `RegexpTermination.LoopsSomewhere` | os_net/src_ws/usr/src/head/regexp.h:474-479 | a pattern that fails the check has a subject on which the matcher hangs: the shortest one of the items before the stuck one |
| `RegexpMinimal.MinimalParses` | os_net/src_ws/usr/src/head/regexp.h:346-529 | the shortest subject, on which every item takes as little as it can, has a parse with these pieces |
| `RegexpMinimal.ParsesAreMinimal` | os_net/src_ws/usr/src/head/regexp.h:346-529 | and no other parse, even with other captures |
| `RegexpPatternLimits.PatternTermination` | os_net/src_ws/usr/src/head/regexp.h:97-286 | the exactness of the check for every supported pattern text |
| `RegexpPatternLimits.ParsedDolLast` | os_net/src_ws/usr/src/head/regexp.h:130-134 | in every accepted pattern a special `$` is the last item |
| `RegexpMatch.Matcher.Advance` | os_net/src_ws/usr/src/head/regexp.h:328-530 | `advance`, with global capture lists that are never restored, returns what the pure matcher returns, with the same `loc2` and captures; it ends under the measure of remaining code, and never reads past the NUL |
| `RegexpMatch.Matcher.Step` | os_net/src_ws/usr/src/head/regexp.h:291-326 | `step`: with `^` one attempt; without it the leftmost success, or none |
| `RegexpMatch.Matcher.StepFast` | os_net/src_ws/usr/src/head/regexp.h:305-317 | the first-character fast path meets the same specification as the regular loop |
| `RegexpMatch.Matcher.StepRegular` | os_net/src_ws/usr/src/head/regexp.h:318-325 | the regular loop finds the leftmost match, trying every position up to the terminator |
| `RegexpMatch.Matcher.Attempt` | os_net/src_ws/usr/src/head/regexp.h:319-324 | one attempt gives the outcome of the captures before the search, although earlier attempts have overwritten the lists |
| `RegexpMatch.Matcher.Candidates` | os_net/src_ws/usr/src/head/regexp.h:519-526 | the shared loop at `star` resumes at the longest candidate where the rest does not fail |
| `RegexpMatch.Matcher.TryRest` | os_net/src_ws/usr/src/head/regexp.h:523 | one candidate has the outcome of the captures before the first one, although earlier candidates have overwritten the lists |
| `RegexpMatch.Matcher.Copies` | os_net/src_ws/usr/src/head/regexp.h:481-486 | the loop of a starred back reference, in steps of the captured length |
| `RegexpMatch.Matcher.Single` | os_net/src_ws/usr/src/head/regexp.h:350-394 | the cases without repetition move on exactly as the pure matcher does, writing only their own slot |
| `RegexpMatch.Matcher.SingleBack` | os_net/src_ws/usr/src/head/regexp.h:464-472 | a back reference compares with the captured text and moves past it |
| `RegexpMatch.Matcher.RepeatedBack` | os_net/src_ws/usr/src/head/regexp.h:474-486 | a starred back reference, including the endless loop on an empty capture |
| `RegexpMatch.Matcher.RepeatedStar` | os_net/src_ws/usr/src/head/regexp.h:489-526 | every STAR case agrees with the pure matcher |
| `RegexpMatch.Matcher.RepeatedRange` | os_net/src_ws/usr/src/head/regexp.h:396-462 | every RNGE case agrees with the pure matcher |
| `RegexpMatch.Matcher.Repeated` | os_net/src_ws/usr/src/head/regexp.h:396-526 | dispatch on the repeated opcodes |
| `RegexpMatch.Matcher.GetRange` | os_net/src_ws/usr/src/head/regexp.h:532-542 | the two bound bytes are the least count and the surplus that the interval stands for, on any subject |
| `RegexpMatch.Matcher.ScanLow` | os_net/src_ws/usr/src/head/regexp.h:399-401 | the demanded characters are there, or the case fails |
| `RegexpMatch.Matcher.ScanSize` | os_net/src_ws/usr/src/head/regexp.h:403-407 | the surplus scan ends one past the last candidate, whichever way it stops |
| `RegexpMatch.Matcher.ScanRange` | os_net/src_ws/usr/src/head/regexp.h:396-408 | both scans of an interval together |
| `RegexpMatch.ScanStar` | os_net/src_ws/usr/src/head/regexp.h:489-517 | the scan of a starred character ends one past the last candidate |
| `RegexpMatch.Ecmp` | os_net/src_ws/usr/src/head/regexp.h:37 | comparing with `strncmp` is equality of stretches of the subject, even at its end |
| `RegexpMatch.ScanBack` | os_net/src_ws/usr/src/head/regexp.h:478-479 | the scan over copies of the captured text |
| `RegexpMatch.TestsAgree` | os_net/src_ws/usr/src/head/regexp.h:369-462 | the plain and star test and the interval test of each opcode both decide membership in the set the atom stands for |
| `RegexpCompile.Compiler.Compile` | os_net/src_ws/usr/src/head/regexp.h:59-287 | `compile` fails with 50 if and only if `endbuf` is less than the room the pattern asks for, good or bad; otherwise it leaves exactly the encoding of the parsed pattern and sets `circf` and `nbra`, or fails with the parse's error; an empty pattern keeps the buffer |
| `RegexpCompile.Compiler.CompileItems` | os_net/src_ws/usr/src/head/regexp.h:97-286 | the loop with its `lastep` and its stack of open groups is a parse of the whole text, and runs out of room exactly when the pattern asks for more |
| `RegexpCompile.Compiler.Stop` | os_net/src_ws/usr/src/head/regexp.h:98-108 | the three ways the loop ends, each with its exact condition |
| `RegexpCompile.Compiler.Close` | os_net/src_ws/usr/src/head/regexp.h:103-123 | the end mark, and the check that no group is open |
| `RegexpCompile.Round` | os_net/src_ws/usr/src/head/regexp.h:97-285 | one turn of the loop keeps the invariant that the code so far, put before what is left, is the whole pattern, and that the room asked for is the code and the room of what is left; its errors are exact |
| `RegexpCompile.AppendItem` | os_net/src_ws/usr/src/head/regexp.h:109-285 | a new item becomes the last one; error 50 exactly if the whole pattern asks for more room |
| `RegexpCompile.PatchWithStar` | os_net/src_ws/usr/src/head/regexp.h:124-128 | or-ing STAR into the opcode behind turns the code of the last item into that of the starred item |
| `RegexpCompile.PatchWithRange` | os_net/src_ws/usr/src/head/regexp.h:226-260 | or-ing RNGE into it and appending the bounds turns it into that of the interval |
| `RegexpCompile.Patched` | os_net/src_ws/usr/src/head/regexp.h:127-229 | patching one byte in place is re-encoding the last item |
| `RegexpCompile.CompilePrimary` | os_net/src_ws/usr/src/head/regexp.h:109-285 | each case that starts an item writes its encoding and nothing else, or fails as the parse does; error 50 exactly if its turn asks for more room |
| `RegexpCompile.CompileEscape` | os_net/src_ws/usr/src/head/regexp.h:207-277 | the cases after a backslash: group marks with their numbers, back references, literals |
| `RegexpCompile.CompileBounds` | os_net/src_ws/usr/src/head/regexp.h:231-259 | the bounds `m`, `m,` and `m,n`, with every error they can meet |
| `RegexpCompile.ReadBound` | os_net/src_ws/usr/src/head/regexp.h:232-242 | one bound, checked and cut to a byte |
| `RegexpCompile.ReadNumber` | os_net/src_ws/usr/src/head/regexp.h:233-239 | its digits, in 32-bit arithmetic |
| `RegexpBracket.CompileBracket` | os_net/src_ws/usr/src/head/regexp.h:136-205 | `[` fails with 50 exactly if there is no room for the bitmap it comes to need; otherwise it writes the bitmap form of the parsed class, or fails as the parse does |
| `RegexpBracket.ScanElements` | os_net/src_ws/usr/src/head/regexp.h:151-183 | the element loop holds exactly the characters read so far in the bitmap, 16 bytes until a character above 127 comes; error 50 exactly if one comes and there is no room |
| `RegexpRoom.RoomIsLength` | os_net/src_ws/usr/src/head/regexp.h:97-108 | a pattern that parses asks for exactly the room of its code and end mark, although the room is checked once for every turn of the loop |
| `RegexpRoom.BracketRoomIs` | os_net/src_ws/usr/src/head/regexp.h:137-175 | the two extra checks of a bracket expression ask for one byte more than its code |
| `RegexpBracket.Widen` | os_net/src_ws/usr/src/head/regexp.h:155-162 | switching from CCL to CXCL keeps the set |
| `RegexpBracket.Admit` | os_net/src_ws/usr/src/head/regexp.h:155-175 | widening happens when it has to, and fails only for room |
| `RegexpBracket.PlaceElement` | os_net/src_ws/usr/src/head/regexp.h:163-182 | a range or a single character is added to the set |
| `RegexpBracket.PlaceSpan` | os_net/src_ws/usr/src/head/regexp.h:176-179 | the loop over a range |
| `RegexpBracket.Place` | os_net/src_ws/usr/src/head/regexp.h:35 | PLACE adds one member to a bitmap and changes no other |
| `RegexpBracket.Negate` | os_net/src_ws/usr/src/head/regexp.h:190-201 | complementing all bits without NUL, or marking the class negated with NUL in it |
| `RegexpBracket.Flip` | os_net/src_ws/usr/src/head/regexp.h:192-194 | flipping every byte complements the set |
| `RegexpBracket.ClearNul` | os_net/src_ws/usr/src/head/regexp.h:195 | clearing the low bit takes NUL out |
| `RegexpBracket.CloseBracket` | os_net/src_ws/usr/src/head/regexp.h:185-203 | stepping over the bitmap leaves the encoding of the class |
| `RegexpCode.DecodeEncoded` | os_net/src_ws/usr/src/head/regexp.h:97-286 | decoding the byte code of any list of executable items gives the list back, wherever the code stands |
| `RegexpCode.DecodeEncodedItem` | os_net/src_ws/usr/src/head/regexp.h:348-517 | so does decoding one item |
| `RegexpCode.EncodeAppend` | os_net/src_ws/usr/src/head/regexp.h:97-286 | the code of two lists is the two codes in turn |
| `RegexpPatternFacts.BracketMeaning` | os_net/src_ws/usr/src/head/regexp.h:136-205 | all three bitmap forms accept a character exactly if it is not NUL and is in the written set, or outside it after `^` |
| `RegexpElements.BracketsMean` | os_net/src_ws/usr/src/head/regexp.h:136-197 | for every list of elements, told without the parse: the class accepts a character exactly if it is one of the characters written, or lies in a range from one character up to the one behind `-`, or is a final `-`; behind `^` exactly if not |
| `RegexpElements.BracketsRead` | os_net/src_ws/usr/src/head/regexp.h:136-197 | the text of every such list is read to its end, and gives the class of its characters |
| `RegexpElements.BracketIsWritten` | os_net/src_ws/usr/src/head/regexp.h:136-197 | every bracket expression that is accepted is the text of such a list |
| `RegexpElements.BracketsRefuseNul` | os_net/src_ws/usr/src/head/regexp.h:183-194 | no class accepts NUL, if NUL is not written |
| `RegexpPatternFacts.BracketChars` | os_net/src_ws/usr/src/head/regexp.h:151-183 | only characters get into the set, and NUL never |
| `RegexpPatternFacts.ParsedWellMade` | os_net/src_ws/usr/src/head/regexp.h:97-286 | in every accepted pattern no mark is starred, `$` stands alone, bounds are ordered, and no atom accepts NUL |
| `RegexpPatternFacts.DolStandsAlone` | os_net/src_ws/usr/src/head/regexp.h:130-134 | `$` is special only where nothing can repeat it |
| `RegexpPatternFacts.ParsedNested` | os_net/src_ws/usr/src/head/regexp.h:105-224 | in every accepted pattern the marks are properly nested, numbered in opening order, and back references are below the number of groups closed |
| `RegexpPatternFacts.OpenedAndClosedOnce` | os_net/src_ws/usr/src/head/regexp.h:210-224 | each group below `nbra` (at most 9) is opened once and closed once, and no other is |
| `RegexpPatternFacts.ClosedAfterOpened` | os_net/src_ws/usr/src/head/regexp.h:218-224 | in every prefix a group is not closed more often than opened |
| `RegexpPatternFacts.ScopedIffNoSelfReference` | os_net/src_ws/usr/src/head/regexp.h:270-275 | all back references name closed groups if and only if none stands inside the group it names |
| `RegexpWitnesses.SelfReferenceIsAccepted` | os_net/src_ws/usr/src/head/regexp.h:271-272 | `\(\(a\)\1\)` passes the check although its back reference names the group around it |
| `RegexpWitnesses.SelfReferenceLeaks` | os_net/src_ws/usr/src/head/regexp.h:464-472 | for that pattern captures do leak: on `aa` the match depends on what an earlier search left in a slot the pattern itself writes |
| `RegexpLeaks.SelfReferencesLeak` | os_net/src_ws/usr/src/head/regexp.h:388-394 | the converse: whenever a back reference stands in its own group and a character must be taken behind that group's opening mark, there are a subject and two captures, one apart in a slot the pattern writes, of which one gives a match and the other none |
| `RegexpPatternLimits.PatternLeaks` | os_net/src_ws/usr/src/head/regexp.h:97-286 | the same for every accepted pattern text |
| `RegexpPatternLimits.UnsupportedLeaks` | os_net/src_ws/usr/src/head/regexp.h:271-272 | every accepted pattern that refers to an enclosing group leaks, if no reference is starred and a character must be taken behind all opening marks |
| `RegexpWitnesses.EndlessIsSupported` | os_net/src_ws/usr/src/head/regexp.h:97-286 | `\(a*\)b\1*` is accepted and supported |
| `RegexpWitnesses.EndlessHangs` | os_net/src_ws/usr/src/head/regexp.h:474-479 | and on `b` the matcher never comes back, whatever the lists held |
| `RegexpPatternFacts.NumberValue` | os_net/src_ws/usr/src/head/regexp.h:233-239 | a bound is its decimal value modulo 32-bit wrap-around |
| `RegexpPatternFacts.BoundIsExact` | os_net/src_ws/usr/src/head/regexp.h:232-242 | a bound is stored as its decimal value if and only if that is below 255, and it is treated rightly (stored, or refused with 11) if and only if it is below 255 or its low 32 bits are a positive int from 255 on |
| `RegexpPatternFacts.BoundCanWrap` | os_net/src_ws/usr/src/head/regexp.h:236-241 | `\{4294967298\}` is accepted, and means two |
| `Bytes.IsThereBitmap` | os_net/src_ws/usr/src/head/regexp.h:36 | ISTHERE on a bitmap decides membership |
| `Bytes.PlaceAdds` | os_net/src_ws/usr/src/head/regexp.h:35 | one PLACE adds one member to a byte of the bitmap |
| `Bytes.MaskComplement` | os_net/src_ws/usr/src/head/regexp.h:192-194 | the complement of a byte of a bitmap holds the other members |
| `Bytes.BitIs` | os_net/src_ws/usr/src/head/regexp.h:49 | bit j of a bitmap byte is worth the jth power of two |
| `FatTable.MarkCluster` | ps/usr/src/cmd/pcfs_newfs/newfs.c:932-953 | after marking, the kernel reads the value in the entry, of a 12-bit entry its low 12 bits, and that is the value itself exactly if it is no code that a 12-bit entry confuses with another; every other entry is unchanged, in both widths and parities |
| `FatTable.MarkedReadsBack` | ps/usr/src/cmd/pcfs_newfs/newfs.c:932-953 | the exact values that survive a 12-bit entry |
| `FatTable.Untouched` | ps/usr/src/cmd/pcfs_newfs/newfs.c:944-951 | an entry that shares a byte with the marked one keeps its half |
| `FatTable.BuildFat` | ps/usr/src/cmd/pcfs_newfs/newfs.c:955-1024 | for every chain that has entries, reserved numbers included: the table has the media entries, bad marks on exactly the clusters of the boot block's rest from 2 on, one chain of max(1, ceil) consecutive clusters whose links are what an entry keeps of the next number, ended by the last mark, and free entries everywhere else |
| `FatTable.BuildTable` | ps/usr/src/cmd/pcfs_newfs/newfs.c:977-1021 | the same, once the clusters are counted |
| `FatTable.BlankTable` | ps/usr/src/cmd/pcfs_newfs/newfs.c:969-983 | the media entries and nothing else |
| `FatTable.HideClusters` | ps/usr/src/cmd/pcfs_newfs/newfs.c:998-1004 | the loop that hides the clusters of the boot block |
| `FatTable.ChainClusters` | ps/usr/src/cmd/pcfs_newfs/newfs.c:1017-1020 | the loop that chains the clusters of the first file, one cluster even for an empty file |
| `FatTable.IDivCeilLeast` | ps/usr/src/cmd/pcfs_newfs/pcfs_newfs.h:35-36 | `idivceil` is the least number of pieces that hold everything |
| `FatImage.WriteFat` | ps/usr/src/cmd/pcfs_newfs/newfs.c:1226-1319 | the output is boot sector, two equal tables, root directory, rest of the boot block and first file, in this order, with the right table; where everything stands, byte by byte, is `VolumeIsLaid` |
| `FatImage.WriteRest` | ps/usr/src/cmd/pcfs_newfs/newfs.c:1123-1156 | the copied file, zero padded to the sectors counted, whatever its size |
| `FatImage.CopySector` | ps/usr/src/cmd/pcfs_newfs/newfs.c:1140-1155 | one turn of the copy: a sector of the file, then zero sectors |
| `FatImage.RestIsWhole` | ps/usr/src/cmd/pcfs_newfs/newfs.c:1136-1139 | everything is written, in whole clusters, if and only if that is fewer than 65536 sectors |
| `FatImage.RestCanVanish` | ps/usr/src/cmd/pcfs_newfs/newfs.c:1136-1139 | a file of 65535 sectors in clusters of four is not written at all |
| `FatImage.WriteTables` | ps/usr/src/cmd/pcfs_newfs/newfs.c:1274-1284 | both copies of the table |
| `FatImage.WriteFileSpace` | ps/usr/src/cmd/pcfs_newfs/newfs.c:1306-1318 | the rest of the boot block and the first file |
| `FatLayout.VolumeIsLaid` | ps/usr/src/cmd/pcfs_newfs/newfs.c:1226-1319 | the whole volume, byte by byte, on offsets of the image: boot sector with every field of the parameter block at its offset and all its other bytes kept; both tables entry by entry with the literal codes; the root entry; the bytes of the boot block from 512 on behind the root directory, then zeroes to the end of its clusters; the first file, then zeroes to the end of its clusters |
| `FatLayout.Install` | ps/usr/src/cmd/pcfs_newfs/newfs.c:1226-1319 | newfs on an empty file, with or without a first file, writes a volume with this layout whenever its sector counts fit 16 bits |
| `FatLayout.TableStands` | ps/usr/src/cmd/pcfs_newfs/newfs.c:955-1024 | the table bit by bit: entry by entry 0xFF7 for the hidden clusters, the number of the next cluster, 0xFF8 for the last and 0 for a free one, two bytes or one and a half for each |
| `FatLayout.ClustersAre` | ps/usr/src/cmd/pcfs_newfs/newfs.c:1136-1139 | the clusters that newfs counts by way of sectors are as many as the bytes need, if they come to fewer than 65536 sectors |
| `FatVolume.InstallAndRead` | ps/usr/src/cmd/pcfs_newfs/newfs.c:1226-1319 | the image has the layout of `VolumeIsLaid`, the rest of the boot block included; and reading it through the kernel's mount, root entry and cluster chain gives the first file, for every boot block and file whose own clusters are in the volume and have entries, if the chain is one cluster or the entries are of 16 bits or its last cluster is below 0xFF0; otherwise, on a volume sized as the kernel decides the width, reading fails with EIO |
| `FatVolume.FloppyFits` | ps/usr/src/cmd/pcfs_newfs/newfs.c:315-323 | on a 1.44 megabyte floppy with a boot block of one sector, everything the round trip asks for holds of every file of up to 2847 sectors, and its chain is followed |
| `FatVolume.FirstFileReadsBack` | ps/usr/src/cmd/pcfs_newfs/newfs.c:1226-1319 | on any image that begins with the volume, the kernel mounts the intended geometry, and what is read of the file that the first root entry names is that file, or EIO exactly where the chain leads into the reserved codes |
| `FatVolume.ByteReadsBack` | ps/usr/src/cmd/pcfs_newfs/newfs.c:1123-1156 | every byte of the chain is the file's, and zero past its end, in every cluster that the links lead to; in the others it is EIO |
| `FatVolume.EntryReadsBack` | ps/usr/src/cmd/pcfs_newfs/newfs.c:1084-1114 | the first root entry gives the start cluster and the size |
| `FatVolume.VolumeMounts` | os_net/src_ws/usr/src/uts/common/fs/pcfs/pc_vfsops.c:908-1130 | `pc_getfat` accepts the volume, with the geometry and table that newfs meant |
| `FatVolume.BpbReadsBack` | ps/usr/src/cmd/pcfs_newfs/pcfs_newfs.h:60-124 | the packed parameter block is read field by field as it was written |
| `FatLayout.Sections` | ps/usr/src/cmd/pcfs_newfs/newfs.c:1226-1319 | where each part of the volume stands |
| `FatVolume.FileStartsAtCluster` | ps/usr/src/cmd/pcfs_newfs/newfs.c:998-1010 | the first file begins at the sector of its first cluster: the hidden clusters are exactly the boot block's rest |
| `FatVolume.ChainFollows` | os_net/src_ws/usr/src/uts/common/fs/pcfs/pc_alloc.c:297-325 | along the written chain, n links lead n clusters on, as far as they stay below the reserved codes of a 12-bit entry |
| `FatVolume.ChainBreaks` | os_net/src_ws/usr/src/uts/common/fs/pcfs/pc_alloc.c:89-106 | and from the first link to a cluster 0xFF0 or above the kernel finds no valid cluster |
| `FatVolume.FollowedIffLinksHold` | os_net/src_ws/usr/src/uts/common/fs/pcfs/pc_alloc.c:89-106 | on a volume sized as the kernel decides the width, the whole chain is followed if and only if it is one cluster or its last cluster is below 0xFF0 (or the entries have 16 bits) |
| `FatVolume.Bmap` | os_net/src_ws/usr/src/uts/common/fs/pcfs/pc_alloc.c:41-122 | `pc_bmap` follows the chain from the start cluster; it fails outside the volume or the file, and reads past a table that is too short only if the chain goes there |
| `FatVolume.ReadFile` | os_net/src_ws/usr/src/uts/common/fs/pcfs/pc_alloc.c:41-122 | reading byte by byte through `pc_bmap` gives the file's bytes or the first error |
| `FatVolume.ReadFirstFile` | os_net/src_ws/usr/src/uts/common/fs/pcfs/pc_vfsops.c:908-1130 | mounting, then reading what the first root entry names, with the errors of both |
| `FatSizing.ComputeClusterSize` | ps/usr/src/cmd/pcfs_newfs/newfs.c:533-582 | refuses a partition if and only if it is too large; with two usable sectors the clusters are the smallest that 65536 of them suffice with, the table is the least with an entry for every cluster beside two such tables, it has at most 256 sectors, there are at most 65528 clusters, and their number decides the width |
| `FatSizing.TableIsLeast` | ps/usr/src/cmd/pcfs_newfs/newfs.c:543-561 | the table size is the least that has an entry for every cluster beside two such tables; it is at most 256 sectors, and there are at most 65528 clusters |
| `FatSizing.NarrowTableFits` | ps/usr/src/cmd/pcfs_newfs/newfs.c:558-582 | with 12-bit entries all clusters and the two reserved entries fit |
| `FatSizing.WideTableFits` | ps/usr/src/cmd/pcfs_newfs/newfs.c:558-561 | with 16-bit entries they fit if and only if the data area is two clusters short of what the table could describe |
| `FatSizing.WideTableCanBeShort` | ps/usr/src/cmd/pcfs_newfs/newfs.c:558-561 | a partition that gets 16-bit entries, and whose table is two entries short |
| `FatSizing.WidthsAgree` | os_net/src_ws/usr/src/uts/common/fs/pcfs/pc_vfsops.c:868-885 | newfs and the kernel choose the same entry width if and only if no partial last cluster takes the count over the limit |
| `FatSizing.WidthsCanDisagree` | os_net/src_ws/usr/src/uts/common/fs/pcfs/pc_vfsops.c:868-885 | a partition that newfs writes with 16-bit entries and the kernel reads with 12-bit ones |
| `FatBoot.InstallPartition` | ps/usr/src/cmd/pcfs_newfs/newfs.c:533-582 | a boot partition from end to end: newfs sizes and writes it, the kernel reads the width off the boot sector, mounts it and gives the first file back, for every file that fits, wherever the two mean the same width and the chain does not lead into the reserved codes; there reading fails with EIO; too large a partition is refused |
| `FatBoot.PartitionReadsBack` | os_net/src_ws/usr/src/uts/common/fs/pcfs/pc_vfsops.c:839-885 | on any image that begins with such a partition the kernel finds newfs's width, and the first file or EIO on the same condition |
| `FatBoot.WidthIsRead` | os_net/src_ws/usr/src/uts/common/fs/pcfs/pc_vfsops.c:853-885 | the width the kernel reads off the boot sector follows from the number of whole clusters |
| `FatBoot.PartitionFits` | ps/usr/src/cmd/pcfs_newfs/newfs.c:533-582 | a file whose last cluster is in the partition and has an entry meets everything that the round trip asks for, also where the table is too short for the rest of the partition |
| `FatBoot.ReservedClusterIsLost` | os_net/src_ws/usr/src/uts/common/fs/pcfs/pc_alloc.c:319-320 | a file of 4079 clusters on a partition of 16385 sectors, with 4080 clusters: it fits and does not come back |
| `FatBoot.WrongWidthMisreads` | os_net/src_ws/usr/src/uts/common/fs/pcfs/pc_alloc.c:307-321 | on every partition where the widths differ, with a boot block of one sector and a first file of several clusters, the kernel goes from cluster 2 to 1023 instead of 3 |
| `FatSizing.OneSectorWraps` | ps/usr/src/cmd/pcfs_newfs/newfs.c:559-561 | with one usable sector the cluster count wraps around |
| `FatSizing.WellSizedIff` | ps/usr/src/cmd/pcfs_newfs/newfs.c:533-582 | a partition that is not too large is well sized if and only if it has two usable sectors |
| `FatSizing.PartitionCovered` | ps/usr/src/cmd/pcfs_newfs/newfs.c:533-582 | for which sized partitions the kernel's table reaches every cluster |
| `FatPartition.ParseDriveNumber` | ps/usr/src/cmd/pcfs_newfs/newfs.c:99-135 | letters c to z are drives 1 to 24, digit strings their value or -1 above 24, a digit prefix with more text -1, `boot` 99 |
| `FatPartition.SumDigits` | ps/usr/src/cmd/pcfs_newfs/newfs.c:113-122 | the loop over weighted digits is the decimal value, in 32-bit arithmetic |
| `FatPartition.Weight` | ps/usr/src/cmd/pcfs_newfs/newfs.c:116-119 | the weight of a digit |
| `FatPartition.DigitsNameDrive` | ps/usr/src/cmd/pcfs_newfs/newfs.c:113-129 | a digit string names the drive of its decimal value if and only if that is at most 24, or its low 32 bits are a positive int above 24 or all ones |
| `FatPartition.DigitsCanWrap` | ps/usr/src/cmd/pcfs_newfs/newfs.c:113-129 | the text 4294967297 names drive 1 |
| `FatPartition.SeekExtended` | ps/usr/src/cmd/pcfs_newfs/newfs.c:219-257 | for every sequence of places where the first is that of the extended partition, each record is readable and links to the next one relative to the start of the extended partition: drive k gets the start of the first entry of the (k-1)th record, relative to the place of that record, if the extended partition reaches that far; a chain that ends before is a missing partition, one that leads to an unreadable record a read error |
| `FatPartition.WalkChain` | ps/usr/src/cmd/pcfs_newfs/newfs.c:234-253 | the loop walks the places of the chain, to the (k-1)th record, to one without a link, or to one that cannot be read |
| `FatPartition.FindExtended` | ps/usr/src/cmd/pcfs_newfs/newfs.c:224-232 | the first extended entry of the table |
| `FatPartition.WalkDecides` | ps/usr/src/cmd/pcfs_newfs/newfs.c:237-253 | the three ways a walk can end exclude each other, and the places are determined: each outcome has exactly its condition |
| `FatPartition.LinkedOnce` | ps/usr/src/cmd/pcfs_newfs/newfs.c:237-253 | there is one chain of each length |
| `FatPartition.FourthDrive` | ps/usr/src/cmd/pcfs_newfs/newfs.c:240-247 | the places of three linked records: both links count from the start of the extended partition, not from each other |
| `FatPartition.SeekWraps` | ps/usr/src/cmd/pcfs_newfs/newfs.c:238 | a seek wraps around at 4 gigabytes |
| `BdfRoundTrip.PrintAndLoad` | ps/usr/src/cmd/loadfont/loadfont.c:352-613 | printing a font and loading the file: what is printed describes the font line by line; it is accepted exactly if there is a character and the name can be read back; then the bitmap comes back exactly if every row fits one byte, and always for width 8 |
| `BdfRoundTrip.LoadText` | ps/usr/src/cmd/loadfont/loadfont.c:352-537 | `load_bdf` on the same file with its rows in small or capital digits: all rows that spell the bitmap give the same result |
| `BdfRoundTrip.CapitalsSpell` | ps/usr/src/cmd/loadfont/loadfont.c:239-258 | capital digits spell the same bytes as small ones |
| `BdfRoundTrip.TextBack` | ps/usr/src/cmd/loadfont/loadfont.c:373-524 | a file of this form is loaded whatever its rows are, each cut and padded to the width |
| `BdfRoundTrip.RoundTrip` | ps/usr/src/cmd/loadfont/loadfont.c:352-613 | what comes back, for every width, and exactly when it is the bitmap that was printed |
| `BdfRoundTrip.AcceptedIff` | ps/usr/src/cmd/loadfont/loadfont.c:373-524 | `load_bdf` accepts what `output_bdf` prints if and only if there is a character and the name begins with no white space, has no newline and does not end in a carriage return |
| `BdfRoundTrip.FontBack` | ps/usr/src/cmd/loadfont/loadfont.c:373-524 | the glyphs that are loaded from a printed file, one for each character |
| `BdfRoundTrip.EmptyRefused` | ps/usr/src/cmd/loadfont/loadfont.c:407-411 | a printed font without characters is refused |
| `BdfRoundTrip.BadNameRefused` | ps/usr/src/cmd/loadfont/loadfont.c:377-381 | a name that the FONT line cannot carry is refused |
| `BdfRoundTrip.RestoredIff` | ps/usr/src/cmd/loadfont/loadfont.c:479-510 | rows of one byte survive the width's mask and padding if and only if they have no bit beyond the width and the width is at most 8, or zero |
| `BdfReadBack.TextDescribes` | ps/usr/src/cmd/loadfont/loadfont.c:582-613 | every printed line, read by an independent reader of keywords and numbers: SIZE, both boxes with the descent below, the properties with ascent and descent, the number of characters, and for each character its name in four small digits, ENCODING, SWIDTH, DWIDTH, BBX, its rows and ENDCHAR, at their places |
| `BdfReadBack.DescribedIsFont` | ps/usr/src/cmd/loadfont/loadfont.c:373-524 | lines that say so are a font to `load_bdf` |
| `BdfReadBack.TwoEncodingsSaid` | ps/usr/src/cmd/loadfont/loadfont.c:429-434 | with two numbers in an ENCODING line the second counts where the first is -1, and numbers below -1 are refused |
| `BdfReadBack.BoxSaid` | ps/usr/src/cmd/loadfont/loadfont.c:453-458 | the first two of four numbers in a BBX line are width and height, and negative ones are refused |
| `BdfReadBack.FontPlain` | ps/usr/src/cmd/loadfont/loadfont.c:583-613 | every printed line is at most 78 characters, and passes `getline` unchanged |
| `BdfReadBack.EncodingSaid` | ps/usr/src/cmd/loadfont/loadfont.c:429-434 | one number in an ENCODING line is the encoding |
| `BdfRoundTrip.RowsSpelled` | ps/usr/src/cmd/loadfont/loadfont.c:483-510 | the rows of a character are read back from their lines |
| `BdfPrint.OutputBdf` | ps/usr/src/cmd/loadfont/loadfont.c:582-613 | the two loops print exactly the lines of the font, with the bytes of the bitmap in order |
| `BdfPrint.PrintChars` | ps/usr/src/cmd/loadfont/loadfont.c:602-611 | the loop over characters, with its place in the bitmap |
| `BdfPrint.PrintRows` | ps/usr/src/cmd/loadfont/loadfont.c:608-609 | the loop over rows |
| `BdfFile.FontIff` | ps/usr/src/cmd/loadfont/loadfont.c:352-524 | `load_bdf` finds these glyphs if and only if the lines of the file are a font of this name with these glyphs, told by places of lines: the four lines at the top, properties as many as announced, CHARS, for each character its name, encoding, box, attributes, a line for each row and ENDCHAR, or an encoding of -1 and the first ENDCHAR after it, and ENDFONT behind the last; nothing past the end of the file counts |
| `BdfFile.FontFile` | ps/usr/src/cmd/loadfont/loadfont.c:352-524 | a font file is accepted, any other file is not, and it holds one font |
| `BdfFile.CharsRead` | ps/usr/src/cmd/loadfont/loadfont.c:414-516 | characters between their places are all loaded, in order |
| `BdfFile.CharsAre` | ps/usr/src/cmd/loadfont/loadfont.c:414-516 | and characters that are loaded have such places |
| `BdfLoader.LoadBdf` | ps/usr/src/cmd/loadfont/loadfont.c:352-537 | `load_bdf` accepts exactly the files whose lines are a font, fails with the reason the file gives, and what it downloads is the font's bitmap; every store is inside the grown buffer |
| `BdfLoader.Loader.LoadFont` | ps/usr/src/cmd/loadfont/loadfont.c:373-524 | the same from any state of the reader and buffer |
| `BdfLoader.Loader.LoadCharacters` | ps/usr/src/cmd/loadfont/loadfont.c:414-516 | the loop over characters: the glyphs loaded so far, before what is left, are those of the file |
| `BdfLoader.Loader.LoadGlyph` | ps/usr/src/cmd/loadfont/loadfont.c:426-515 | one character: loaded behind what is stored, ignored, or refused |
| `BdfLoader.Loader.StoreRows` | ps/usr/src/cmd/loadfont/loadfont.c:483-510 | the loop over rows |
| `BdfLoader.Loader.LoadRow` | ps/usr/src/cmd/loadfont/loadfont.c:485-509 | one row: hex bytes, the mask on the last, and zero padding |
| `BdfLoader.Loader.StoreHex` | ps/usr/src/cmd/loadfont/loadfont.c:498-499 | the bytes of a line, stopping at the first bad digit |
| `BdfLoader.Loader.CutLast` | ps/usr/src/cmd/loadfont/loadfont.c:500-502 | the bits beyond the width are cleared |
| `BdfLoader.Loader.StoreZeros` | ps/usr/src/cmd/loadfont/loadfont.c:503-504 | padding to the row's width |
| `BdfLoader.Loader.Reserve` | ps/usr/src/cmd/loadfont/loadfont.c:492-496 | growing keeps what is stored, and leaves room for the row and one byte more |
| `BdfLoader.Loader.LoadHead` | ps/usr/src/cmd/loadfont/loadfont.c:426-478 | the lines of a character before its rows, with every check |
| `BdfLoader.Loader.SkipCharacter` | ps/usr/src/cmd/loadfont/loadfont.c:437-443 | the loop to the end of an ignored character, and when it would not end |
| `BdfLoader.Loader.LoadHeader` | ps/usr/src/cmd/loadfont/loadfont.c:373-412 | the header, with every check |
| `BdfLoader.Loader.SkipPropertyLines` | ps/usr/src/cmd/loadfont/loadfont.c:395-397 | the loop over properties |
| `BdfLoader.Loader.GetLine` | ps/usr/src/cmd/loadfont/loadfont.c:201-219 | `getline` hands out the next line that is neither empty nor a comment; at the end of the file the buffer keeps what it had |
| `BdfLoader.ReadHexByte` | ps/usr/src/cmd/loadfont/loadfont.c:239-258 | `hexbyte` |
| `BdfLoad.FontIsAccounted` | ps/usr/src/cmd/loadfont/loadfont.c:479-510 | in every accepted file all glyphs have their height in rows; where they have a width, each row has ceil(width/8) bytes with no bit beyond the width, and the bytes of all glyphs sum to the bitmap |
| `BdfLoad.RowLength` | ps/usr/src/cmd/loadfont/loadfont.c:479-504 | a row takes ceil(width/8) bytes if and only if there is a width or the line is empty: a glyph of width 0 takes one byte too many |
| `BdfLoad.BytesPerRowLeast` | ps/usr/src/cmd/loadfont/loadfont.c:478-479 | a row takes the least number of bytes with room for the width |
| `BdfLoad.NoWidthTakesOne` | ps/usr/src/cmd/loadfont/loadfont.c:479-499 | the line `00` in a glyph of width 0 takes a byte |
| `BdfLoad.RowPixel` | ps/usr/src/cmd/loadfont/loadfont.c:497-504 | a pixel is set exactly if it lies within the width and the hex line has it set |
| `BdfLoad.ClearedBits` | ps/usr/src/cmd/loadfont/loadfont.c:500-502 | masking clears exactly the low bits |
| `BdfLines.LinesKept` | ps/usr/src/cmd/loadfont/loadfont.c:201-219 | `getline` hands out, of any lines of up to 78 characters, those that are neither empty nor comments, less their carriage returns |
| `BdfLines.LongLineCut` | ps/usr/src/cmd/loadfont/loadfont.c:201-219 | a longer line is cut after 79 characters |
| `BdfLines.ListJoined` | ps/usr/src/cmd/loadfont/loadfont.c:201-219 | text made of plain lines is listed as those lines |
| `BdfText.ScanPrintedInt` | ps/usr/src/cmd/loadfont/loadfont.c:591-607 | `%d` scans what `%d` printed |
| `BdfText.HexByteBack` | ps/usr/src/cmd/loadfont/loadfont.c:239-258 | `hexbyte` reads what `%.2x` printed |
| `BdfText.HexDigitsAre` | ps/usr/src/cmd/loadfont/loadfont.c:247-254 | the hexadecimal digits are 0 to 9, A to F and a to f, worth 0 to 15 in this order |
| `BdfText.OnlyHexDigits` | ps/usr/src/cmd/loadfont/loadfont.c:247-256 | and no other character is one |

## Left out

- `ucbhead/regexp.h`: the same algorithm in an older style of C.
- What a caller's GETC, PEEKC, UNGETC, ERROR and RETURN may do beyond moving a cursor over a text and failing: reading
  past the end of the text fails, peeking past it gives NUL, and characters are unsigned (with a signed GETC the end of
  a range above 127 would not be masked, regexp.h:164-182, and would index below the bitmap).
- Patterns with intervals on group marks or back references, or two intervals on one character: `Compile` is proved for
  them, but what `advance` does with opcodes it has no case for is not modelled.
- RegexpText.SearchText: says of a search that does not come back only that the pattern has a starred reference; exactly
  when that happens is in `CompileAndStep`.
- Patterns with two intervals on one piece are not among the written patterns; `CompileAndStep` leaves them out too.
- Endless loops: `advance` on a starred empty capture, and `load_bdf` on a file that ends inside an ignored character,
  are modelled as an outcome of their own (`Never`, `Hangs`); the methods return where the source would not.
- `parse_drvnum` on a name of none of its forms: the source returns an unset variable, a parameter here.
- Drive number 0, for which the loop of `seek_partn` counts below zero, and its other branches: primary partitions and
  the boot partition are table lookups.
- Device opening, ioctls, floppy tables, usage text, argument parsing, dry runs and messages in newfs.
- The volume label, the time stamps and the name of the first root entry: 26 bytes and the extension of the parameter
  block are parameters. `swap_pack_bpbcpy` is a fixed byte layout, stated as `PackBpb`.
- The Sun extensions of the boot sector, copied behind the parameter block on request: no reader here looks at them.
- Files of 2^31 bytes and more: `write_rest` takes the count of bytes as a signed int (newfs.c:1125), here it is not
  negative.
- Where a link leads on a 12-bit volume of more than 4086 clusters, which the kernel's own choice of width excludes.
- Short reads in newfs: `read` gives full sectors up to the end of the file.
- What the kernel finds behind a table that is too short: such a read is an outcome of its own (`PAST_TABLE`).
- The parts of `dosgetfattype` that look the partition up, and the widths it takes from other partition types.
- `pc_getfat` for sectors of other sizes than 512 bytes, and its comparison with the second table, which only warns.
- The kernel's cache of the last cluster in `pc_bmap`, which changes only how fast the chain is followed.
- `sscanf` on numbers that overflow an int, and NULs inside a font file.
- An ATTRIBUTES line of nothing but the keyword: the source looks past the end of the line buffer; the model fails.
- The download ioctl, and byte inversion for other scan units than the one in use.
- Character names longer than a line, and the 100-byte buffers of `load_bdf`: lines have at most 79 characters.
- The volume management and configuration user interfaces, and everything else in the repository.
