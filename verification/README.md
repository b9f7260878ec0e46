# JerryScript: a verification model

Dafny models of five parts of JerryScript, with proofs of what they promise. Each module follows
one source file or one component; code that works in place is modelled in place, on arrays and
classes, and proved against functions on values.

- **Arithmetic of jerry-math** (`Words`, `Sqrt`, `Fmod`, `RemPio2`, `FloorCeil`). A double is its
  two 32-bit words in the binary64 layout of section 3.4 of IEEE 754-2008; its magnitude is an
  integer in units of 2^-1074. The word-level loops and branches are proved against statements
  about one number: `sqrt` is correctly rounded (section 5.4.1 of IEEE 754-2008) in each rounding
  direction, `fmod` is exact, the integer stage of `__kernel_rem_pio2` keeps the product modulo 8
  and rounds nowhere, and `floor` and `ceil` are the nearest integral doubles on their side.
- **Snapshots** (`Bytes`, `Layout`, `Snapshot`, `SnapshotPasses`, `SnapshotFile`, `SnapshotReach`,
  `SnapshotWriter`, `SnapshotCollect`, `SnapshotStray`, `SnapshotRoom`, `SnapshotPointers`,
  `SnapshotSave`, `SnapshotPast`, `SnapshotMerge`, `SnapshotNoCopy`). A tree of compiled functions
  and its flat form. The recursive writer, the passes that walk the flat form block by block, the
  loader and the merger are related to the tree: walking is recursion, saving and loading is the
  identity and leaves no pointer in the file, merging keeps what every function loads to and may
  be done in steps, and loading without copying gives the same functions, with the extended info
  that is kept.
- **Lists of literals** (`HeapSort`, `LiteralList`, `SnapshotLiterals`). The heap sort sorts, and
  the list that one tool writes, of exactly the strings that a snapshot uses, is read back by the
  other.
- **Magic strings** (`Preprocessor`, `MagicStrings`). The generator of the header as a compiler of
  conditions: for every truth of the macros, the preprocessor leaves of the generated header what
  it should.
- **Case tables** (`Unicode`). Extraction of ranges, pairs and leftovers from two tables that
  shrink on the way, and their decoding.
- **Debugger client** (`Debugger`, `Fragments`). Breakpoint books that agree with the server after
  any run, and strings and messages in frames.

Words are mathematical integers with their wrap-around written out (`ToI32`, `ToU32`, `Shl`);
`&` and `|` are recursive functions with lemmas that split them. Left shifts of signed words wrap.

## What was found

- `jerry_snapshot_set_offsets` looks up every bigint constant, but the pool of literals never takes
  the zero bigint (jerry-core/ecma/base/ecma-literal-storage.c:422-428), so the search for it runs
  past the map. `Snapshot.LookupsStopExactly` states exactly when the searches stop,
  `Snapshot.BigintZeroIsNotFound` gives code for which one does not, and
  `SnapshotSave.GenerateSnapshot` ends in `PastMap` exactly for such code.
- The writer looks at the bit of tagged template literals before it knows whether the code is a
  regular expression, where the same bit is the s flag
  (jerry-core/ecma/operations/ecma-regexp-object.h:44). With enough room the writer refuses code
  for tagged templates exactly when some node, of either kind, has the bit
  (`SnapshotRoom.RefusalExactly`); `SnapshotRoom.SFlagIsRefused` gives regular expressions that it
  refuses.
- The padding after a pattern is counted but not written, and the last one can move the write offset
  beyond the buffer; the room left for literals then wraps around, and literals, if there are any,
  are written behind the buffer. `SnapshotRoom.PastBufferExactly` states for every tree and length
  when the offset is beyond the buffer, and `SnapshotRoom.PastBufferNeeds` that the last node is then
  a padded pattern and the length no multiple of 8. `SnapshotPast.PastBufferExample` gives a class
  with a string constant, accepted in 55 bytes, whose literal table starts at byte 56.
  `GenerateSnapshot` ends in `PastBuffer` exactly then, when there are literals, their sizes can be
  found, and their table is not larger than any table may be. Without literals it succeeds, with a
  size larger than the buffer; whatever is behind the buffer is padding then
  (`SnapshotRoom.PaddingIsFree`), and the file loads as the code.
- The size of a string has 16 bits in a literal table
  (jerry-core/ecma/base/ecma-literal-storage.c:639), but with 32-bit pointers the parser accepts
  longer strings (jerry-core/parser/js/js-parser-limits.h:40-44). A string is read back if and only
  if it is shorter than 65536 bytes; one of 65536 bytes is read as empty
  (`SnapshotFile.StringReadExactly`). A saved file loads as the saved code exactly when the code has
  no longer string (`SnapshotSave.ShortExactly`, `SnapshotSave.GenerateSnapshot`).
- Loading without copying makes a new block for code that is long enough, and keeps its extended
  info word only with a resource name or tagged template literals:
  `SnapshotNoCopy.InfoSurvivesExactly`; `SnapshotNoCopy.InfoLostExample` is a class that loses it.
- The size of such a new block is cut to 16 bits of 8-byte units. A block is no function any more
  exactly when its size does not fit (`SnapshotNoCopy.SharedFits`), as for the function of
  `SnapshotNoCopy.TruncatedExample`; otherwise both ways of loading agree. Only a file made by other
  means has such a function: within the limits of the parser
  (jerry-core/parser/js/js-parser-limits.h:68) every size fits (`SnapshotNoCopy.LimitsFit`).
- ecma_save_literals_add_compiled_code reads as many words as there are arguments, from the start
  of the constants, when arguments are mapped. With more arguments than literals, as for
  `function f(a, a, a) { arguments }` (jerry-core/parser/js/js-parser.c:1341-1355), it reads byte code, and
  what looks like a literal there is collected and looked up. The guard is
  `SnapshotStray.Guarded`: in no function with mapped arguments are they more than the literals,
  unless it has no byte code. For guarded code exactly the literals are collected
  (`SnapshotStray.CollectedIsLiteral`); for other code, and only for it, some byte code brings a word
  that is no literal (`SnapshotStray.StrayExactly`), and one that is no value
  (`SnapshotSave.GuardExactly`).
  `SnapshotCollect.ArgumentsExample` is such code. `GenerateSnapshot` ends in `StrayWord` exactly
  when a word that is no value is looked at: a string or bigint while the sizes are summed and there
  is room, a float, whose size is known, when the table is written; never for guarded code.
- The length byte of the first message of `_send_string` is true exactly for largest message sizes
  of at least 5 (`Fragments.FirstLengthTrue`). For the sizes 5 to 9 every expression is refused, and
  for 5 every source (`Fragments.Client.SendString`). The server announces more than that.
- `extract_character_pair_ranges` alone does not undo itself: when pairs start at k and at k + 1 and
  k - 1 is in both tables with its inverse, the pair at k + 1 is taken into the range of k, which
  then decodes to other entries than those in the tables.
  It takes out exactly what its ranges decode to if and only if there is no such k
  (`Unicode.ExtractCharacterPairRanges`); `Unicode.ClashExample` gives tables with such a k, and
  `Unicode.NoPairsMeet` shows that `extract_ranges` leaves none.
- The comment of ceil.c says that it rounds toward minus infinity; the code rounds up, and the
  model follows the code.

## Model

| member | source | states |
|---|---|---|
| Sqrt.Sqrt | jerry-math/sqrt.c:104-241 | For every double and each of the four rounding directions: infinities, NaNs, zeros and negative numbers as listed in the source; for every positive finite x, normal or subnormal, the result is the correctly rounded root (nearest, least above, greatest below), stated over all doubles |
| Sqrt.PositiveRoot | jerry-math/sqrt.c:131-241 | The whole computation for positive finite x, from the words to the correctly rounded result |
| Sqrt.Normalize | jerry-math/sqrt.c:131-150 | Ends with a 53-bit significand and an exponent that stand for the same value as x, for normal and subnormal x; the bit or shift left open by a shift by 32 does not matter |
| Sqrt.ShiftWords | jerry-math/sqrt.c:135-140 | The loop ends and multiplies the two-word value by 2^-m |
| Sqrt.ShiftHigh | jerry-math/sqrt.c:141-144 | The loop ends with bit 20 set and no bit lost |
| Sqrt.ShiftTogether | jerry-math/sqrt.c:146-147 | Both words together are multiplied by 2^i; for i = 0 either outcome of the shift by 32 is allowed |
| Sqrt.HighDigits | jerry-math/sqrt.c:158-176 | After the first loop q is the root truncated to its high digits, s0 is twice it, and the remainder is exact |
| Sqrt.HighDigit | jerry-math/sqrt.c:166-175 | One round of the first loop: which digit is taken, and that no word overflows |
| Sqrt.LowDigits | jerry-math/sqrt.c:178-201 | After the second loop [q, q1] is the truncated root and [ix0, ix1] the exact scaled remainder |
| Sqrt.LowDigit | jerry-math/sqrt.c:181-200 | One round on two words: the comparison, the carry into s0 and both borrows are those of 64-bit numbers |
| Sqrt.RootStep | jerry-math/sqrt.c:48-77 | The recurrence (2) to (5) keeps: i w = 2 (n - q^2) and n < (q + w)^2, whether or not the digit is taken |
| Sqrt.RootBound | jerry-math/sqrt.c:77-80 | The scaled remainder is below 4 q + 2 w, so it fits its words |
| Sqrt.RoundBit | jerry-math/sqrt.c:205-230 | A root of an integer that ends in 1 after truncation is never exact, and never a tie |
| Sqrt.RoundDigits | jerry-math/sqrt.c:205-230 | What the probes of the rounding direction do to the digits, including the carries out of q1 |
| Sqrt.NearestRoot | jerry-math/sqrt.c:225-228 | (d + 1) / 2 is nearest to the exact root among all doubles, and there is no tie |
| Sqrt.DirectedRoot | jerry-math/sqrt.c:208-224 | d / 2 is the greatest double below the root, and d / 2 + 1 the least above unless the root is exact |
| Sqrt.Assemble | jerry-math/sqrt.c:231-240 | The words of the result are those of the 64-bit number made of significand and exponent |
| Sqrt.ScaledRadicand | jerry-math/sqrt.c:38-44 | Doubling the significand for odd exponents and halving the exponent gives an exact square scaling |
| Fmod.Fmod | jerry-math/fmod.c:38-232 | For all x and y: NaN, or x itself, or exactly |x| mod |y| in units of 2^-1074 with the sign of x, also for subnormal arguments and results and for a zero result |
| Fmod.Divide | jerry-math/fmod.c:70-232 | The case |x| > |y|: exact result with the sign of x |
| Fmod.Ilogb | jerry-math/fmod.c:70-114 | The exponent found by the loops, and that they end |
| Fmod.CountDown | jerry-math/fmod.c:75-86 | The loop counts the leading zero bits of a word and ends |
| Fmod.Align | jerry-math/fmod.c:116-152 | The significand is moved to bit 52 without losing a bit, in all three ranges of the shift |
| Fmod.Subtract | jerry-math/fmod.c:158-163 | The difference of two-word numbers with its borrow |
| Fmod.ShiftSubtract | jerry-math/fmod.c:154-189 | The loop keeps x < 2 y and x congruent to the scaled original; it ends with x 2^n mod y |
| Fmod.RemDouble | jerry-math/fmod.c:156-178 | One doubling step of the remainder |
| Fmod.RemSubtract | jerry-math/fmod.c:168-177 | One subtraction step of the remainder |
| Fmod.Renormalize | jerry-math/fmod.c:196-201 | The loop ends and keeps the value |
| Fmod.RemValue | jerry-math/fmod.c:116-189 | The remainder of aligned significands, put back in place, is the remainder of the values |
| Fmod.Pack | jerry-math/fmod.c:203-231 | Normal and subnormal output: the value is exactly v with the sign sx; the right shifts discard only zero bits |
| RemPio2.IntegerStage | jerry-math/trig.c:226-302 | n plus or minus the fraction left in z and iq is the product modulo 8; the fraction is below 1/2 when ih = 0 and in (0, 1/2] otherwise; all of q0 > 0, q0 = 0, q0 < 0; no operation on doubles rounds; z is a multiple of 2^q0 below 1, and 0 unless q0 is negative |
| RemPio2.Distill | jerry-math/trig.c:228-234 | The 24-bit chunks are in range and conserve the product; every value of z and fw is a double |
| RemPio2.CarryUp | jerry-math/trig.c:231-233 | One step of the distillation moves value between chunks without loss |
| RemPio2.TrimInteger | jerry-math/trig.c:237-240 | What is trimmed is a multiple of 8 and the integer part n, without rounding |
| RemPio2.ComplementIsDouble | jerry-math/trig.c:294-301 | A fraction of at least 1/2 and its complement, with or without the carry, are doubles |
| RemPio2.SplitTop | jerry-math/trig.c:244-247 | For q0 > 0 the integer bits leave the top chunk, and ih says whether the rest is at least 1/2 |
| RemPio2.Complement | jerry-math/trig.c:261-277 | The chunks become the base minus their value; the carry says whether any was nonzero |
| RemPio2.MaskTop | jerry-math/trig.c:278-293 | Masking the top chunk makes it the complement with respect to the point |
| RemPio2.Complemented | jerry-math/trig.c:258-302 | (n, f) becomes (n + 1, 1 - f) |
| RemPio2.PlaceBelow | jerry-math/trig.c:253-256 | For q0 < 0 testing z >= 1/2 is testing the whole fraction |
| FloorCeil.Floor | jerry-math/floor.c:42-130 | For finite x the integral double with floor(x) <= x < floor(x) + 1 and the sign of x, zeros included; infinities and NaNs are kept |
| FloorCeil.Ceil | jerry-math/ceil.c:42-131 | For finite x the integral double with ceil(x) - 1 < x <= ceil(x) and the sign of x |
| FloorCeil.FloorIsGreatest | jerry-math/floor.c:26-27 | No integral double above floor(x) is at most x |
| FloorCeil.CeilIsLeast | jerry-math/ceil.c:26-27 | No integral double below ceil(x) is at least x |
| FloorCeil.CeilIsNegatedFloor | jerry-math/ceil.c:42-131 | ceil(x) = -floor(-x) for every finite x, as words, zeros included |
| FloorCeil.Determined | jerry-math/jerry-math-internal.h:54-62 | A finite double is determined by its sign and magnitude |
| FloorCeil.FractionRounds | jerry-math/floor.c:64-122 | Clearing the fraction bits, after adding one above them, rounds away from zero; the carry goes from word to word and into the exponent |
| FloorCeil.CarryBranch | jerry-math/floor.c:105-118 | The low word with its carry: rounded away from zero |
| FloorCeil.AddBit | jerry-math/floor.c:111-116 | j = i1 + (1 << n) wraps around exactly when j < i1 |
| Layout.ApplyPatchAt | jerry-core/api/jerry-snapshot.c:495-538 | What a pass over one block changes: constants and trailing values, the reference counter, nothing else |
| Layout.PatchCompose | jerry-core/api/jerry-snapshot.c:1198-1233 | Two passes over a block are one pass |
| Layout.BlockExtensional | jerry-core/api/jerry-snapshot.c:253-274 | A block is determined by its fixed bytes and its three runs of words |
| Snapshot.WalkIsRecursion | jerry-core/api/jerry-snapshot.c:470-544 | A pass made block by block over the flat form gives the flat form of the pass over the tree |
| Snapshot.StartsArePreorder | jerry-core/api/jerry-snapshot.c:142-299 | Stepping by the size in each header meets exactly the starts of the recursive writer, in preorder |
| Snapshot.LoadEmitted | jerry-core/api/jerry-snapshot.c:563-748 | Loading the flat form of a tree gives the tree with its literals resolved, self references included |
| Snapshot.PatchTwice | jerry-core/api/jerry-snapshot.c:463-545 | Two passes over a tree are one pass |
| Snapshot.SaveLoad | jerry-core/api/jerry-snapshot.c:463-748 | Setting the literal offsets and loading is the identity on trees; only the reference counters become 1 |
| Snapshot.LookupsStopExactly | jerry-core/api/jerry-snapshot.c:495-534 | The unbounded searches all end inside the literal map if and only if no constant is the zero bigint |
| Snapshot.BigintZeroIsNotFound | jerry-core/ecma/base/ecma-literal-storage.c:418-444 | A class whose only constant is 0n is valid code, and its search runs past the map |
| Snapshot.OverWalk | jerry-core/api/jerry-snapshot.c:1098-1159 | A property of all values met by the walk is that property of the tree |
| Snapshot.UpdateKeepsMeaning | jerry-core/api/jerry-snapshot.c:1162-1239 | Code with updated offsets, loaded from the new table, is the code loaded from the old table |
| SnapshotPasses.FindLiteral | jerry-core/api/jerry-snapshot.c:505-508 | The search ends at the first entry of the value, or runs past the map |
| SnapshotPasses.SetConsts | jerry-core/api/jerry-snapshot.c:495-512 | The loop over the constants, in place; it fails exactly when some value is not in the map |
| SnapshotPasses.SetTrailing | jerry-core/api/jerry-snapshot.c:514-534 | The loop over the trailing values, in place; it fails exactly when some value is not in the map |
| SnapshotPasses.SetBlock | jerry-core/api/jerry-snapshot.c:475-538 | One function of the pass, in place in the buffer; the exact condition for failing |
| SnapshotPasses.JerrySnapshotSetOffsets | jerry-core/api/jerry-snapshot.c:463-545 | The pass over the buffer is the block-by-block pass; nothing outside is changed; it fails exactly when some value of the walk is not in the map |
| SnapshotPasses.UpdateRun | jerry-core/api/jerry-snapshot.c:1198-1212 | Either loop of update_literal_offsets, in place |
| SnapshotPasses.UpdateLiteralOffsets | jerry-core/api/jerry-snapshot.c:1164-1239 | The pass over the buffer is the block-by-block pass; nothing outside is changed |
| SnapshotPasses.AppendValue | jerry-core/ecma/base/ecma-literal-storage.c:418-444 | The pool gains the value when it can be a literal and is missing |
| SnapshotPasses.ScanRun | jerry-core/api/jerry-snapshot.c:1132-1153 | The pool keeps what it has, gains all that the run leads to, and nothing else |
| SnapshotPasses.ScanSnapshotFunctions | jerry-core/api/jerry-snapshot.c:1098-1159 | The pool has all that any block leads to, each value once, and nothing else |
| SnapshotWriter.AddRegex | jerry-core/api/jerry-snapshot.c:186-238 | A regular expression is written in its flat form; the exact condition for lack of room |
| SnapshotWriter.AddCompiledCode | jerry-core/api/jerry-snapshot.c:142-299 | On an empty buffer region: either the exact first error, or the flat form of the tree at the write offset, the flags found, and no byte changed before |
| SnapshotWriter.OngoingEnd | jerry-core/api/jerry-snapshot.c:276-298 | After the last sub-function the whole tree is written |
| SnapshotRoom.RefusalExactly | jerry-core/api/jerry-snapshot.c:142-299 | Below 2^31: without bit 6 in any node the code is accepted if and only if the bytes written fit; with bit 6 in some node and room for all, the error is that of tagged templates |
| SnapshotRoom.AcceptedExactly | jerry-core/api/jerry-snapshot.c:142-299 | For every tree, offset and length: accepted if and only if no node has bit 6, the last node starts below 2^31, and the bytes written fit |
| SnapshotRoom.SFlagIsRefused | jerry-core/api/jerry-snapshot.c:171-178 | A class with one regular expression with the s flag is refused however large the buffer is |
| SnapshotRoom.RefusalIsFirst | jerry-core/api/jerry-snapshot.c:142-299 | For every tree, offset and length the error is that of the first node in preorder with one: too large an offset, then bit 6, then lack of room |
| SnapshotRoom.AnyAre | jerry-core/api/jerry-snapshot.c:36-57 | The two flags of a file stand for some regular expression and some class among the nodes |
| SnapshotRoom.PastBufferExactly | jerry-core/ecma/base/ecma-literal-storage.c:544-552 | The exact condition, for every tree and length, for accepted code that ends beyond the buffer, where the room wraps around |
| SnapshotRoom.PastBufferNeeds | jerry-core/api/jerry-snapshot.c:219-229 | Accepted code ends beyond the buffer only by the padding of a last pattern, by less than 8 bytes, and only if the length is no multiple of 8 |
| SnapshotPast.PastBufferExample | jerry-core/ecma/base/ecma-literal-storage.c:544-552 | A valid class with a string constant and the pattern a, accepted in 55 bytes, ends at byte 56; its literals are values, their table is not empty, and the wrapped room lets it start there |
| SnapshotRoom.PaddingIsFree | jerry-core/api/jerry-snapshot.c:219-229 | The flat form of a tree stays one whatever the padding of the last pattern is |
| SnapshotFile.LoadHolds | jerry-core/api/jerry-snapshot.c:929-1059 | Every function of a well-formed file is loaded, and there is no other |
| SnapshotFile.EmittedAt | jerry-core/api/jerry-snapshot.c:980-1003 | Function j of a code area is found at its stored offset |
| SnapshotFile.StorageExists | jerry-core/ecma/base/ecma-literal-storage.c:528-640 | There is a literal storage that interns as assumed, with a string that is too long |
| SnapshotFile.ShortMeans | jerry-core/ecma/base/ecma-literal-storage.c:702-705 | The strings that the storage finds again are those whose entry is read back as the string |
| SnapshotFile.MagicMeans | jerry-core/api/jerry-snapshot.c:60-80 | A file is accepted by its first bytes, JRRY and version 66, and no flag but bits 0 and 2 |
| SnapshotFile.StringReadExactly | jerry-core/ecma/base/ecma-literal-storage.c:634-645 | A string is read back from its entry if and only if its size fits 16 bits; otherwise a shorter prefix is read, the empty one for 65536 bytes |
| SnapshotCollect.CollectLiterals | jerry-core/ecma/base/ecma-literal-storage.c:449-517 | The pool gains every value that occurs in the tree and can be a literal, and nothing else |
| SnapshotCollect.ArgumentsExample | jerry-core/ecma/base/ecma-literal-storage.c:484-490 | Valid parsed code in which a value occurs that is neither a constant nor a value at the end |
| SnapshotStray.CollectedIsLiteral | jerry-core/ecma/base/ecma-literal-storage.c:449-517 | For every tree and every word that can be a literal: a literal is collected, and when no function has more mapped arguments than literals, only literals are |
| SnapshotStray.StrayExactly | jerry-core/ecma/base/ecma-literal-storage.c:484-490 | For every tree and every word that can be a literal and is none of the tree: some other byte code makes the word collected if and only if the tree is not guarded |
| SnapshotSave.GuardExactly | jerry-core/ecma/base/ecma-literal-storage.c:449-517 | Whatever the byte code is, only words that are values are collected, if and only if the tree is guarded |
| SnapshotSave.SaveLiterals | jerry-core/ecma/base/ecma-literal-storage.c:528-652 | The exact condition for each end: a word that is no value is looked at, in the loop over the sizes or, a float, when it is written; the table has no room; it starts behind the buffer, where the room wraps around; otherwise the table is behind the code, and an empty one fits anywhere |
| SnapshotSave.ShortExactly | jerry-core/ecma/base/ecma-literal-storage.c:634-645 | Setting the literal offsets and resolving them again is the identity on a tree, but for the reference counters, if and only if none of its strings has more than 65535 bytes |
| SnapshotPointers.AreaIsFree | jerry-core/parser/js/byte-code.h:846-880 | A code area all of whose constants and names are direct values or offsets is free of pointers when read byte by byte as the structures lay it out |
| SnapshotSave.FileIsFree | jerry-core/api/jerry-snapshot.c:495-538 | When the constants are direct values, strings, floats and bigints, no word of a constant or a name in the file is a pointer: each is direct or an offset in the table |
| SnapshotSave.FileHolds | jerry-core/api/jerry-snapshot.c:827-867 | Header, patched code and table together are a well-formed file; it loads as the saved code if and only if no string is too long for its size field |
| SnapshotSave.GenerateSnapshot | jerry-core/api/jerry-snapshot.c:812-877 | Saving then loading is the identity on parsed code if and only if no string of it is too long; no word of the file is a pointer; the exact error, the first in writing order, for every buffer, with a zero bigint and with stray words too; guarded code has no stray word; the pool is exactly the values that occur; the size, both flag bits and the literal table of the file, also when its last padding is beyond the buffer |
| SnapshotMerge.CollectInputs | jerry-core/api/jerry-snapshot.c:1270-1309 | The first rejected input, or the counts, flags of all inputs and exactly the literals that they lead to |
| SnapshotMerge.FlagsJoined | jerry-core/api/jerry-snapshot.c:1290-1290 | A bit of the flags is set if and only if it is in the flags of some input |
| SnapshotMerge.CopyInput | jerry-core/api/jerry-snapshot.c:1346-1368 | One code area is moved and its literals updated; its function offsets are shifted |
| SnapshotMerge.CopyInputs | jerry-core/api/jerry-snapshot.c:1340-1371 | All code areas, one after the other, with all function offsets |
| SnapshotMerge.MergedLoads | jerry-core/api/jerry-snapshot.c:1249-1379 | The functions of the merged code load as those of the inputs |
| SnapshotMerge.MergeSnapshots | jerry-core/api/jerry-snapshot.c:1249-1391 | Exact errors, with the size of a table for exactly the values that the inputs lead to; otherwise loading function j of the result gives what loading it from its own input gave, the code areas follow the header without a gap and end at the literal table, and each of the two flag bits is set if and only if some input has it, and no other |
| SnapshotMerge.MergeOfMerge | jerry-core/api/jerry-snapshot.c:1249-1391 | A merge is an acceptable input; with other files in its place, the inputs lead to the same values, have the same totals and rejections as all files at once, and a file is a merge of the one if and only if it is a merge of the other |
| SnapshotMerge.MergeTwice | jerry-core/api/jerry-snapshot.c:1249-1391 | Two runs, the second over the output of the first: every error, lack of room for the literals included, and the result are those that one run over all files promises |
| SnapshotMerge.MergedLeads | jerry-core/api/jerry-snapshot.c:1162-1239 | The functions of the merged code lead to exactly the values that the inputs lead to |
| SnapshotReach.SameTableSize | jerry-core/ecma/base/ecma-literal-storage.c:555-588 | The size of the literal table depends on the values only, not on their order |
| SnapshotNoCopy.RedirectBlock | jerry-core/api/jerry-snapshot.c:636-694 | The short block that points to the byte code in the snapshot |
| SnapshotNoCopy.RedirectMeans | jerry-core/api/jerry-snapshot.c:612-672 | Read from the header fields: when a block is redirected, how much of its end is kept, and that the new size is the least whole number of units with room |
| SnapshotNoCopy.RedirectView | jerry-core/api/jerry-snapshot.c:636-694 | The short block has the same flags, counters, literals, references and trailing values |
| SnapshotNoCopy.InfoSurvivesExactly | jerry-core/api/jerry-snapshot.c:636-694 | The engine reads the extended info word of the loaded function, whatever it is, if and only if the code is copied, or one more word is kept for a resource name or tagged templates, and the new size fits |
| SnapshotNoCopy.InfoLostExample | jerry-core/api/jerry-snapshot.c:642-666 | A valid class whose word is lost without a resource name |
| SnapshotNoCopy.SharedFits | jerry-core/api/jerry-snapshot.c:656-672 | The block that the loader makes is a function if and only if its size fits the field |
| SnapshotNoCopy.TruncatedExample | jerry-core/api/jerry-snapshot.c:656-672 | A valid function whose new block has a size that does not fit |
| SnapshotNoCopy.LimitsFit | jerry-core/parser/js/js-parser-limits.h:54-70 | With fewer than 2^15 registers and literals in each function every new size fits, however many arguments there are |
| SnapshotNoCopy.SharedBlock | jerry-core/api/jerry-snapshot.c:636-748 | The copied and the shared block agree in flags, counters, literals and trailing values; the shared one is the copy or points to the original byte code, and has the info word as far as it is kept |
| SnapshotNoCopy.SharingIsCopying | jerry-core/api/jerry-snapshot.c:563-748 | Loading without copying succeeds exactly when all new sizes fit, and then gives the same functions all the way down, as in SharedBlock |
| HeapSort.TotalOrder | jerry-core/api/jerry-snapshot.c:1405-1418 | The comparison by size and then by bytes is a strict total order |
| HeapSort.LessMeans | jerry-core/api/jerry-snapshot.c:1405-1418 | One literal is less than another if and only if it is shorter, or of the same size with a smaller byte where they first differ |
| HeapSort.HeapMax | jerry-core/api/jerry-snapshot.c:1425-1447 | A greatest of a node and its children |
| HeapSort.DownHeap | jerry-core/api/jerry-snapshot.c:1452-1475 | Restores the heap from start on, permutes the front, and leaves the rest alone |
| HeapSort.RootIsMax | jerry-core/api/jerry-snapshot.c:1496-1505 | The root of a heap is its largest element |
| HeapSort.BuildHeap | jerry-core/api/jerry-snapshot.c:1489-1494 | The loop ends after index 0 by wrapping around, with a heap |
| HeapSort.Sort | jerry-core/api/jerry-snapshot.c:1480-1506 | A permutation of the input in which sizes do not descend, and of two of one size the one with the smaller first differing byte is first |
| LiteralList.AppendChars | jerry-core/api/jerry-snapshot.c:1513-1538 | Appends, or marks the lack of room |
| LiteralList.WriteLine | jerry-core/api/jerry-snapshot.c:1745-1772 | One line of the list: length, space, bytes, line feed; or lack of room |
| LiteralList.WriteList | jerry-core/api/jerry-snapshot.c:1742-1782 | The whole text, or 0 exactly when it does not fit |
| LiteralList.ReadList | jerry-main/main-jerry-snapshot.c:346-374 | The loop finds the items of the file in order |
| LiteralList.ItemsRead | jerry-main/main-jerry-snapshot.c:355-366 | From the start of line k the loop finds the literals from k on |
| LiteralList.ListRoundTrip | jerry-main/main-jerry-snapshot.c:346-374 | The list written for non-empty strings of any bytes, followed by a zero byte, is read back as the same strings in the same order |
| SnapshotLiterals.GetLiterals | jerry-core/api/jerry-snapshot.c:1600-1782 | List mode as a whole: refused files give nothing; otherwise the texts of exactly the non-magic strings that the code area leads to, sorted, are written if they fit, and what is written is read back as them |
| SnapshotReach.AllReached | jerry-core/api/jerry-snapshot.c:1098-1159 | A property of everything that some offset leads to holds of all offsets of the walk |
| MagicStrings.StackAtMatches | tools/gen-magic-strings.py:119-136 | At every line the guard stack says, for every valuation, which branches are kept |
| MagicStrings.GuardSetHolds | tools/gen-magic-strings.py:89-92 | The union of the guards on the stack holds exactly when the line is kept |
| MagicStrings.OrderIsSyntactic | tools/gen-magic-strings.py:114-136 | Whether directives are in order does not depend on the truth of the conditions |
| MagicStrings.AddLinesMeaning | tools/gen-magic-strings.py:76-139 | A string is recorded as used under a valuation exactly when a kept line mentions it |
| MagicStrings.Extractor.ProcessLine | tools/gen-magic-strings.py:76-102 | The mentions of a line under the guards of the stack |
| MagicStrings.Extractor.ProcessFile | tools/gen-magic-strings.py:114-139 | The mentions of all lines of a file |
| MagicStrings.ExtractMagicStringRefs | tools/gen-magic-strings.py:73-157 | Over all files: used under a valuation exactly when a kept line mentions it |
| MagicStrings.MinimalMeaning | tools/gen-magic-strings.py:169-184 | Dropping proper supersets does not change when one of the guard sets holds |
| MagicStrings.Absorb | tools/gen-magic-strings.py:175-184 | The two loops leave exactly the minimal sets |
| MagicStrings.CalculateMagicStringGuards | tools/gen-magic-strings.py:160-192 | The used definitions in their order with their minimal guards |
| MagicStrings.GenerateMagicStringDefs | tools/gen-magic-strings.py:223-238 | For every valuation the preprocessed output is the enabled definitions in order, every directive is in order where it stands, and every group is closed |
| MagicStrings.FirstWithSize | tools/gen-magic-strings.py:246-267 | For every valuation the chain leaves the first enabled definition that is long enough, skipped entries notwithstanding; its directives are in order and it is closed |
| MagicStrings.GenerateFirstMagicStrings | tools/gen-magic-strings.py:241-267 | One such entry for each size; directives in order, groups closed |
| MagicStrings.GenerateHeader | tools/gen-magic-strings.py:200-267 | The whole generator: what the preprocessor leaves of the header, for every valuation, and that the header is well-formed: every directive is in order where it stands, and every group is closed |
| MagicStrings.WantedSurvives | tools/gen-magic-strings.py:160-238 | A definition survives exactly when a source line that mentions it survives |
| MagicStrings.FirstWantedIsFirst | tools/gen-magic-strings.py:241-267 | At most one string for each size, the first that is wanted and long enough |
| MagicStrings.NoLongerString | tools/gen-magic-strings.py:244-245 | With definitions sorted by length no size above the last one is missing |
| Unicode.ScanRanges | tools/gen-unicode.py:372-410 | Ranges of at least two elements, in order, apart, and saying what the table says; every joining pair is in one |
| Unicode.ExtractRanges | tools/gen-unicode.py:356-421 | The ranges, and the two tables without exactly their entries and images |
| Unicode.ScanPairRanges | tools/gen-unicode.py:438-459 | The ranges for any tables, as recorded by their pairs; without a clash they are pair ranges and every pair is in one |
| Unicode.ExtractCharacterPairRanges | tools/gen-unicode.py:424-469 | For any tables: no deletion fails and both tables lose exactly what the ranges decode to, if and only if there is no clash |
| Unicode.ClashShows | tools/gen-unicode.py:438-467 | With a clash the ranges found do not decode to what is taken out, whatever the tables are then |
| Unicode.ClashExample | tools/gen-unicode.py:438-467 | Tables with a clash |
| Unicode.MeetingExample | tools/gen-unicode.py:438-467 | Tables in which a pair starts where another ends, without a clash |
| Unicode.NoPairsMeet | tools/gen-unicode.py:667-674 | After the extraction of ranges no pair starts where another ends, and there is no clash |
| Unicode.ExtractCharacterPairs | tools/gen-unicode.py:472-492 | All bidirectional entries leave both tables and decode to themselves |
| Unicode.ExtractConversions | tools/gen-unicode.py:554-598 | The remaining table, with one to three images for each key, decodes to itself; no key twice, in one length or in two; the keys of each length ascend |
| Unicode.TakenTwice | tools/gen-unicode.py:667-702 | Two extractions after each other are one |
| Unicode.GenerateConversions | tools/gen-unicode.py:664-710 | The six tables decode to exactly the lower-case table, no code point is in two of them, none is listed twice: the tables list as many code points as the table has, the two-way ones are exactly those with a mutual case, and the upper-case table loses exactly their inverses; ranges are in order and do not overlap, and keys ascend, as the searches in lit-char-helpers.c need it; whatever can be in a range is in one |
| Unicode.PairRangesOrdered | tools/gen-unicode.py:438-459 | Ranges of pairs do not overlap when no pair starts where another ends |
| Unicode.GroupKeyAt | tools/gen-unicode.py:554-598 | The keys of a part of the conversions are the first values of its groups |
| Debugger.Multimap.Insert | jerry-debugger/jerry_client_main.py:249-253 | The lists gain the value under its key |
| Debugger.Multimap.Delete | jerry-debugger/jerry_client_main.py:255-261 | The lists lose the value; no empty list stays |
| Debugger.JerryDebugger.constructor | jerry-debugger/jerry_client_main.py:286-300 | The books agree at the start |
| Debugger.JerryDebugger.EnableBreakpoint | jerry-debugger/jerry_client_main.py:1071-1080 | A breakpoint becomes active under a new index and the server is told; an active one is left as it is |
| Debugger.JerryDebugger.DisableBreakpoint | jerry-debugger/jerry_client_main.py:435-440 | An active breakpoint is taken out and the server is told |
| Debugger.JerryDebugger.DeleteIndex | jerry-debugger/jerry_client_main.py:430-447 | Exactly the breakpoint with that index is gone, active or pending; or there is none |
| Debugger.JerryDebugger.DeleteGroup | jerry-debugger/jerry_client_main.py:411-428 | All active, all pending, or both are gone |
| Debugger.JerryDebugger.AddPending | jerry-debugger/jerry_client_main.py:1110-1125 | A request is added once, and the server waits from the first one on |
| Debugger.JerryDebugger.SetBreakpoint | jerry-debugger/jerry_client_main.py:1083-1125 | Exactly the breakpoints asked for become active; else the request may become pending |
| Debugger.SourceMatchesMeans | jerry-debugger/jerry_client_main.py:1088-1095 | A source name matches if and only if it is the whole name or what follows a path that ends in a separator |
| Debugger.JerryDebugger.ReleaseFunction | jerry-debugger/jerry_client_main.py:1042-1055 | The function and its breakpoints leave the books; the server frees the pointer |
| Debugger.JerryDebugger.AddFunctions | jerry-debugger/jerry_client_main.py:997-1002 | New functions join the function list and the line list |
| Debugger.JerryDebugger.ResolvePending | jerry-debugger/jerry_client_main.py:1004-1039 | Each pending breakpoint is found and active, or left for a reason; the server stops waiting when none is left |
| Debugger.JerryDebugger.ParseDone | jerry-debugger/jerry_client_main.py:997-1039 | The end of a parse: both of the above, and active breakpoints keep their index |
| Debugger.JerryDebugger.DoStep | jerry-debugger/jerry_client_main.py:688-842 | Any command or message keeps the books in agreement and does what it says: what is set, deleted, released or reported is, and nothing else changes |
| Debugger.JerryDebugger.Run | jerry-debugger/jerry_client_main.py:688-842 | After any sequence of commands and messages client and server agree, and exactly the reported and not released pointers are known |
| Debugger.NewFunction | jerry-debugger/jerry_client_main.py:201-225 | One breakpoint for each reported line, the last one reported |
| Debugger.Released | jerry-debugger/jerry_client_main.py:1042-1055 | Releasing a function keeps the agreement of the books |
| Fragments.SendAll | jerry-debugger/jerry_client_rawpacket.py:56-64 | All bytes are sent in order, however many each call takes |
| Fragments.RawPacket.GetMessage | jerry-debugger/jerry_client_rawpacket.py:66-92 | A message is taken off the stream as a whole, or the stream stays; what each other answer means; nothing yet only when all that had arrived is read |
| Fragments.WebSocket.SendMessage | jerry-debugger/jerry_client_websocket.py:93-100 | The length byte moves into a masked header |
| Fragments.WebSocket.GetMessage | jerry-debugger/jerry_client_websocket.py:106-135 | As for the raw channel; a closed connection stays closed |
| Fragments.NextMessage | jerry-debugger/jerry_client_rawpacket.py:73-83 | A message taken off a stream of frames is the next one |
| Fragments.NothingLeft | jerry-debugger/jerry_client_rawpacket.py:73-83 | A stream of frames never looks malformed, and while no frame can be read no message is left |
| Fragments.ReadRaw | jerry-debugger/jerry_client_rawpacket.py:66-92 | Any run of blocking and non-blocking calls gives the messages in order, however the stream is cut; on closing all are given and the residue is the rest of the stream |
| Fragments.ReadWeb | jerry-debugger/jerry_client_websocket.py:106-135 | The same for WebSocket frames |
| Fragments.FirstReceived | jerry-core/debugger/debugger.c:935-1042 | What the server makes of the first fragment, for every largest size from 5 on |
| Fragments.NextReceived | jerry-core/debugger/debugger.c:665-729 | What the server makes of the next fragment |
| Fragments.PackedBytes | jerry-debugger/jerry_client_main.py:333-336 | The bytes of a word in either order |
| Fragments.Channel.SendMessage | jerry-debugger/jerry_client_main.py:599-624 | A message with its length byte becomes a frame of the channel |
| Fragments.Client.SendString | jerry-debugger/jerry_client_main.py:578-624 | The bytes sent are frames with true length bytes, none above the largest size and all but the last of that size; the server puts together the text, for an expression with the index of its scope chain in its first four bytes, and refuses exactly an empty one and sizes too small for the first frame |
| Fragments.FirstLengthTrue | jerry-debugger/jerry_client_main.py:591-602 | The length byte of the first message is true if and only if the largest size is at least 5 |

## Left out

- exp, log, pow, the sin, cos and tan kernels and the inverse and hyperbolic functions of jerry-math: their accuracy is a matter of error bounds in real analysis.
- The recompute jump and the floating summation of `__kernel_rem_pio2`: its end depends on the digits of 2/pi.
- Floating-point flags and signaling NaNs: a NaN result is any NaN, and an inexact result raises nothing in the model.
- RemPio2.IntegerStage: the exponent q0 is at least -1071, so that no number below the smallest double is needed; the caller has exponents above -30.
- Realms, the debugger flag and memory statistics of the snapshot code, which depend on build options; static snapshots and the C-format list of literals.
- The parser, the regular expression compiler and the virtual machine: byte code and patterns are bytes, compiled code is a tree.
- The literal storage: an abstract record of which words are values, how large a value is in a table, how many bytes a string has, the table and a map that finds every stored value again, strings of 65536 bytes or more excepted (`SnapshotFile.Interning`, which `SnapshotFile.StorageExists` shows to be possible); values are smaller than 2^31 bytes, and a value that is read from a table exists and is no such string.
- Pointers to compiled functions in memory: a tree with self references stands for them, so that a sub-function shared by two parents would be two trees.
- SnapshotSave.GenerateSnapshot: what the code does to the memory behind the buffer or behind the literal map, or with a word that is no value, where the errors `PastBuffer`, `PastMap` and `StrayWord` stand; the pass over a code area that ends beyond the buffer is made on a copy; options, parsing and freeing. The literals of the code are values.
- SnapshotMerge.MergeSnapshots: buffers below 2^32 bytes, as offsets have 32 bits; inputs that pass the checks of the code are well-formed files.
- SnapshotNoCopy.SharingIsCopying: what the engine makes of a block whose size was cut; it counts as a failure to load.
- SnapshotLiterals.GetLiterals: which strings are magic and what bytes a string has are parameters; the empty string is magic.
- HeapSort.Sort: fewer than 2^31 literals, so that the index of a child does not wrap around; strings are their bytes.
- LiteralList.ListRoundTrip: strings are not empty and shorter than 2^32 bytes, and the file is followed by a zero byte, which strtol needs.
- The text of conditions: a guard is a tree, so that precedence inside a condition (`a || b` next to `&&`), continuation lines and comments are not modelled; nor are the lists of files and lines of each reference, and the warnings.
- read_case_mappings, extract_special_ranges, create_tables and generate_folding of the Unicode generator, and the C functions that look up the tables.
- The order in which a Python dictionary or set gives its elements: any order is allowed.
- Debugger.JerryDebugger.Run: the server gives every breakpoint of a function its own offset and gives out no pointer in use; other reports are passed over.
- Stepping, backtraces, scopes, exceptions, source display, the prompt and the connection handshake of the debugger client.
- Fragments.Client.SendString: the text is its bytes, at most 2^32 - 1 of them; the server is in the mode in which it takes the message.
- Fragments.ReadWeb: frames of one to 125 bytes, as the server sends them; other frames are answered as unexpected.
