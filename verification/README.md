# Verification of the mpact-sim decoder generator and simulator state

A Dafny model of the parts of mpact-sim that do the most reasoning: the generator of binary
instruction decoders (`mpact/sim/decoder`) and three stateful pieces of the simulator library
(`mpact/sim/generic`). `dafny verify dfyconfig.toml` checks all of it.

## What is modelled

**The decoder generator as a compiler.** Field and overlay constraints become masks and values
(`InstructionEncodings`, `Overlays`); encodings are distributed over top-level groups
(`InstructionGroups`), split recursively on the bits that vary, and split groups that did not pay off
are collapsed again (`EncodingGroups`, the classes and their fields as in the generator). The emitted
C++ is a datatype — constant test, bit-compressed index, function table, switch, ordered guarded
returns — with an interpreter (`DecisionTrees`). The reference is a linear scan: the first encoding all
of whose constraints hold. `DecoderCorrectness` proves that running the code of a tree is the scan over
its leaves, and `InstructionGroups.Generate` that the whole generator, from the list of encodings to
the decoder, is right wherever each field name that is tested together has one meaning. `SharedVariables`
says for which lists of encodings that is so on all words, and what goes wrong otherwise. `Emission` holds
the emission of one leaf, `Braces` and `Specializations` the braces of its text, `Extract` the compress-by-mask recipes,
`Sorting` the search for duplicate opcodes.

**Formats and bit fields.** `Formats` places fields and proves the round trips of emitted extractors
and inserters; `BitArrays` does the same for the byte-array routines used beyond 128 bits.

**Template expressions.** `TemplateExpressions` models substitution and constant folding through the
layers of slot inheritance, and proves that meaning is preserved, errors included.

**Inheritance and definition order.** `SlotInheritance` and `DefinitionOrder`.

**Simulator state.** `ComplexResources` (lazily shifted reservation vector, on `WordArrays`),
`ActionPoints` and `Breakpoints`, as state machines over all runs, memory failures included.

Integers of the source that are used as bit patterns are sets of bit positions (`Words`): `&`, `|`,
`& ~`, `^` are intersection, union, difference and symmetric difference, `Num` is the number. A
`uint64_t` is such a set below position 64, and `Shl64` loses what is shifted out. `Folding` is a proof
device that keeps a definition hidden until it is needed.

## Where the code does not do what it promises

- **Same name, other bits.** The variables of a leaf or switch case are keyed by field name only. Two
  encodings that are tested there and whose formats have fields of the same name at different positions
  share a variable, and the second is decoded from the bits of the first (`SharedFieldWrong`). For two
  encodings with the same opcode bits every decoder that may be generated is right, for all comparisons and
  words, exactly when the two sources have the same value in every word with the opcode (`SharingIff`).
  `Generate` is right on each word on whose way every name has one meaning, so on all words for lists
  of encodings with `CanShare`; `PairsSuffice` gives a condition on the list for that. Dropped
  constraints and encodings in other leaves or cases do not matter.
- **Specializations of plain opcodes.** The closing brace of the `if` of an encoding with specializations is
  emitted even when no condition is left and the `if` is not (`mpact/sim/decoder/encoding_group.cc:535-588`).
  The braces of a decoder match exactly when every encoding with specializations keeps a condition in the leaf or
  case where it is tested (`ArmBalancedIff`, `BalancedTreeIff`, `Generate`); `SpecializedOpcode` gives lists for which
  they do not.
- **Several top-level groups.** The emitted top-level function declares `auto opcode` for each group in one
  scope (`mpact/sim/decoder/instruction_group.cc:213-236`), which is well formed exactly for one group
  (`TopLevelIff`), that is, for at most one encoding or a significant bit common to all (`OneGroupIff`,
  `Generate`); `IllFormed` gives lists for which it is not. If every declaration is read as an assignment the
  function tries the groups in turn.
- **Duplicate opcodes are not reported.** Something is reported exactly when an opcode table holds two
  encodings with one discriminator value (`CheckEncodings`). Opcode tables need specializations on every
  encoding, and specializations are added after the search (`mpact/sim/decoder/bin_format_visitor.cc:215-221`):
  nothing is reported then (`CheckAll`), not even two encodings with the same mask and value
  (`DuplicatesUnreported`).
- **Overlay extractors.** The emitted statements shift a masked word of up to 16 bits and a short literal as an `int`,
  longer words in their own type (`mpact/sim/decoder/overlay.cc:224-257`). The value is right on all words exactly
  when no component has bits beyond the type of its operand, and an `int` that may have its top bit set has nothing but
  constant ones above it in the result (`TypedIff`, by the rules of C++17). A bit in front of 32 zeros in a format of at
  most 32 bits is lost (`TypedLoss`); a constant one at bit 31 fills the upper half of a longer result (`TopBit`).
- **Overlay inserters.** The emitted function takes the value in the integer type of the format
  (`mpact/sim/decoder/format.cc:545-558`), so bits of an overlay longer than that type are cut off before they reach
  the word. All values come back exactly when the overlay's bits were zero before and every value bit that goes to
  the word fits the type (`OverlayRoundTripIff`, `EmittedRoundTripIff`). `CutImmediate` covers `imm18` of format `CI` in
  `mpact/sim/decoder/test/testfiles/riscv32c.bin_fmt:109`, whose extractor is right.
- **Reservation vectors.** For gaps of at least a word and less than the depth the words move the wrong way
  (`mpact/sim/generic/complex_resource.cc:66-72`); the shift is right on all vectors exactly for gaps below
  64 or of at least the depth (`ShiftIff`). If the depth does not fill whole words the mask keeps the wrong
  bits of the last one (line 44); exactly the cycles below the depth can be reserved if and only if the
  depth is a multiple of 64 (`ReservableIff`).
- **Format checks.** A second call of `ComputeAndCheckFormatWidth` after a failed one checks no widths. It gives
  the same verdict exactly when the parts fill the word, or the base format or the overlays are at fault, or
  nothing of positive width comes before the first unknown format (`CheckTwice`); `SecondCallPasses` gives formats
  that fail once and then pass.
- **Inheritance checks.** A base leaves a cycle exactly when it is the slot itself or inherits from it, and such a
  base is rejected exactly when the slot has bases already (`CycleIff`). So a slot without bases accepts itself
  (`SelfAccepted`), and also a slot that inherits from it (`DerivedAccepted`); on a cycle `CheckPredecessors`
  need not terminate (a base that is among the slot's own predecessors is rejected at once). `CheckPredecessors`
  looks at the slot alone, too: adding a base to a slot that others inherit from already can leave two paths to one
  ancestor (`LateBase`). Inheritance stays free of cycles and diamonds exactly when the base is another slot and every
  inheriting slot would accept it (`KeepsTreeIff`).
- **Breakpoints.** If the original instruction cannot be written back while a breakpoint is cleared and nothing
  else keeps the address active, the action is gone but the breakpoint stays (`ClearFailsIff`): it can be neither
  cleared nor set again (`Dangling`). `ClearAllActionPoints` restarts the ids, so that a stale breakpoint can
  remove another client's action (`StaleBreakpoint`); it is harmless exactly when there are no breakpoints
  (`ClearAllActionPointsIff`).
- **Template functions.** Evaluation refuses a call with an argument that fails, which is final only if the
  function is strict (`StrictIff`); `abs`, the only function, is.
- `PerformActions` at an address without action point logs an error and goes on to use the missing entry; the
  model returns an error.

## Assumptions

- Instruction words have at most 64 bits. Discriminators have at most 30 bits, overlays in constraints at
  most 30, and constrained fields at most 30, because the source shifts a 32-bit `int` by these widths.
- The masked constraints of one encoding agree where they overlap, and no overlay repeats a bit. What happens
  otherwise is stated exactly (`MaskedCompareIff`, `ValueOfFieldIff`).
- A name that is tested and stands for an overlay of constant zeros has no meaning (`Readable`): no extraction is
  emitted for it, so its variable has no value.
- A specialization has at least one constraint, as the grammar demands; without one the emitted text would return in the
  middle of an `if`.
- Emitted code follows the rules of C++17, with an `int` of 32 and a `long` of 64 bits. The sign extension of a signed
  overlay shifts in two's complement.
- `std::sort` is any method whose result is a sorted permutation; iteration over hash sets and maps is in any
  order.
- Slots, bundles: the base relation has no cycles to begin with, given as a rank. Memory and the clock are parameters: a
  write fails at the addresses in a given set, time is the argument `now`.

## Model

| member | source | states |
|---|---|---|
| Extract.GetExtractionRecipe | mpact/sim/decoder/extract.cc:51-80 | for every mask the recipe has non-negative shifts and disjoint step masks, and applying it to any word is the parallel bit compress by the mask; no step for the empty mask |
| Extract.ExtractValue | mpact/sim/decoder/extract.cc:29-36 | the loop computes what the recipe denotes: the union of the shifted and masked words |
| Extract.CompressBits | mpact/sim/decoder/extract.cc:51-80 | bit k of the compressed word is the bit of the word at the k-th lowest set position of the mask, and no bit above the number of set positions is set |
| Extract.CompressInjective | mpact/sim/decoder/extract.cc:51-80 | two words compress to the same value exactly when they agree under the mask |
| Extract.IndexInjective | mpact/sim/decoder/encoding_group.cc:151-160 | discriminator values, as the numbers used for tables and switches, are equal exactly when the discriminator bits are |
| Extract.IndexInBounds | mpact/sim/decoder/encoding_group.cc:134-135 | every discriminator value is below the table size |
| Extract.IndexMonotone | mpact/sim/decoder/encoding_group.cc:85-86 | ordering by masked value is ordering by discriminator value, both directions |
| Overlays.FieldOfValue | mpact/sim/decoder/overlay.cc:171-206 | spreading the value of a word gives the word under the overlay's mask |
| Overlays.ValueOfFieldIff | mpact/sim/decoder/overlay.cc:171-206 | reading back a spread value returns it, for every value with the right constant bits, exactly when the overlay repeats no bit |
| Overlays.CompareMasked | mpact/sim/decoder/overlay.cc:171-206 | for constant-free overlays comparing the value is comparing the masked word with the spread value |
| Overlays.Layout.GetValue | mpact/sim/decoder/overlay.cc:175-192 | the loop over components reads the value of a complete overlay bit by bit from the positions the components name |
| Overlays.Layout.GetBitField | mpact/sim/decoder/overlay.cc:195-206 | the loop puts every bit of the value at its word position and drops constants |
| Overlays.Layout.WriteSimpleValueExtractor | mpact/sim/decoder/overlay.cc:224-257 | the emitted straight-line statements compute GetValue on every word whenever one is emitted, none is emitted exactly for constant zeros, and in the integer types of the emitted C++17 code the value is right on all words of the format, in a result of any length from the overlay's own, exactly as TypedIff states |
| Overlays.TypedIff | mpact/sim/decoder/overlay.cc:224-257 | the typed statements give the overlay value of every word of the format exactly when there is a statement, every referenced bit and every one bit of a literal lies within the type of its operand, and an int whose top bit may be set has only constant ones, or nothing, above it in the result; an undefined shift counts as wrong |
| Overlays.TypedLoss | mpact/sim/decoder/overlay.cc:224-257 | with a bit of a format of at most 32 bits placed in front of 32 or more zeros, every word that has the bit gets a wrong value or an undefined shift |
| Overlays.TopBit | mpact/sim/decoder/overlay.cc:224-257 | a literal of up to 31 bits with a one as bit 31 is right on every word in a result of 32 bits, and with a constant zero above it wrong on every word |
| Overlays.ShortRight | mpact/sim/decoder/overlay.cc:224-257 | in results of up to 32 bits every value is right |
| Overlays.WideRight | mpact/sim/decoder/overlay.cc:224-257 | in formats of more than 32 bits every value of an overlay is right whose literals are zero or longer than 31 bits |
| Overlays.CompleteLayout | mpact/sim/decoder/overlay.cc:149-167 | components whose widths add up are laid out without gap, inside the word, with the mask of their word bits |
| Overlays.Overlay.AddBitConstant | mpact/sim/decoder/overlay.cc:61-66 | a literal component is appended and the overlay has to be extracted |
| Overlays.Overlay.AddFieldReference | mpact/sim/decoder/overlay.cc:69-82 | a whole field of any width is appended, or an error without change if the field is unknown |
| Overlays.Overlay.AddReferences | mpact/sim/decoder/overlay.cc:85-147 | bit ranges of a field or of the format are appended up to the first one out of range or without bits, which is an error |
| Overlays.ReferencesName | mpact/sim/decoder/overlay.cc:85-147 | the appended components name exactly bits last to first of the ranges before the first bad one, in order, and there is a bad one exactly if that is an error |
| Overlays.Overlay.ComputeHighLow | mpact/sim/decoder/overlay.cc:149-167 | positions and mask are computed once; an overlay as wide as declared, with references of 1 to 63 bits, has a valid layout then, and each value bit comes from the bit of the field, of the format or of the literal that its component names |
| Overlays.Overlay.CheckWidth | mpact/sim/decoder/bin_format_visitor.cc:881-887 | an overlay is refused exactly when the widths of its components do not add up to the declared width |
| Overlays.Overlay.GetValue | mpact/sim/decoder/overlay.cc:171-193 | an overlay that is not as wide as declared has no value, any other the value read through its layout |
| InstructionEncodings.MaskedHolds | mpact/sim/decoder/instruction_encoding.cc:261-281 | an equality on a field or constant-free overlay holds exactly when the word under the source's bits equals the spread value |
| InstructionEncodings.MaskedCompare | mpact/sim/decoder/instruction_encoding.cc:261-281 | (word & mask) == value exactly when every equality holds, for agreeing constraints |
| InstructionEncodings.MaskedCompareIff | mpact/sim/decoder/instruction_encoding.cc:261-281 | that comparison is right on every word if and only if the constraints agree where they overlap |
| InstructionEncodings.OrderIrrelevant | mpact/sim/decoder/instruction_encoding.cc:221-239 | mask and value do not depend on the order in which constraints were added |
| InstructionEncodings.CreatedRelation | mpact/sim/decoder/instruction_encoding.cc:128-219 | an accepted constraint with a number holds exactly for the words in which the source, read as signed or unsigned as declared, is ==, !=, <, <=, > or >= the number, as requested |
| InstructionEncodings.CreatedIff | mpact/sim/decoder/instruction_encoding.cc:128-219 | a constraint is accepted exactly for a known field below 64 bits or overlay, a number in the range of its width, and, for a signed source, == or !=; fields go before overlays, and each refusal has its error |
| InstructionEncodings.ComparisonRelation | mpact/sim/decoder/instruction_encoding.cc:80-126 | a comparison of two sources is accepted exactly for known ones below 64 bits and holds exactly when the unsigned value of the left one stands in the requested relation to that of the right one |
| InstructionEncodings.ExtractedIff | mpact/sim/decoder/instruction_encoding.cc:221-239 | exactly overlays with a literal component go to the extracted constraints |
| InstructionEncodings.InstructionEncoding.AddEqualConstraint | mpact/sim/decoder/instruction_encoding.cc:221-239 | an equality goes to the masked or to the extracted constraints, errors add nothing, and the cached mask is invalidated |
| InstructionEncodings.InstructionEncoding.AddOtherConstraint | mpact/sim/decoder/instruction_encoding.cc:241-249 | the created comparison with a number (CreatedRelation) is appended, or an error returned without change (CreatedIff) |
| InstructionEncodings.InstructionEncoding.AddOtherComparison | mpact/sim/decoder/instruction_encoding.cc:251-259 | the created comparison of two sources (ComparisonRelation) is appended, or an error returned without change |
| InstructionEncodings.InstructionEncoding.ComputeMaskAndValue | mpact/sim/decoder/instruction_encoding.cc:261-281 | mask and value become those of all masked constraints, although the value is never reset |
| InstructionEncodings.InstructionEncoding.GetMask | mpact/sim/decoder/instruction_encoding.cc:325-334 | the cached or recomputed mask is that of all masked constraints |
| InstructionEncodings.InstructionEncoding.GetValue | mpact/sim/decoder/instruction_encoding.cc:361-370 | the cached or recomputed value is that of all masked constraints |
| DecoderCorrectness.SummaryFacts | mpact/sim/decoder/encoding_group.cc:77-102 | common bits are significant to every encoding, constant bits have one value in all of them, and nothing dealt with on the path varies |
| DecoderCorrectness.ChildOnPath | mpact/sim/decoder/encoding_group.cc:316-330 | a word that passed the constant test and the dispatch agrees with every encoding of the subgroup on all ignored bits |
| DecoderCorrectness.DroppedIff | mpact/sim/decoder/encoding_group.cc:458-495 | an equality is dropped exactly when every bit it reads has been dealt with and it reads no field whose variable exists |
| DecoderCorrectness.IgnoredHolds | mpact/sim/decoder/encoding_group.cc:458-496 | a constraint marked as ignorable holds on every word that reaches the leaf |
| DecoderCorrectness.KeptDecides | mpact/sim/decoder/encoding_group.cc:458-496 | dropping constraints that hold does not change whether all hold |
| DecoderCorrectness.ExtractionsRight | mpact/sim/decoder/encoding_group.cc:652-678 | after the emitted extractions every variable has the value that its name stands for in the word |
| DecoderCorrectness.ArmsRight | mpact/sim/decoder/encoding_group.cc:437-456 | the emitted ifs of a leaf, with shared variables and dropped constraints, are a scan over its encodings and their specializations, for any values of the names that the kept constraints read |
| DecoderCorrectness.SpecialsRight | mpact/sim/decoder/encoding_group.cc:549-578 | the emitted ifs of the specializations choose the first one whose conditions hold |
| DecoderCorrectness.LeafRight | mpact/sim/decoder/encoding_group.cc:437-456 | where the sources of one name that the arms of a leaf read have one value in the word, the arms scan the encodings |
| DecoderCorrectness.ScanFilter | mpact/sim/decoder/encoding_group.cc:409-415 | leaving out the encodings with another discriminator value than the word changes no scan |
| DecoderCorrectness.TreePermutation | mpact/sim/decoder/encoding_group.cc:151-216 | the leaves of a tree together hold each encoding exactly as often as the root |
| DecoderCorrectness.RunIsScan | mpact/sim/decoder/encoding_group.cc:299-456 | on every word that meets one meaning for each name where it is tested, the emitted decoder of a tree gives the result of a linear scan in tree order, without undeclared variable or index out of bounds |
| DecoderCorrectness.ShareableAgrees | mpact/sim/decoder/encoding_group.cc:417-442 | a tree in each leaf and switch case of which the names that are read mean one field or overlay meets that condition on every word |
| DecoderCorrectness.CollapseKeepsDecoding | mpact/sim/decoder/encoding_group.cc:177-192 | the collapsed leaf and the deeper tree have no match on the same words, else both find a matching encoding, the same one if only one matches, wherever each name has one meaning in both |
| Sorting.Sort | mpact/sim/decoder/encoding_group.cc:85-86 | a permutation in the order of masked values |
| Sorting.NeighboursSuffice | mpact/sim/decoder/encoding_group.cc:220-236 | in a sorted group some discriminator value occurs twice exactly when it does so in neighbours |
| Sorting.CollisionsFound | mpact/sim/decoder/encoding_group.cc:220-236 | on a sorted group no neighbours collide exactly when all discriminator values are different |
| Sorting.CollisionsAre | mpact/sim/decoder/encoding_group.cc:220-236 | a pair is reported exactly when it is an encoding and the one before it with the same discriminator value |
| Sorting.FindDuplicates | mpact/sim/decoder/encoding_group.cc:221-236 | exactly the encodings that have the discriminator value of the one before them are reported, each with that one |
| EncodingGroups.GrowSummary | mpact/sim/decoder/encoding_group.cc:90-102 | the running masks stay the common bits and the bits that differ in any two encodings, though each value is compared with the previous one only |
| EncodingGroups.DiscriminatorSplits | mpact/sim/decoder/encoding_group.cc:167-170 | with a discriminator no value is shared by all encodings |
| EncodingGroups.ChildPath | mpact/sim/decoder/encoding_group.cc:153-160 | the bits ignored in a subgroup are significant to all its encodings, which agree on them |
| EncodingGroups.SplitsProperly | mpact/sim/decoder/encoding_group.cc:151-216 | a split makes at least two subgroups, none empty and each smaller than the group, that together hold every encoding as often as the group |
| EncodingGroups.PoorSplit | mpact/sim/decoder/encoding_group.cc:182-185 | the largest number of varying bits of a subgroup is below two exactly when no discriminator value leaves encodings differing in two bits |
| EncodingGroups.SplitIff | mpact/sim/decoder/encoding_group.cc:173-191 | a subgroup stays split exactly when its encodings differ in a bit that is insignificant to one of them or dealt with, and the split pays off |
| EncodingGroups.Collapse | mpact/sim/decoder/encoding_group.cc:186-191 | clearing the subgroups leaves a well-formed leaf |
| EncodingGroups.MergeSlots | mpact/sim/decoder/encoding_group.cc:256-284 | the merge puts at slot i exactly the subgroup with value i and none everywhere else |
| EncodingGroups.GroupByIndex | mpact/sim/decoder/encoding_group.cc:407-415 | each discriminator value has its encodings in their order |
| EncodingGroups.EmitCases | mpact/sim/decoder/encoding_group.cc:417-431 | each case tests exactly the encodings with its value, in order |
| EncodingGroups.EncodingGroup.AddEncoding | mpact/sim/decoder/encoding_group.cc:90-102 | the encoding is appended and the masks summarise the group again |
| EncodingGroups.EncodingGroup.CanAddEncoding | mpact/sim/decoder/encoding_group.cc:107-112 | true exactly for an empty group or when a significant bit stays common |
| EncodingGroups.EncodingGroup.AdjustMask | mpact/sim/decoder/encoding_group.cc:77-87 | the encodings are permuted into the order of their discriminator bits; removing the parent's bits changes no mask |
| EncodingGroups.EncodingGroup.IsSimpleDecode | mpact/sim/decoder/encoding_group.cc:116-124 | an opcode table is used exactly for a leaf that varies only in its discriminator and whose encodings all have specializations and nothing else to check |
| EncodingGroups.EncodingGroup.AddSubGroups | mpact/sim/decoder/encoding_group.cc:129-217 | terminates and leaves a well-formed tree over the same encodings: partitioned by discriminator value at every level, path invariant everywhere, split exactly where it pays off |
| EncodingGroups.EncodingGroup.SplitOff | mpact/sim/decoder/encoding_group.cc:151-216 | the subgroup for one value is made unless it would be empty; holding all encodings stops the split, exactly without discriminator |
| EncodingGroups.EncodingGroup.Settle | mpact/sim/decoder/encoding_group.cc:174-214 | a subgroup is split exactly when it varies outside its common bits and a group it makes still varies in two bits |
| EncodingGroups.EncodingGroup.EmitInitializers | mpact/sim/decoder/encoding_group.cc:245-285 | the table of a group names for each discriminator value that occurs its subgroup, and no decoder otherwise |
| EncodingGroups.EncodingGroup.CheckEncodings | mpact/sim/decoder/encoding_group.cc:220-241 | something is reported exactly when an opcode table in the tree holds two encodings with one discriminator value; of a table exactly the colliding neighbours |
| EncodingGroups.EncodingGroup.EmitDecoders | mpact/sim/decoder/encoding_group.cc:299-397 | the code of the whole tree: constant tests, tables over all discriminator values and leaves, for encodings whose specializations were added after the tree was built |
| EncodingGroups.EncodingGroup.EmitComplexDecoderBody | mpact/sim/decoder/encoding_group.cc:399-435 | a leaf without discriminator is a chain of ifs, otherwise a switch with a case for each value that occurs |
| Emission.ProcessConstraint | mpact/sim/decoder/encoding_group.cc:458-496 | ignorable exactly when all bits read are dealt with and, for a field, no variable of its name exists |
| Emission.EmitOverlayExtraction | mpact/sim/decoder/encoding_group.cc:622-650 | the variable of an overlay is assigned unless the overlay is constant zero, and in its type it has the value of the overlay on every word exactly when the types of the operands fit |
| Emission.EmitExtractions | mpact/sim/decoder/encoding_group.cc:652-678 | each name that has no variable is extracted once, in order |
| Emission.EmitEncodingIfStatement | mpact/sim/decoder/encoding_group.cc:498-590 | the arm of an encoding: extractions of what its remaining constraints and its specializations read, all remaining constraints as condition, then the specializations in turn |
| Emission.EmitIfSequence | mpact/sim/decoder/encoding_group.cc:437-456 | the arms of the encodings in order, with the variables of earlier ones visible to later ones |
| Braces.BalancedIff | mpact/sim/decoder/encoding_group.cc:498-590 | the braces emitted for an encoding match exactly when it has no specializations, or a condition left and one on its first specialization |
| Braces.ArmBalancedIff | mpact/sim/decoder/encoding_group.cc:498-590 | the braces of the arm emitted for an encoding match exactly when it has no specializations, or some constraint is not dropped and the first specialization has one |
| Braces.BalancedTreeIff | mpact/sim/decoder/encoding_group.cc:299-590 | in the decoder of a tree the braces of all arms match exactly when in every leaf or switch case every encoding with specializations keeps a condition, given the variables declared before it |
| Specializations.SpecializedOpcode | mpact/sim/decoder/encoding_group.cc:498-590 | if one of two encodings that compare the same bits with different values and nothing else has specializations, every decoder that may be generated holds an arm whose braces do not match |
| SharedVariables.FieldsReadAlike | mpact/sim/decoder/encoding_group.cc:652-678 | two fields have the same value in every word exactly when they are the same bits |
| SharedVariables.SharingIff | mpact/sim/decoder/encoding_group.cc:652-678 | for two encodings with the same opcode bits that compare sources of one name, every decoder that may be generated is right for all comparisons and words exactly when the sources have the same value in every word with the opcode |
| SharedVariables.UnlikeIsWrong | mpact/sim/decoder/encoding_group.cc:652-678 | on any word with the opcode in which the values differ, every decoder that may be generated for two comparisons finds an encoding although none matches |
| SharedVariables.SharedFieldWrong | mpact/sim/decoder/encoding_group.cc:652-678 | two encodings, a decoder generated for them and a word on which it is wrong |
| SharedVariables.PairsSuffice | mpact/sim/decoder/encoding_group.cc:129-217 | the list can share names if in each top-level group two encodings that read different bits under one name differ in a bit common to the group or to those that agree with them on the common bits |
| InstructionGroups.FirstFitAllGood | mpact/sim/decoder/instruction_group.cc:121-135 | each encoding is in exactly one top-level group, and a group of two or more has a common significant bit |
| InstructionGroups.ByMaskKeepsOrder | mpact/sim/decoder/instruction_group.cc:108-115 | encodings with one mask stay in the order in which they were added |
| InstructionGroups.SameMaskTogether | mpact/sim/decoder/instruction_group.cc:115-135 | encodings with the same non-empty mask end up in one top-level group |
| InstructionGroups.OneGroupIff | mpact/sim/decoder/instruction_group.cc:115-135 | there is at most one top-level group exactly for at most one encoding or a significant bit common to all |
| InstructionGroups.RunAllIsScan | mpact/sim/decoder/instruction_group.cc:213-236 | trying the groups in turn is a linear scan over all encodings in tree order |
| InstructionGroups.GeneratedRight | mpact/sim/decoder/instruction_group.cc:108-242 | every decoder that may be generated is right on each word on whose way each name has one meaning |
| InstructionGroups.SharedRight | mpact/sim/decoder/instruction_group.cc:108-242 | if in every tree of the list the names that are read together mean one field or overlay, the decoder is right on all words |
| InstructionGroups.TopLevelIff | mpact/sim/decoder/instruction_group.cc:207-236 | the statements of the top-level function try the groups in turn, and declare no variable twice exactly for one group |
| InstructionGroups.ExclusiveIsScan | mpact/sim/decoder/instruction_group.cc:213-236 | where at most one encoding matches, a generated decoder agrees with a scan in the order of definition |
| InstructionGroups.InstructionGroupLess | mpact/sim/decoder/instruction_group.cc:166-179 | top-level groups are compared by the left group's constant bits |
| InstructionGroups.InstructionGroup.Place | mpact/sim/decoder/instruction_group.cc:121-135 | the encoding goes to the first group that takes it, or to a new group |
| InstructionGroups.InstructionGroup.ProcessEncodings | mpact/sim/decoder/instruction_group.cc:108-139 | finished, well-formed, split groups whose contents are those of first fit in the order of masks, hold every encoding as often as the list, and have a significant bit common to all encodings if there are two |
| InstructionGroups.InstructionGroup.CheckEncodings | mpact/sim/decoder/instruction_group.cc:142-146 | something is reported exactly when some group has a duplicate in an opcode table |
| InstructionGroups.CheckAll | mpact/sim/decoder/bin_format_visitor.cc:215-221 | of encodings that have no specializations yet nothing is reported |
| InstructionGroups.DuplicatesUnreported | mpact/sim/decoder/bin_format_visitor.cc:215-221 | two encodings with the same mask and value that match a common word, unreported |
| InstructionGroups.InstructionGroup.EmitDecoderCode | mpact/sim/decoder/instruction_group.cc:182-242 | one decoder for each group, in some order of the groups, and the statements of the top-level function, none without groups |
| InstructionGroups.InstructionGroup.GetInstructionEncodings | mpact/sim/decoder/instruction_group.cc:245-251 | the table gets values and widths in order, without replacing entries |
| InstructionGroups.OpcodesRight | mpact/sim/decoder/instruction_group.cc:245-251 | old entries stay, every name has an entry, and each new entry is the value and width of the first encoding of its name |
| InstructionGroups.Generate | mpact/sim/decoder/instruction_group.cc:108-242 | for every list of encodings the generated decoder reports no match exactly when no encoding matches, and otherwise an encoding all of whose constraints hold with its first matching specialization, on every word on whose way each name has one meaning, so on all words if the list can share names; the top-level function returns that, and is well formed exactly for at most one encoding or a significant bit common to all; the braces of all decoders match exactly when every encoding with specializations keeps a condition where it is tested |
| InstructionGroups.GenerateFrom | mpact/sim/decoder/instruction_group.cc:97-242 | from encoding objects with their added constraints to the decoder: on every word on whose way each name has one meaning the answer is an object all of whose added constraints hold, and no match exactly when there is none |
| InstructionGroups.IllFormed | mpact/sim/decoder/instruction_group.cc:207-236 | for any two encodings without common significant bit the top-level function declares a variable twice |
| InstructionGroups.EncodedMatches | mpact/sim/decoder/instruction_group.cc:245-251 | the value of an encoding with any operand bits outside its mask matches the encoding |
| InstructionGroups.EncodeThenDecode | mpact/sim/decoder/instruction_group.cc:245-251 | encoder and decoder agree: a word made from the table entry of a name decodes to the first encoding of that name, unless another one matches too |
| TemplateExpressions.ValueOfConstant | mpact/sim/decoder/template_expression.h:134-140 | a constant expression means its value in every context, any other has no value by itself |
| TemplateExpressions.OperatorsCompute | mpact/sim/decoder/template_expression.cc:30-205 | operations whose operands evaluate to constants evaluate to their sum, difference, product, quotient or negation; the quotient leaves a remainder shorter than the divisor with the sign of the dividend, and division by zero is an error |
| TemplateExpressions.EvaluateKeepsMeaning | mpact/sim/decoder/template_expression.h:108-132 | evaluated with arguments, an expression means in every outer context what it means with each parameter bound to the meaning of its argument, errors included |
| TemplateExpressions.FailureIsFinal | mpact/sim/decoder/template_expression.cc:137-188 | evaluation fails only for an expression that has no value under any binding |
| TemplateExpressions.AbsoluteValueIsStrict | mpact/sim/decoder/instruction_set_visitor.cc:60-76 | abs has a value exactly for one argument that has one, the same for a number and its opposite; it fails when an argument fails |
| TemplateExpressions.StrictIff | mpact/sim/decoder/template_expression.cc:232-247 | calls that evaluation refuses never have a value exactly when the function is strict |
| TemplateExpressions.SilentFailure | mpact/sim/decoder/template_expression.h:108-132 | an expression without value in any context can pass evaluation |
| TemplateExpressions.LayersKeepMeaning | mpact/sim/decoder/template_expression.cc:137-156 | evaluating through any number of inheritance layers means the same as evaluating once with the composed binding |
| TemplateExpressions.LayerFailureIsFinal | mpact/sim/decoder/template_expression.cc:137-156 | a failure in any layer means that there is no value under any binding of the outermost one |
| TemplateExpressions.FinalValue | mpact/sim/decoder/template_expression.h:134-136 | when no parameter is left, the computed value is the meaning under the composed binding |
| TemplateExpressions.EvaluateFolds | mpact/sim/decoder/template_expression.h:108-132 | no operation on constants is left anywhere in a result, so a constant result is a number or a function of constants |
| WordArrays.MoveWords | mpact/sim/generic/complex_resource.cc:66-73 | whole words move up by the given count, in place, zeros coming in below |
| WordArrays.MoveBits | mpact/sim/generic/complex_resource.cc:79-90 | from the given word on every bit is replaced by the one the given number of positions above, in place |
| WordArrays.WordsAndBits | mpact/sim/generic/complex_resource.cc:64-90 | both loops together move every bit down by the rest and up by whole words, and lose what is moved past the end |
| ComplexResources.ShiftIff | mpact/sim/generic/complex_resource.cc:54-91 | for a depth of whole words, the shift is right on all vectors exactly for gaps below 64 or of at least the depth |
| ComplexResources.ReservableIff | mpact/sim/generic/complex_resource.cc:33-46 | exactly the cycles below the depth can be reserved if and only if the depth fills whole words |
| ComplexResources.OperationBits | mpact/sim/generic/complex_resource.cc:54-125 | for any depth, vector and pair of cycles, what an operation leaves in each bit of the vector |
| ComplexResources.AnswerBits | mpact/sim/generic/complex_resource.cc:93-103 | for any depth a span is free exactly when none of its bits remains after advancing |
| ComplexResources.AdvanceTracks | mpact/sim/generic/complex_resource.cc:54-91 | the lazy shift keeps bit i meaning that cycle now+i is reserved |
| ComplexResources.LazyIsEager | mpact/sim/generic/complex_resource.cc:54-91 | one lazy shift is the same as one shift for every cycle passed |
| ComplexResources.StepRefines | mpact/sim/generic/complex_resource.cc:93-125 | each operation answers and acts like one on a set of reserved absolute cycles; being free is being disjoint from it |
| ComplexResources.RunRefines | mpact/sim/generic/complex_resource.cc:54-125 | in every run with gaps in that domain the resource answers like a set of reserved cycles |
| ComplexResources.ComplexResource.constructor | mpact/sim/generic/complex_resource.cc:33-46 | a new resource has nothing reserved and the mask of the given depth |
| ComplexResources.ComplexResource.Advance | mpact/sim/generic/complex_resource.cc:54-91 | the word loops compute the shift of the whole vector for any gap and depth |
| ComplexResources.ComplexResource.IsFree | mpact/sim/generic/complex_resource.cc:93-103 | free exactly when no wanted bit is set after advancing |
| ComplexResources.ComplexResource.Acquire | mpact/sim/generic/complex_resource.cc:105-114 | the wanted bits under the mask are set after advancing, others keep |
| ComplexResources.ComplexResource.Release | mpact/sim/generic/complex_resource.cc:116-125 | the wanted bits under the mask are cleared after advancing, others keep |
| SlotInheritance.TreeIffUniquePaths | mpact/sim/decoder/slot.cc:1420-1434 | no two bases of a slot share an ancestor exactly when there is at most one path from any slot to any other |
| SlotInheritance.RejectsIff | mpact/sim/decoder/slot.cc:1420-1434 | the recursive check rejects exactly when the base or one of its ancestors is an ancestor of the slot already |
| SlotInheritance.SameAnswer | mpact/sim/decoder/slot.cc:1420-1434 | the answer of the check depends on the graph only, not on the ranks that show it has no cycle |
| SlotInheritance.CycleIff | mpact/sim/decoder/slot.cc:1420-1444 | a base leaves a cycle exactly when it is the slot itself or inherits from it, and such a base is rejected exactly when the slot has bases |
| SlotInheritance.SelfAccepted | mpact/sim/decoder/slot.cc:1420-1434 | a slot rejects itself as base exactly when it has bases; accepted, it leaves a cycle |
| SlotInheritance.DerivedAccepted | mpact/sim/decoder/slot.cc:1420-1444 | two slots, one inheriting from the other, that the check lets inherit from each other |
| SlotInheritance.ExtendedAncestor | mpact/sim/decoder/slot.cc:1436-1444 | a new base adds itself and its ancestors to the slot and to all that inherit from it, and to no other |
| SlotInheritance.KeepsTreeIff | mpact/sim/decoder/slot.cc:1436-1453 | adding a base keeps inheritance free of cycles and diamonds exactly when the base is another slot and every slot that inherits from this one accepts it |
| SlotInheritance.UnusedKeepsTree | mpact/sim/decoder/slot.cc:1436-1453 | for a slot nobody inherits from yet, the check of the slot alone decides that, and no base but itself makes a cycle |
| SlotInheritance.LateBase | mpact/sim/decoder/slot.cc:1436-1453 | a base that passes the check of a slot in use and makes a diamond |
| SlotInheritance.RunKeepsTree | mpact/sim/decoder/slot.cc:1436-1453 | every sequence of requests in which each slot is complete before it is used and none asks for itself keeps exactly one path to each ancestor and no cycle |
| SlotInheritance.Slot.CheckPredecessors | mpact/sim/decoder/slot.cc:1420-1434 | terminates on acyclic graphs and gives the recursive check's answer whatever order the sets are gone through |
| SlotInheritance.Slot.AddBase | mpact/sim/decoder/slot.cc:1436-1453 | a rejected base changes nothing, an accepted one is added once to both lists; a cycle is left exactly when the base is accepted and is the slot or inherits from it; diamonds do not appear at unused slots |
| DefinitionOrder.Append | mpact/sim/decoder/instruction_set.cc:141-158 | a definition whose needs are listed can be listed without breaking the order |
| DefinitionOrder.CompleteCounts | mpact/sim/decoder/instruction_set.cc:127-139 | a complete order has one entry for every definition |
| DefinitionOrder.DefinitionList.AddToOrder | mpact/sim/decoder/instruction_set.cc:141-158 | the definition is listed after everything it needs, nothing is listed twice, nothing that it does not need is added, marks match the list, and a marked one adds nothing |
| DefinitionOrder.DefinitionList.ComputeOrder | mpact/sim/decoder/instruction_set.cc:127-139 | every definition exactly once with its needs before it, for any order of the map; a repeated call adds nothing |
| DefinitionOrder.ComputeSlotAndBundleOrders | mpact/sim/decoder/instruction_set.cc:127-139 | both orders are complete and do not disturb each other |
| ActionPoints.SetIff | mpact/sim/generic/action_point_manager_base.cc:47-73 | setting succeeds exactly when an action at the address is enabled or it can be written; ids count up, and only then is the instruction written; failure changes nothing |
| ActionPoints.ClearIff | mpact/sim/generic/action_point_manager_base.cc:75-100 | clearing succeeds exactly when the action exists, and another one at the address is enabled or the original can be written, which happens exactly then; each refusal has its error |
| ActionPoints.EnableIff | mpact/sim/generic/action_point_manager_base.cc:102-126 | enabling succeeds exactly when the action exists, and one at the address is enabled or the breakpoint can be written, which happens exactly then |
| ActionPoints.DisableIff | mpact/sim/generic/action_point_manager_base.cc:128-153 | disabling succeeds exactly when the action exists, and is disabled, is not the only enabled one or the original can be written, which happens exactly then |
| ActionPoints.ClearAllIff | mpact/sim/generic/action_point_manager_base.cc:176-186 | clearing everything restores exactly the known addresses that can be written |
| ActionPoints.StepCounted | mpact/sim/generic/action_point_manager_base.cc:47-186 | in every operation the active counter stays the number of enabled actions and ids stay below the next one, whether writes succeed or fail |
| ActionPoints.StepSyncIff | mpact/sim/generic/action_point_manager_base.cc:47-186 | memory stays in step with the enabled actions exactly when no write fails at an address whose activity the operation ends or begins, a condition on the state before it |
| ActionPoints.RunKeeps | mpact/sim/generic/action_point_manager_base.cc:47-186 | in every reachable state the counters are right, and memory holds a breakpoint exactly where an action is enabled if no such write failed |
| ActionPoints.ActionPointManager.SetAction | mpact/sim/generic/action_point_manager_base.cc:47-73 | a new enabled action with the next id, the breakpoint written if none was active; a failed write changes nothing |
| ActionPoints.ActionPointManager.ClearAction | mpact/sim/generic/action_point_manager_base.cc:75-100 | the action is gone even if the original instruction cannot be written back, which is reported |
| ActionPoints.ActionPointManager.EnableAction | mpact/sim/generic/action_point_manager_base.cc:102-126 | the action is enabled, the breakpoint written if it is the only active one, and a failing write reported (EnableIff) |
| ActionPoints.ActionPointManager.DisableAction | mpact/sim/generic/action_point_manager_base.cc:128-153 | the action is disabled, the original written if none is active |
| ActionPoints.ActionPointManager.IsActionPointActive | mpact/sim/generic/action_point_manager_base.cc:155-162 | true exactly when some action at the address is enabled, in every state with right counters |
| ActionPoints.ActionPointManager.IsActionEnabled | mpact/sim/generic/action_point_manager_base.cc:164-174 | true exactly for an existing enabled action |
| ActionPoints.ActionPointManager.ClearAllActionPoints | mpact/sim/generic/action_point_manager_base.cc:176-186 | no action point is left; the original instruction is back wherever the write succeeded |
| ActionPoints.ActionPointManager.PerformActions | mpact/sim/generic/action_point_manager_base.cc:188-198 | exactly the enabled actions are performed; an address without action point is an error |
| Breakpoints.ExecuteOwned | mpact/sim/generic/breakpoint_manager.cc:49-114 | each breakpoint keeps its own live action exactly unless one is cleared whose instruction cannot be restored while nothing else keeps its address active; other clients' actions never come, go or change |
| Breakpoints.ClearFailsIff | mpact/sim/generic/breakpoint_manager.cc:66-82 | clearing a breakpoint that has its action reports an error exactly when its instruction cannot be restored and nothing else keeps the address active |
| Breakpoints.ExecuteMeans | mpact/sim/generic/breakpoint_manager.cc:49-121 | set and enable make an enabled breakpoint, disable and clear end it, whenever they report success |
| Breakpoints.ExecuteStatus | mpact/sim/generic/breakpoint_manager.cc:49-114 | the answer to each command, read off the state before it: setting fails exactly for an existing breakpoint or an inactive address that cannot be written, the others exactly for a missing breakpoint or a failing write that they need |
| Breakpoints.ExecuteKeepsOthers | mpact/sim/generic/breakpoint_manager.cc:49-114 | setting adds exactly one breakpoint with the new id and clearing removes exactly one, the other commands none; refused commands change nothing |
| Breakpoints.ClearEverythingMemory | mpact/sim/generic/breakpoint_manager.cc:108-114 | the instruction at an address is restored exactly where it has a breakpoint, no other action is enabled and the write succeeds |
| Breakpoints.HaltIff | mpact/sim/generic/breakpoint_manager.cc:116-126 | the actions performed at an address request a halt exactly when it is an enabled breakpoint |
| Breakpoints.Dangling | mpact/sim/generic/breakpoint_manager.cc:66-82 | after such a clearing the breakpoint can be neither cleared, enabled nor set again |
| Breakpoints.ForeignOwned | mpact/sim/generic/action_point_manager_base.cc:47-153 | clients that touch only their own actions leave all breakpoints as they are |
| Breakpoints.ClearAllActionPointsIff | mpact/sim/generic/action_point_manager_base.cc:176-186 | clearing all action points keeps breakpoints and actions together exactly when there are no breakpoints |
| Breakpoints.StaleBreakpoint | mpact/sim/generic/action_point_manager_base.cc:176-186 | after it, clearing a stale breakpoint removes another client's action |
| Breakpoints.RunOwned | mpact/sim/generic/breakpoint_manager.cc:49-121 | in every run in which clients keep to their own ids and no such clearing happens, each breakpoint owns a distinct live action |
| Breakpoints.BreakpointManager.SetBreakpoint | mpact/sim/generic/breakpoint_manager.cc:49-64 | an existing breakpoint at the address is an error, otherwise an action is set and its id remembered exactly if that succeeds (ExecuteStatus) |
| Breakpoints.BreakpointManager.ClearBreakpoint | mpact/sim/generic/breakpoint_manager.cc:66-82 | the breakpoint is forgotten only if clearing its action reports success |
| Breakpoints.BreakpointManager.DisableBreakpoint | mpact/sim/generic/breakpoint_manager.cc:84-96 | its action is disabled |
| Breakpoints.BreakpointManager.EnableBreakpoint | mpact/sim/generic/breakpoint_manager.cc:98-106 | its action is enabled |
| Breakpoints.BreakpointManager.ClearAllBreakpoints | mpact/sim/generic/breakpoint_manager.cc:108-114 | all breakpoints are forgotten and their actions cleared, in any order, whatever is reported |
| Breakpoints.BreakpointManager.IsBreakpoint | mpact/sim/generic/breakpoint_manager.cc:116-121 | true exactly when the breakpoint's action is enabled |
| Formats.TilesIff | mpact/sim/decoder/format.cc:190-226 | parts placed from the top down cover every bit of the word exactly once if and only if their widths add up to the declared width |
| Formats.PartsInOrder | mpact/sim/decoder/format.cc:200-220 | the first part starts at the top, each further one below the part before it, which is as long as its field or as the width of its format times the number of instances |
| Formats.Format.ComputeAndCheckFormatWidth | mpact/sim/decoder/format.cc:171-236 | the first call places the known parts and succeeds only if they tile the word; base format, unknown formats and widths are checked as in the source; later calls check nothing |
| Formats.RepeatedFormat | mpact/sim/decoder/format.cc:171-236 | a format of nothing but instances of another one passes exactly when width times number is the declared width |
| Formats.SecondCallPasses | mpact/sim/decoder/format.cc:190-226 | a format whose only field does not fill it fails once and passes when asked again |
| Formats.CheckTwice | mpact/sim/decoder/format.cc:171-236 | for every format the first call passes exactly when base, parts and overlays are in order; the second gives the same verdict exactly when the parts fill the word, or base or overlays are at fault, or nothing of positive width comes before the first unknown format |
| Formats.ExtractInserted | mpact/sim/decoder/format.cc:399-512 | extracting an inserted field gives the low bits of the value |
| Formats.ExtractInsertedNumber | mpact/sim/decoder/format.cc:399-512 | in numbers, the value modulo 2^width |
| Formats.InsertExtracted | mpact/sim/decoder/format.cc:399-512 | inserting what was extracted changes nothing |
| Formats.OthersUnchanged | mpact/sim/decoder/format.cc:399-512 | inserting one field of a checked format changes no other field |
| Formats.SignExtends | mpact/sim/decoder/format.cc:423-431 | shifting up to the top of the integer and down again gives the two's complement number |
| Formats.SignedRoundTrip | mpact/sim/decoder/format.cc:399-512 | a signed number that fits the field is read back after it was inserted |
| Formats.SignedOverlay | mpact/sim/decoder/format.cc:924-962 | the emitted extractor of a signed overlay gives the two's complement number when the types fit for the overlay's own bits |
| Formats.GenerateOverlayInserter | mpact/sim/decoder/format.cc:545-622 | the emitted steps put every bit of the value at its word position, leave out constants and clear nothing; on the unsigned integers of the format's type they do so for the bits of the value that fit the type, if no shift is undefined |
| Formats.UndefinedShiftIff | mpact/sim/decoder/format.cc:545-622 | for a bit over zeros the shift of the emitted inserter is undefined exactly in formats of up to 32 bits with 32 or more zeros |
| Formats.OverlayRoundTripIff | mpact/sim/decoder/format.cc:545-622 | values that pass through the emitted inserter are read back, for all values with the right constants, exactly when the overlay's bits were zero before and every value bit that goes to the word fits the integer type of the format |
| Formats.EmittedRoundTripIff | mpact/sim/decoder/format.cc:545-622 | the same condition for emitted inserter and emitted extractor together, where the types of the extractor fit |
| Formats.CutImmediate | mpact/sim/decoder/format.cc:545-622 | an immediate of a 16-bit format over 11 or more zeros, such as imm18 of riscv32c: extractor right on all words, inserter right without types, but the top bit of a value never arrives |
| BitArrays.ExtractBits | mpact/sim/decoder/bin_format_visitor.cc:64-88 | the byte loop reads bits lsb..msb of the big-endian integer |
| BitArrays.InsertBits | mpact/sim/decoder/bin_format_visitor.cc:101-121 | the byte loop replaces exactly bits lsb..msb of the integer and keeps all others |
| BitArrays.FieldNumber | mpact/sim/decoder/bin_format_visitor.cc:64-88 | these bits are (integer / 2^lsb) mod 2^width |
| BitArrays.FieldOfWith | mpact/sim/decoder/bin_format_visitor.cc:64-121 | what was inserted is extracted, modulo 2^width |
| BitArrays.OtherField | mpact/sim/decoder/bin_format_visitor.cc:101-121 | a field that does not overlap is unchanged |
| BitArrays.WithOwnField | mpact/sim/decoder/bin_format_visitor.cc:64-121 | inserting what was extracted changes nothing |
| BitArrays.InsertThenExtract | mpact/sim/decoder/bin_format_visitor.cc:64-121 | both routines one after the other give the value back |

## Left out

- Opcode-table leaves: they need specializations on every encoding while decision trees are built, and none has any then; their duplicates are modelled, their emission is not.
- The encoding of emitted C++ as text, file output, parsing, error messages and indentation: the emitted code is a datatype with an interpreter. Braces are modelled where they do not match.
- `can_ignore` as a flag on constraint objects: the model passes the decision along, which is the same because every encoding is in one leaf.
- `other_mask_`, `extracted_mask_` and `DumpGroup`: diagnostics only.
- RunIsScan: the variables of overlays have the value of the overlay; in the types of the emitted statements that is so exactly as `EmitOverlayExtraction` states, a condition that the theorems about decoders do not repeat.
- AddFieldReference: a field without bits is appended as a reference without bits; the source later takes it for a literal whose value was never set.
- ComputeHighLow: the mask of a reference of 64 or more bits is that of its bits; the source shifts a 64-bit one by the width, which is undefined.
- ExtractInserted: fields of exactly 64 bits are covered as integers; for them the source computes `(1ULL << width) - 1` (`mpact/sim/decoder/format.cc:400`, `502`), which is undefined.
- EmitEncodingIfStatement: specializations come in a list; the source keeps them ordered by name and refuses a second one of the same name.
- Formats of 65 to 128 bits, replicated formats and packed structs: inserter and extractor use different index conventions there, and layout depends on C++ bit fields.
- `PropagateExtractorsUp`/`Down`: the comparison of fields uses members that are never set for fields.
- The protobuf decoder generator: depends on protobuf descriptors.
- Ownership and deletion of objects, allocation of resource components, registries.
- Overflow of C++ `int` in template arithmetic and action ids: mathematical integers, with division rounding toward zero.
- ExtractBits: fields wider than 31 bits are not modelled, because the source shifts the pieces in a 32-bit int.
- CreateConstraint: sources wider than 30 bits are not modelled, because the source shifts a 32-bit int by the width.
- PerformActions: the callbacks themselves are not run; the model returns which ones are called.
- ComputeAndCheckFormatWidth: the outcome of laying out the overlays is a parameter; the layout itself is `Overlays.Overlay.ComputeHighLow`.
- EmitDecoderCode: the order of the top-level groups is left open, because the comparison the source sorts by is no order.
