# rsasm: what its core promises

A Dafny model of the core of rsasm, an assembler with sixteen backends, and proofs
of what that core is relied on for. The backends are not modelled: what layout,
relocation and the literal pools ask of them is an arbitrary function, so the
theorems hold whatever they answer, but for what a theorem says it needs of them.

Code of the assembler that updates things step by step is written the same way
here, as classes and methods with loops, each proved to compute a function of the
state it started from; the theorems are about those functions.

| files | component |
|---|---|
| `Prelude`, `Bytes` | 64-bit wrap-around, numbers as bytes |
| `Layout`, `Assembler` | fragments, sections and the passes of layout, as functions and as they run in place |
| `Settled`, `Terminates`, `Guard`, `Settles`, `Least`, `Stretch`, `Addresses` | the settled layout, why it is reached, when it is least, the movement estimate, where the sections of a flat image go |
| `Expr`, `Operators`, `Meaning`, `Direct` | the three evaluators of expressions, what each operator gives bit by bit, what an expression means, and when direct evaluation refuses what symbolic evaluation resolves |
| `Reloc`, `RelocMeans`, `Emits`, `Fields` | from a field's expression to a number or relocations, and back as a linker reads them; exactly when a field is filled in, relocated or refused; every field of an object in turn, and the object read back |
| `LiteralSlots`, `SlotsDeliver`, `LiteralWidths` | the two kinds of literal pool |
| `Conditionals`, `Nested` | the conditional stack, and properly nested conditionals |
| `Mapping`, `MappingReads` | mapping symbols, and what they say of every byte |
| `Parser`, `Printer`, `Brackets` | precedence climbing, printing with few parentheses, and that none of those can go |
| `Leb128`, `Unwind`, `UnwindReads`, `CodeView`, `Macros` | encoders, each with the reader that undoes it |

## Where the code does not keep a promise

- A pair of ARM literal slots beside a free padding slot. An eight-byte number matched
  to such a pair loses a word to the next four-byte literal, or misplaces every slot
  added later. Only the second is described in the comments (src/literals.rs:393-396).
  `SafeExactlyIfClean` says exactly when a match is safe, and `TwiceTouchesPadding` how
  little it takes for one not to be.
- An eight-byte literal matched to two words that were asked for one by one is at a
  multiple of eight in the pool, but the pool itself keeps its old alignment
  (`MatchedPairLeavesAlignment`). `AlignedExactlyIfAppended`: within its section a pool
  has its eight-byte literals aligned exactly if the section's pools were aligned to
  eight before, or this one appends a pair, or there is no eight-byte literal.
- A pool aligned to eight raises the alignment of its section to four only
  (src/literals.rs:515-520), so in memory one eight-byte number can be four bytes off
  (`SectionLeftAtFour`). `AlignedInMemoryExactly`: wherever the section goes they are
  aligned exactly if the section is aligned to a multiple of eight for another reason
  and the pool is as above, or there is no eight-byte literal.
- `.ifb`, `.ifnb` and `.elif` are dispatched but not looked for while skipping
  (src/assembler.rs:1763-1770, src/directives.rs:226-229). `StackRefinesExactlyIfClear`:
  a nested program does what it should exactly if no branch that is skipped hides an
  `.ifb` or `.ifnb` and no `.elif` comes while a branch is still to be chosen.
- A PC-relative field whose expression is a difference of symbols that are not both in
  one section is relocated without the field's own address: `far - here` is such a
  field (`FarLessHereIsRelocated`). `RightExactlyUnlessOpen`: a field is right under
  every placement of the sections exactly unless it is one of these, in an object for
  the file's own machine, its label is one of the field's section with an address, and
  the backend has a relocation number for the other symbol there.
- Direct evaluation refuses expressions in which undefined symbols cancel, where
  symbolic evaluation resolves them (`DirectRefusesUndefined`). `DirectAgreesExactly`:
  it agrees exactly if no subtraction on the way takes a symbol without an address
  from a label that has one.
- The offset by which a CodeView block names a file counts from the start of the
  checksum table, but the padding of the table's entries from the start of the section:
  `OffsetsFindEntries` says when the two agree.
- Unwind data of more than 255 slots cannot be read back; the count byte stops at 255
  (`UnwindRoundTrips`).

## Model

| member | source | states |
|---|---|---|
| Assembler.Assembler.AssignAddresses | src/layout.rs:1146-1187 | relocatable output leaves every section at zero; a flat image lays them end to end in order, computed in place |
| Assembler.Assembler.AssignOffsets | src/layout.rs:563-596 | the placing half of a pass, in place: every fragment is given the offset its predecessors end at and its size is recomputed there, padded to its boundary, with an error for each size that cannot be known |
| Assembler.Assembler.GrowFromLastPass | src/layout.rs:698-722 | every candidate that does not fit at the last pass's places is replaced by the next |
| Assembler.Assembler.GrowInOrder | src/layout.rs:938-995 | a candidate that does not fit grows to the first after it that does, at once, with what follows moved and paddings redone |
| Assembler.Assembler.RepickEachPass | src/layout.rs:815-866 | the first candidate of all that fits at the places of that turn, afresh, until a fragment is settled |
| Assembler.Assembler.Repick | src/layout.rs:740-808 | the first candidate that fits, also a shorter one where that is allowed, until a fragment has shrunk and grown more than ten times |
| Assembler.Assembler.SettleLayout | src/layout.rs:160-195 | runs passes to a quiet one: its outcome is that of the passes, success without overflow leaves a fixed point, failure reports an error, and code and alignments succeed whenever the potential allows |
| Settled.AssignPlaces | src/layout.rs:563-596 | after placing, every offset is the saturated sum of the sizes before it, and every padding is what its start lacks to a multiple of its alignment, or nothing if that is more than its limit |
| Settled.PadIsExact | src/layout.rs:631-642 | the padding is the least number of bytes that ends at a multiple of the alignment, and nothing exactly if that is none or over the limit |
| Settled.SizedOnItsTurn | src/layout.rs:627-692 | what follows an `.org` stands at its target, `.space` takes as many bytes as asked, a LEB128 number is its own shortest encoding, an alignment ends at its boundary, and exactly what cannot be so is an error |
| Settled.QuietAssignIsFixed | src/layout.rs:563-692 | where placing changes no size, placing again changes nothing, sizes that look at labels ahead included |
| Settled.AddressesAgree | src/layout.rs:1146-1187 | addresses are a function of the sizes: assigning them again changes nothing |
| Settled.QuietRelax | src/layout.rs:698-1050 | a relaxing pass that changes no candidate leaves everything as it was, with every candidate last, in reach, or exempt from checking, and none shorter in reach where sizes may shrink |
| Layout.FirstFitIsEarliest | src/layout.rs:740-995 | the search of the strategies passes over no candidate that fits, and takes one that does if there is any |
| Settled.TurnPicks | src/layout.rs:698-995 | on its turn a fragment gets the earliest candidate that fits in the range its strategy searches, stays if it has settled or is frozen, and its history counts exactly that |
| Settled.SettledIsFixedPoint | src/layout.rs:160-195 | a settled layout is a genuine fixed point: each fragment stands where the sizes before it end and is as long as it is to be there, alignments reaching their boundaries and `.org` its target; addressing and placing again change nothing; and each fragment reaches or is at its last candidate |
| Terminates.PassFalls | src/layout.rs:698-866 | no pass raises the potential, and each pass that changes a candidate lowers it, whatever the fit test answers |
| Terminates.ChangesPaidFor | src/layout.rs:160-195 | however many passes run, those that change a candidate number no more than the potential at the start |
| Terminates.EachPassChangesBounded | src/layout.rs:815-866 | against any fit test fewer than 3^m passes change a pick, for m fragments with several candidates |
| Guard.GuardBoundsFlips | src/layout.rs:740-808 | against any fit test a fragment with n candidates changes at most 22 n times |
| Settles.CodeSettles | src/layout.rs:160-195 | code and alignments settle in any of the four ways once the limit is twice the potential and two |
| Least.ReachesUnder | src/layout.rs:1055-1099 | what reaches in a layout with larger candidates reaches in one with smaller ones |
| Least.LeastLayout | src/layout.rs:698-722 | growing from the smallest candidates settles at the least acceptable layout, fragment by fragment, and that layout is itself acceptable |
| Least.FartherAcrossGap | src/layout.rs:1171-1186 | across the sections of a flat image smaller fragments can put a label farther away, as the gap that aligns its section grows |
| Stretch.MovedBy | src/layout.rs:874-922 | the loop that estimates a label's movement computes the rounding through every alignment between |
| Stretch.EndMovesForward | src/layout.rs:630-642 | moving an alignment moves its end by at least the whole boundaries crossed, under any limit on padding |
| Stretch.EstimateConservative | src/layout.rs:874-922 | the estimate has the sign of the label's true movement and never exceeds it, through any number of alignments |
| Stretch.ChainConservative | src/layout.rs:874-922 | the same between any two chains of fragments that stand one behind the other |
| Stretch.EstimateIsAttained | src/layout.rs:904-913 | no better estimate is safe: past an alignment some start moves its end by exactly what the estimate leaves, and none moves it less |
| Stretch.EstimateExact | src/layout.rs:874-922 | where one alignment on the way is a multiple of all, the estimate is the whole multiples of it in the movement, toward zero, and so is not zero from one multiple on |
| Stretch.EstimateOfPowers | src/layout.rs:874-922 | the same of any alignments that are powers of two, with the largest |
| Stretch.WholeStretchComesThrough | src/layout.rs:874-922 | a movement that is a multiple of every alignment on the way moves the label by exactly itself, and is estimated so |
| Addresses.AddressesLaidOut | src/layout.rs:1146-1187 | in a flat image each section in turn is at its origin, or at the least multiple of its alignment at which the one before it has ended, NASM's sections without contents last |
| Addresses.NoOverlap | src/layout.rs:1146-1187 | sections between which no origin is given do not overlap |
| Operators.BinaryBits | src/expr.rs:466-520 | each bit of what an operator on bits or a shift gives comes from the bit of its operands it should, counts past the width included |
| Operators.UnaryBits | src/expr.rs:348-357 | complement and the operators that take a byte or a half give exactly those bits |
| Operators.HalvesMakeUp | src/expr.rs:357-360 | the adjusted high half and the low half taken as signed make up the low 32 bits again |
| Operators.WrapsAround | src/expr.rs:348-453 | negation, sums, differences and products are those of the integers, modulo 2^64 |
| Operators.Quotients | src/expr.rs:454-465 | division rounds toward zero and leaves a remainder with the sign of the dividend; the one quotient that does not fit wraps |
| Operators.UnsignedQuotients | src/expr.rs:500-511 | the same of the operands without signs |
| Operators.BitAddressesAreCodes | src/expr.rs:545-565 | a bit address is one of 256 codes, and each code is that of one bit of one byte |
| Operators.SumsExactly | src/expr.rs:371-414 | a sum can be had exactly if its operands are not both differences and a symbol, a difference or nothing remains of their symbols; that then remains |
| Operators.DifferencesExactly | src/expr.rs:415-440 | the same of a difference, where the right operand is never one |
| Meaning.BinaryMeans | src/expr.rs:371-442 | every operator does to values what it does to the numbers they mean, cancelling in sums and differences included |
| Meaning.EvalMeans | src/expr.rs:323-368 | what any of the three evaluators makes of an expression means what the expression means, modulo 2^64 |
| Meaning.EvalSymbolMeans | src/assembler.rs:2419-2456 | keeping an alias by name, following it and putting it at its address are each true to what it means |
| Meaning.MinusNeedsPlus | src/expr.rs:371-442 | a value never subtracts a symbol without adding one |
| Meaning.FollowedIsNoAlias | src/layout.rs:1192-1218 | the evaluator that follows aliases names none |
| Meaning.ResolvesToMeaning | src/layout.rs:1259-1268 | resolving a value gives what it means at the label addresses |
| Meaning.EvaluatorsAgree | src/layout.rs:1259-1268 | symbolic evaluation that succeeds and resolves gives the number of direct evaluation |
| Meaning.DirectIsMeaning | src/layout.rs:2997-3032 | where the names an expression reaches are known and its symbols have addresses, direct evaluation succeeds exactly where it means a number, and gives it |
| Meaning.DirectRefusesUndefined | src/layout.rs:2997-3032 | without that it can refuse an expression that symbolic evaluation resolves |
| Direct.FollowedIsPlaced | src/expr.rs:371-442 | what can be evaluated following aliases can be evaluated directly, with its labels gone, exactly if no symbol without an address is taken from a label on the way |
| Direct.KeptIsFollowed | src/assembler.rs:2419-2456 | what can be evaluated keeping aliases can be evaluated following them, to the same symbols |
| Direct.DirectAgreesExactly | src/layout.rs:2997-3032 | where symbolic evaluation resolves, direct evaluation gives the same number if no subtraction takes a symbol without an address from a label, and refuses if one does |
| Meaning.CircularIsRefused | src/assembler.rs:2431-2434 | evaluation ends on circular definitions, refusing them in every context |
| RelocMeans.StarInSection | src/layout.rs:1221-1227 | a symbol of a section is, wherever the section goes, where it was in it |
| RelocMeans.WithDistancesMeans | src/layout.rs:2670-2697 | folding the distances within a sum keeps its meaning |
| RelocMeans.NumberMeans | src/layout.rs:1739-1874 | a number written into a field is the one intended under every placement of the sections, a plain number in a PC-relative field read as an address or from its section as the target has it |
| RelocMeans.OffsetNumberMeans | src/layout.rs:1809-1839 | where a plain number is no address, a PC-relative field is so far from the start of its section, wherever that goes |
| RelocMeans.SplitMeans | src/layout.rs:2246-2585 | a difference set apart as an add and a subtract relocation still comes to the difference |
| RelocMeans.MeasureMeans | src/layout.rs:2246-2585 | a label of the field's own section is exchanged for a PC-relative relocation, exactly in a data field and off by the field's address in a PC-relative one |
| RelocMeans.NamedMeans | src/layout.rs:2599-2656 | naming the section instead of the symbol moves the rest into the addend |
| RelocMeans.RelocationPreservesMeaning | src/layout.rs:1739-2656 | for any backend and wherever the sections go, a field is refused, or its number or its relocations as the psABI reads them come to its expression's value |
| RelocMeans.OpenDifferenceOffByPlace | src/layout.rs:2246-2585 | the excluded case meets that exactly if the field lies at address zero |
| RelocMeans.OpenIsRelocated | src/layout.rs:2246-2585 | in the excluded case a field is relocated exactly behind the guards of the code: an object of the right machine, the label in the field's section at an address, a number for the other symbol |
| RelocMeans.RightExactlyUnlessOpen | src/layout.rs:1739-2656 | under every placement a field is right, exactly unless it is in the excluded case behind those guards |
| Emits.EmittedExactly | src/layout.rs:1739-2656 | a field is filled in exactly if what it holds is known here, is not left to the linker and fits; and relocated exactly if it is left to the linker and the backend has numbers, where the field stands, for a symbol, a pair, or a number measured from a label of the section |
| Emits.ListedExactly | src/layout.rs:2246-2585 | how many relocations that takes, which of them is the mark and which of a pair comes first |
| Emits.NamedBySectionExactly | src/layout.rs:2599-2656 | which symbols are named by their section |
| Emits.DistanceJoinsSymbol | src/layout.rs:2670-2697 | a distance added to a symbol or taken from it leaves the symbol, moved by that number |
| RelocMeans.FarLessHereIsRelocated | src/layout.rs:2246-2585 | an undefined symbol less a label of the field's section, in a PC-relative field, is in the excluded case behind those guards and is relocated |
| Fields.FieldWriter.Build | src/layout.rs:2246-2585 | narrows a value down step by step to the relocations of a field, or reports that none can name it |
| Fields.FieldWriter.ApplyFixups | src/layout.rs:1878-2141 | every field in turn is written, relocated or reported, in place |
| Fields.FieldIsRecorded | src/layout.rs:1878-2141 | at the place of each field the object holds exactly its number, or exactly its relocations in order, or nothing, and there are as many errors as fields with nothing |
| Fields.ObjectMeansItsSource | src/layout.rs:1878-2141 | what an object without errors holds at the place of a field, as a linker reads it there, comes to the value of the field's expression wherever the sections go |
| LiteralSlots.SlotPool.Ask | src/literals.rs:397-512 | one literal is given a slot that holds it, the padding slot or a new one, or is refused, by the search from the start |
| LiteralSlots.SlotPool.Flush | src/literals.rs:529-576 | every four bytes of the pool become a fragment with the labels of the uses that name it |
| SlotsDeliver.HoldsForever | src/literals.rs:397-512 | no later request alters a slot that an accepted use names |
| SlotsDeliver.SoundForever | src/literals.rs:397-512 | a pool never outgrows 1024 slots, and free padding is odd with only whole pairs after it |
| SlotsDeliver.BoundedForever | src/literals.rs:448-452 | a pool never outgrows 1024 slots, whatever is asked and however it is matched |
| SlotsDeliver.AskedAgainIsShared | src/literals.rs:397-512 | a four-byte literal asked for again gets its slot again, and the pool stays as it is |
| SlotsDeliver.RefusedExactly | src/literals.rs:397-512 | a literal is refused, with one error, exactly if no slot or pair has it already and the pool has no room, or it is eight bytes of what is no number |
| SlotsDeliver.CutInFours | src/literals.rs:533-541 | a written literal is cut every four bytes and nowhere else |
| SlotsDeliver.SlotPoolDelivers | src/literals.rs:397-578 | every use reads its own literal at four times its slot, in either byte order, eight-byte ones at a multiple of eight |
| SlotsDeliver.PaddingInsideBreaks | src/literals.rs:419-434 | matched to a pair that contains free padding, a literal loses a word to the next use |
| SlotsDeliver.PaddingBeforeBreaks | src/literals.rs:498-510 | matched to a pair after free padding, it misplaces the next new slot |
| SlotsDeliver.SafeExactlyIfClean | src/literals.rs:397-578 | giving a number a slot is safe for every clean continuation exactly if the match touches no free padding |
| SlotsDeliver.TwiceTouchesPadding | src/literals.rs:415-434 | the same eight-byte number asked for twice after one four-byte literal touches it |
| SlotsDeliver.AlignedByAppending | src/literals.rs:386-391 | a pool ends up aligned to eight if it was before or a pair was appended, and otherwise as it was |
| SlotsDeliver.AlignedExactlyIfAppended | src/literals.rs:386-391 | at any offset in its section that is a multiple of its alignment, all a pool's eight-byte literals are at multiples of eight exactly if it was aligned before, a pair was appended, or there are none |
| SlotsDeliver.AlignedInMemoryExactly | src/literals.rs:513-520 | wherever the section goes they are, exactly if its own alignment is a multiple of eight and the pool is aligned so, or there are none |
| SlotsDeliver.SectionLeftAtFour | src/literals.rs:513-520 | in a section aligned to four one eight-byte number is misplaced at address four |
| SlotsDeliver.MatchedPairLeavesAlignment | src/literals.rs:386-391 | a number given two words asked for before leaves the pool aligned as it was |
| LiteralWidths.Gather | src/literals.rs:295-321 | the loop that gives each request an entry computes the gathering |
| LiteralWidths.Write | src/literals.rs:328-371 | the loop that writes sorted entries aligns once for each width |
| LiteralWidths.GatheredIsPartition | src/literals.rs:295-321 | no two entries share literal and width, each has exactly the labels of its requests in order, at most 1024, and exactly the requests without an entry are refused, by a full pool |
| LiteralWidths.SortedByWidth | src/literals.rs:325-328 | entries come out narrowest first, those of a width in the order they were asked for |
| LiteralWidths.EntriesAligned | src/literals.rs:331-345 | wherever the pool starts, every entry lies at a multiple of its width |
| LiteralWidths.EntryHoldsNumber | src/literals.rs:355-370 | an entry of any width holds its number in two's complement, in either byte order |
| Conditionals.Machine.DirIf | src/directives.rs:1585-1607 | opens a conditional, without evaluating its condition in a dead branch |
| Conditionals.Machine.DirElseIf | src/directives.rs:1653-1680 | takes the next branch if none was taken and its condition holds |
| Conditionals.Machine.DirElse | src/directives.rs:1682-1698 | takes the last branch if none was taken |
| Conditionals.Machine.Process | src/assembler.rs:1754-1789 | looks only at the listed words while skipping |
| Conditionals.Machine.AssembleFile | src/assembler.rs:890-908 | a file's statements one by one, and an error for each conditional it leaves open |
| Nested.SkipsBlock | src/assembler.rs:1754-1789 | a dead branch does nothing |
| Nested.RunsClauses | src/directives.rs:1653-1698 | while no branch was taken, the next whose condition holds is, and no other |
| Nested.StackRefinesNesting | src/directives.rs:1585-1698 | any program of the eight words assembles exactly its selected branches and evaluates exactly the conditions met on the way |
| Nested.StackRefinesExactlyIfClear | src/directives.rs:221-240 | with all the words and any number of branches the same holds exactly if along the branches taken no skipped one hides an `.ifb` or `.ifnb` and no `.elif` comes while a branch is to be chosen |
| Nested.OverlookedIsNotRefined | src/assembler.rs:1763-1770 | a nested program that overlooks an opening word never ends as it should |
| Nested.ElifNeedsFirstBranch | src/directives.rs:229 | a second branch begun by `.elif` is right exactly if the first is taken |
| Nested.ReportsItsFaults | src/directives.rs:1585-1698 | however its conditions turn out, a file of words that are always looked at, nested or not, has exactly the errors of its faults |
| Mapping.MappedSection.MapTransition | src/mapping.rs:186-207 | switches the state and marks it, with the data before the first code |
| Mapping.MappedSection.Do | src/mapping.rs:104-175 | each thing a section is made of, with the marks it asks for |
| Mapping.MappedSection.Place | src/mapping.rs:210-246 | every recorded mark at its offset, without those that say nothing |
| MappingReads.PlacedInOrder | src/mapping.rs:210-232 | marks come out in order of offset, inside the section |
| MappingReads.KeptIsStrict | src/mapping.rs:233-245 | those kept lie at strictly increasing offsets below the section's size |
| MappingReads.PruningKeepsGoverning | src/mapping.rs:233-245 | every byte is governed after pruning as it was before |
| MappingReads.TrackedApply | src/mapping.rs:104-207 | whatever is emitted, all bytes so far read as they should and the next will |
| MappingReads.MappingReadsBack | src/mapping.rs:104-246 | each byte an operation emits reads back as what that operation is: an instruction as code of its set, data as data or as nothing before the first mark, no-op padding as code behind its odd bytes |
| MappingReads.FragmentReadsBack | src/mapping.rs:104-246 | every byte of a fragment reads back as the state it was pushed in, from marks that lie in strict order |
| MappingReads.EveryFragmentIsEmitted | src/mapping.rs:104-175 | every fragment is one that some operation's bytes go to |
| MappingReads.BytesMerge | src/section.rs:810-829 | bytes go to the fragment of the bytes before them, unless a label stands between |
| MappingReads.CodeAligns | src/mapping.rs:104-114 | switching to an instruction set aligns the section for it, and nothing aligns it less |
| MappingReads.PoolIsMarked | src/mapping.rs:176-207 | a pool starts a fragment and a mark of its own, even behind data |
| Parser.ExprParser.ParsePrefix | src/expr.rs:946-1124 | a term with its prefixes, built in the arena, as the specification reads it |
| Parser.ExprParser.ParsePostfix | src/expr.rs:812-848 | modifiers wrapped around what they follow |
| Parser.ExprParser.ParseBp | src/expr.rs:780-808 | the climbing parser builds the specified tree, leaves earlier nodes alone and stops where it should |
| Printer.ReadCanBeSpelt | src/expr.rs:1151-1192 | every operator a dialect reads has a spelling that reads as it |
| Printer.ParserUndoesPrinter | src/expr.rs:102-161 | for every dialect's table any tree, printed with parentheses only where needed, is read back whole with the rest untouched |
| Brackets.BracketsAreNeeded | src/expr.rs:780-808 | without the parentheses around an operand, the text is read to its end as another tree |
| Printer.ReadAsWritten | src/expr.rs:795-805 | what is read is what was written exactly outside GNU syntax or without comparisons |
| Printer.GroupsByRung | src/expr.rs:103-161 | of two operators side by side, the one each dialect's manual lists as binding tighter takes the middle term, and of two alike the first |
| Printer.Comparing | src/expr.rs:795-805 | the operators that GNU syntax negates are those of one rung |
| Leb128.EncodeUleb | src/layout.rs:3137-3147 | the loop writes the unsigned encoding |
| Leb128.EncodeSleb | src/layout.rs:3150-3163 | the loop writes the signed encoding |
| Leb128.UlebExact | src/layout.rs:3137-3147 | decoding an encoding followed by anything gives the number and what follows |
| Leb128.SlebExact | src/layout.rs:3150-3163 | the same, signed |
| Leb128.UlebShortest | src/layout.rs:3137-3147 | no encoding of the number is shorter |
| Leb128.SlebShortest | src/layout.rs:3150-3163 | no signed encoding is shorter |
| Leb128.LengthsBounded | src/layout.rs:3137-3163 | every 64-bit number takes one to ten bytes either way |
| Unwind.ProcBlock.Do | src/coff.rs:668-758 | each directive adds its code or is reported |
| Unwind.ProcBlock.Write | src/coff.rs:920-967 | writes the record, last operation first |
| UnwindReads.ReadsCode | src/coff.rs:668-758 | the ABI's reader gets each operation back from its code, amounts modulo 2^32 |
| UnwindReads.InfoFillsItsRoom | src/coff.rs:132-139 | the record is exactly as long as the room reserved, in whole words |
| UnwindReads.UnwindRoundTrips | src/coff.rs:920-967 | every operation taken comes back, in reverse, with the header, exactly if there are at most 255 slots |
| UnwindReads.UnwindExactIfRoom | src/coff.rs:668-758 | they come back just as written exactly if besides that every place is below 256 and every amount below 2^32 |
| UnwindReads.HeaderReadsBack | src/coff.rs:920-967 | version, handler flags, prologue length up to 255 and the last frame register taken come back from the header |
| CodeView.State.String | src/codeview.rs:161-170 | enters a string once and returns its offset |
| CodeView.State.ChecksumOffsetOf | src/codeview.rs:175-181 | sums the entries before a file, unless one is missing |
| CodeView.State.FileGap | src/codeview.rs:186-189 | finds the lowest missing number, and none exactly if there is no gap |
| CodeView.State.FileChecksums | src/codeview.rs:483-523 | writes the entries in order, each with a checksum aligned after |
| CodeView.State.Blocks | src/codeview.rs:410-431 | the loop that builds blocks, or finds a file without an entry |
| CodeView.State.LineTable | src/codeview.rs:393-472 | the bytes of all blocks, with columns where a row has one |
| CodeView.StringsStay | src/codeview.rs:161-170 | a string's offset is its own for good, and a reader finds it there exactly if it holds no NUL |
| CodeView.OffsetsFindEntries | src/codeview.rs:483-523 | an offset finds its entry exactly if the table starts at a multiple of four or no file before has a checksum |
| CodeView.OffsetsDiffer | src/codeview.rs:175-181 | different files have different offsets, if they have any |
| CodeView.BlocksAreRuns | src/codeview.rs:410-431 | blocks are the maximal runs of one file and hold exactly the rows in order, and are refused exactly if a number below the file of some row is missing |
| CodeView.BlockCarriesItsLength | src/codeview.rs:447-465 | the length a block carries is the number of its bytes |
| CodeView.BlockHeadReadsBack | src/codeview.rs:447-465 | a reader finds the block's file and its number of rows |
| CodeView.BlockRowReadsBack | src/codeview.rs:434-472 | a reader finds every row where it should be, with its column if the block has columns |
| CodeView.EntryReadsBack | src/codeview.rs:483-523 | a checksum entry reads back as the file's name and its checksum, length and kind |
| Macros.SubstituteWith | src/macros.rs:64-135 | the loop computes the expansion |
| Macros.LookupIsFirst | src/macros.rs:92-107 | a name stands for what binds it first |
| Macros.ExpansionInvertsQuoting | src/macros.rs:64-135 | a body quoted from segments expands to exactly what they stand for, without looking again at what is put in |
| Macros.BareName | src/macros.rs:102-121 | a name without the empty paste ends where it should exactly if nothing runs into it, and is then replaced |
| Macros.SplitParams | src/macros.rs:333-365 | the loop computes the pieces |
| Macros.JoiningUndoesSplitting | src/macros.rs:333-365 | joining the pieces with commas restores any text |
| Macros.SplittingUndoesJoining | src/macros.rs:333-365 | splitting joined pieces gives them back, if each closes its quotes and brackets and keeps its commas inside |
| Macros.SplitsBetweenItems | src/macros.rs:333-365 | a list of pieces with their quotations closed and brackets in pairs is split at the commas between them and at none in a quotation or bracket |

## Left out

- Settled.SettledIsFixedPoint: says nothing of sections that reach the end of the 64-bit offset space, where offsets saturate; and fragments the shrink guard froze, or that picking afresh settled earlier, are not re-checked by the code and not promised to reach.
- Settles.CodeSettles: bounds the passes by the potential; the code's own limits of 32 and 1000 passes (src/layout.rs:30-36) are not shown to be enough, and sections with `.org`, `.space` or LEB128 sizes that chase labels need not settle at all.
- Least.LeastLayout: is about sections of instructions and data only, fields that hold a number or reach an interval around distance zero, and candidates listed shortest first, which is where the code promises it (src/arch/mod.rs:510-513); differences of labels are left out, and so are distances between sections of a flat image, which need not shrink with the fragments (`FartherAcrossGap`).
- RelocMeans.RelocationPreservesMeaning: is about plain fields of ELF objects with explicit addends and of flat images: no relocation modifiers, no PC rounded down, no bias in a field that is not PC-relative; and relocation numbers that compute what their names say, for the numbers this field goes through, 0 being none. A plain number in a PC-relative field that is always relocated is read as an address, as its relocation has it, whatever the target does with others.
- SlotsDeliver.SlotPoolDelivers: wide literals that are no numbers are not promised anything, since one may be matched to a pair of zeros instead of being refused; and `SafeExactlyIfClean` needs room for one more slot, since a full pool adds none that could be misplaced.
- UnwindReads.UnwindRoundTrips: amounts are read modulo 2^32 and places in the prologue between 0 and 255, which is all the record has room for; `UnwindExactIfRoom` says when nothing is lost.
- Printer.ParserUndoesPrinter: does not cover the Renesas byte separators spelt as words, ca65's functions, NASM's `wrt`, ARM's modifiers in parentheses, bit addresses or numbers the lexer could not read; a symbol is any other word.
- Mapping.MappedSection.Do: takes padding at an alignment and its marks as one step; the mark of a section's tail that needs no padding is left out, and data and code marks of one backend are assumed throughout a section.
- Nested.StackRefinesNesting: the bare-word conditionals of the vendor dialects, which are looked for by another list (src/assembler.rs:1771-1788), are not modelled.
- CodeView.State.String: offsets are not cut to 32 bits, which matters only for a string table of 4 GiB.
- Alignments are rounded to by division; the code uses the same for its sizes, so nothing is assumed about powers of two.
- The fit test, the target of `.org` and the value of a size are functions of the places of everything, standing for the backends' ranges and for evaluation at label addresses.
- Field contents: `FixupKind::write` and the range checks behind it, in-field addends, region, page and paired values.
- COFF and Mach-O relocation, `@SIZE` folding, thread-local and interworking rules.
- DWARF, object writers, the NASM preprocessor, the lexer and the source map.
- Text of error messages, spans, and which of several errors is reported; errors are counted.
