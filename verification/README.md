# Verified model of the symbol dumper and symbol resolver

The repository carries the Breakpad tree: a dumper that turns debugging information into text symbol
files, a resolver that reads these files back, and helpers that must work in a crashed process. This
project models their hardest algorithms in Dafny and proves what each is for.

- **The sweep of functions and lines** (`Addresses`, `Sorting`, `SymbolModule`, `SweepTheory`,
  `DwarfCuToModule`, `DwarfLineToModule`): one pass over two sorted lists gives each function exactly its
  intersections with the source lines, and the two coverage warnings are exact. With overlapping input the
  pass still ends, its three asserts hold, and what it gives out is sound.
- **The tree of contained ranges** (`RangeNesting`, `ContainedRangeMap`): the tree of nodes, updated in
  place, behaves like a flat set of pairwise nested or disjoint ranges.
- **The UTF converters** (`BufferConversion`, `Unicode`, `UtfSteps`, `Utf32Sources`, `ConvertUtf`,
  `StringConversion`): resumable conversions between UTF-8, UTF-16 and UTF-32, against RFC 3629 sections 3 and 4 and RFC 2781
  section 2.1.
- **STABS** (`ByteCursor`, `CStrings`, `StabsEntries`, `StabsProtocol`, `StabsOffsets`, `StabsEvents`, `StabsReader`,
  `StabsToModule`, `StabsKept`, `DumpSymbols`): from the bytes of a `.stab` section to functions with sizes.
- **Call frame information** (`Strtok`, `CfiFrameInfo`, `StackCfi`, `RangeMap`,
  `BasicSourceLineResolver`, `StackCfiMeaning`): rules as values, as text in a symbol file, and looked up by
  address.
- **In-place helpers** (`Md5`, `PageAllocator`, `SimpleStringDictionary`): MD5's incremental update, a page
  allocator, a string map in fixed storage.

## How to read it

Objects that the program updates in place are classes; each of their methods is proved against a function
or a map of the old state, and what the program promises is proved about that function as lemmas. Where a
method is long, it is cut into several methods along its comments. Fields marked `ghost` record what the
objects stand for. What a method is proved against is itself held to the bytes, digits, positions or texts it
stands for, by lemmas that do not name how it is computed.

Addresses are numbers below 2^64. `Plus` and `Minus` are the sum and difference of `uint64_t`, with the
wrap-around written out. Shifts and masks of unsigned numbers are divisions and remainders. A null pointer is
`None`, zero or `null`. `std::map` is a Dafny map, or two sequences (`ContainedRangeMap`); where a map is
walked in key order but the result does not depend on the order, the model takes any order, and the theorem
holds for all. `std::sort` promises an order but not what becomes of ties. Calls into the operating system
and clients' callbacks are parameters: the answer of `mmap`, the answers of a `StabsHandler`, the MD5
transform of one block. Strings have no NUL inside.

## Where the code and its documentation differ

- `isLegalUTF8` is documented to tell legal UTF-8. It accepts some sequences led by ED or F4 that are not
  (app/breakpad/src/common/convert_UTF.c:321-330). `Unicode.LegalExactly` says which; `LegalButIllFormed`
  shows one.
- app/breakpad/src/common/convert_UTF.h:89-93 promises that an illegal source is left at the illegal value, and
  line 60 that the first problem encountered is the one indicated. From UTF-8, and strictly from UTF-16, it is so
  (`BufferConversion.StopsAtIllegal`). From UTF-32 a value above 10FFFF sets the result but the loop goes on
  (app/breakpad/src/common/convert_UTF.c:106-108, 453-456). `Utf32Sources.FirstIndicatedExactly` says when a strict
  conversion keeps the promise: if and only if no value above 10FFFF that the target has room for comes before the
  first surrogate; `Strict32LeftAtFirstIllegal` is the same for targets that do not run out. `LargeIsPassed`,
  `LargeBeforeSurrogate` and `LargeThenNoRoom` are inputs at which the source is left behind its illegal value, at
  its second one, or not reported as illegal at all. A lenient conversion to UTF-8 reports a value above 10FFFF too,
  and goes on; one to UTF-16 does not report it (`Lenient32LeftAtFirstIllegal`).
- The comment at app/breakpad/src/common/stabs_reader.cc:98-106 describes each `N_UNDF` value as the size of
  its unit's strings, so that offsets should add up. The code replaces the offset, and it passes over a header
  that lies inside a unit without an end marker (app/breakpad/src/common/stabs_reader.cc:149-176).
  `StabsOffsets.HeadersSetOffset` says what the offset is after any entries, `OffsetRight` exactly when that
  is the sum over all headers before, and `OffsetRightIfMet` what this comes to when no header is passed over.
  `ThreeUnits` and `SecondUnitNotEnded` are two inputs at which it fails.
- `NonAllocatingMap` takes any key that is not empty. A key that fills or overflows its buffer is stored but
  never found; `SimpleStringDictionary.SetThenGet` gives the exact condition. Nor need keys stay distinct, as the
  check at app/breakpad/src/common/simple_string_dictionary.h:194-202 wants: `SetKeepsDistinct` gives the exact
  condition, `LongKeyTwice` an example. `GetValueForKey("")` finds any free entry (`EmptyKeyFindsFree`).
- `PageAllocator::Alloc` rounds up in `size_t`, and the sum wraps for the greatest sizes. Then it asks for one
  page or for none (`PageAllocator.WrappedPages`), and if it is given one it returns a block that does not fit;
  `GreatestSizeGetsOnePage` is an input. `PagesHoldRequest` says for which sizes the pages hold the request,
  and `Alloc` that exactly for the others the blocks are no longer inside their mappings.
- A line that ends right behind `STACK CFI` makes the reader step over the NUL that ends the line
  (app/breakpad/src/processor/basic_source_line_resolver.cc:384-386). `BasicSourceLineResolver.BareLine` says what
  is then read, whatever follows; for "STACK CFI" before "FUNC 1000 10 0 foo", a change of rules at F and nothing
  else (`BareExample`). Each line of a text is read by itself if and only if behind every such line there is at most
  one word, which ends the text (`LineByLine`).
- `CFIRuleParser::Parse` refuses what `CFIFrameInfo::Serialize` prints of an empty rule set
  (`CfiFrameInfo.SerializedReads`).

## Model

| member | source | states |
|---|---|---|
| DwarfCuToModule.WithinIsMembership | app/breakpad/src/common/dwarf_cu_to_module.cc:836-844 | the unsigned subtraction in `within` wraps so that the test is exact membership |
| DwarfCuToModule.NextIsTransition | app/breakpad/src/common/dwarf_cu_to_module.cc:941-1008 | the next transition lies ahead, also when it wraps to zero at the end of the address space, and no function or line begins or ends before it |
| DwarfCuToModule.DwarfCUToModule.SweepStep | app/breakpad/src/common/dwarf_cu_to_module.cc:941-1008 | one round gives the stretch to the function, or warns of the function or the line, exactly as `Extend` records, and makes progress |
| DwarfCuToModule.DwarfCUToModule.SweepRound | app/breakpad/src/common/dwarf_cu_to_module.cc:909-1008 | one round extends what is settled up to the next transition |
| DwarfCuToModule.DwarfCUToModule.AdvanceFunctions | app/breakpad/src/common/dwarf_cu_to_module.cc:1017-1025 | the iterator comes to the first function that holds or follows the address |
| DwarfCuToModule.DwarfCUToModule.AdvanceLines | app/breakpad/src/common/dwarf_cu_to_module.cc:1017-1030 | the same for lines |
| DwarfCuToModule.DwarfCUToModule.SortByAddress | app/breakpad/src/common/dwarf_cu_to_module.cc:862-865 | sorting permutes both vectors, and disjoint items come out one behind the other |
| DwarfCuToModule.DwarfCUToModule.SweepSorted | app/breakpad/src/common/dwarf_cu_to_module.cc:909-1035 | the loop ends, its three asserts hold, and all below 2^64 is settled as `Holds` says: soundly for any input, exactly for disjoint input |
| DwarfCuToModule.DwarfCUToModule.AssignLinesToFunctions | app/breakpad/src/common/dwarf_cu_to_module.cc:847-1036 | the same of the whole method, from unsorted vectors; the reporter has logged just what the record says |
| DwarfCuToModule.PickMeans | app/breakpad/src/common/dwarf_cu_to_module.cc:964-1004 | what the reporter logs: one function or line for each position of the record, in order |
| SweepTheory.HoldsStep | app/breakpad/src/common/dwarf_cu_to_module.cc:909-939 | each round extends what is settled from one transition to the next |
| SweepTheory.HoldsEnd | app/breakpad/src/common/dwarf_cu_to_module.cc:1010-1015 | when every item has ended nothing is left to settle up to 2^64 |
| SweepTheory.SweepOutcome | app/breakpad/src/common/dwarf_cu_to_module.cc:847-1008 | with disjoint functions and lines: a function's pieces are `Cut` and hold a byte if and only if the function and a line do; it is reported once if and only if it has a byte no line covers |
| SweepTheory.SweepReports | app/breakpad/src/common/dwarf_cu_to_module.cc:985-1008 | and, even if there are no functions: nothing but functions is reported as a function, and a line is reported once if and only if it has a byte outside all functions that is not padding |
| SweepTheory.CutIsIntersection | app/breakpad/src/common/dwarf_cu_to_module.cc:946-960 | the pieces are, in ascending order, one for each line that meets the function, each the whole meeting with its line's file and number, and nothing else |
| SweepTheory.AllSoundStep | app/breakpad/src/common/dwarf_cu_to_module.cc:930-939 | whatever overlaps, each piece given out lies in its function and its line, after the pieces before it |
| SweepTheory.PaddingTest | app/breakpad/src/common/dwarf_cu_to_module.cc:985-1004 | the test that excuses a line from the warning is exactly that the rest of a used line runs up to the next function |
| DwarfCuToModule.FuncHandler.Finish | app/breakpad/src/common/dwarf_cu_to_module.cc:533-568 | adds a function if and only if it is non-empty and not at zero, with these bounds; it ends below 2^64, which the sweep relies on |
| DwarfLineToModule.LineHandler.AddLine | app/breakpad/src/common/dwarf_line_to_module.cc:106-140 | adds just the line `Feed` gives for the row, if any, and every line added is non-empty and ends by 2^64 |
| DwarfLineToModule.LinesAreProper | app/breakpad/src/common/dwarf_line_to_module.cc:106-140 | so it is for every line program |
| DwarfLineToModule.DroppedRunLeavesNothing | app/breakpad/src/common/dwarf_line_to_module.cc:114-122 | a contiguous run of rows that starts at zero leaves no line |
| DwarfLineToModule.RunAfterGapIsKept | app/breakpad/src/common/dwarf_line_to_module.cc:114-140 | a row that does not continue omitted code is kept, clipped at 2^64 |
| DwarfLineToModule.KeptExactly | app/breakpad/src/common/dwarf_line_to_module.cc:106-140 | which rows are kept, if and only if, what line each gives, and where omitted code ends |
| ContainedRangeMap.ContainedRangeMap.StoreRange | app/breakpad/src/processor/contained_range_map-inl.h:57-147 | accepts if and only if the size is positive, the range does not wrap, is not stored yet and partly overlaps no stored range; then the flat map grows by it, otherwise nothing changes; the tree stays a tree |
| ContainedRangeMap.ContainedRangeMap.StoreInChild | app/breakpad/src/processor/contained_range_map-inl.h:80-96 | passing the range on to the child that contains it decides for the whole node |
| ContainedRangeMap.ContainedRangeMap.Reparent | app/breakpad/src/processor/contained_range_map-inl.h:119-147 | the new child takes over just the children it contains, and what they store stays stored |
| ContainedRangeMap.ContainedRangeMap.RetrieveRange | app/breakpad/src/processor/contained_range_map-inl.h:151-178 | finds an entry if and only if a stored range has the address, and then that of the smallest such range |
| ContainedRangeMap.ContainedRangeMap.Clear | app/breakpad/src/processor/contained_range_map-inl.h:182-193 | nothing is stored any more |
| ContainedRangeMap.StoreAll | app/breakpad/src/processor/contained_range_map-inl.h:57-147 | any sequence of distinct, pairwise nested or disjoint ranges is accepted in full and stored as given; what the tree takes on is new |
| ContainedRangeMap.AskBoth | app/breakpad/src/processor/contained_range_map-inl.h:57-178 | two trees filled with the same ranges in any two orders answer every query alike: with the smallest range that has the address, if and only if some range has it |
| RangeNesting.AnyOrderSameMap | app/breakpad/src/processor/contained_range_map-inl.h:57-147 | the stored map does not depend on the order of insertion |
| RangeNesting.AnswerIsUnique | app/breakpad/src/processor/contained_range_map-inl.h:151-178 | a stored map allows one answer per address, so equal maps answer alike |
| RangeNesting.SplitsBelow | app/breakpad/src/processor/contained_range_map-inl.h:80-96 | a range inside a child fits the node if and only if it fits that child |
| RangeNesting.LocatedClash | app/breakpad/src/processor/contained_range_map-inl.h:99-117 | whenever the two iterators make the code refuse, some child is partly overlapped |
| RangeNesting.LocatedGathers | app/breakpad/src/processor/contained_range_map-inl.h:119-135 | otherwise the children between the iterators are just those inside the new range |
| RangeNesting.GatherOuter | app/breakpad/src/processor/contained_range_map-inl.h:119-147 | after reparenting, every stored range is a child or in just one child |
| RangeNesting.SplitsAnswer | app/breakpad/src/processor/contained_range_map-inl.h:163-178 | the child's answer, or else the child's own entry, is the answer of the node |
| Unicode.LegalExactly | app/breakpad/src/common/convert_UTF.c:300-336 | accepts all of RFC 3629 section 4; the rest it accepts is exactly led by ED or F4 with a second byte below 80 |
| Unicode.LegalButIllFormed | app/breakpad/src/common/convert_UTF.c:321-330 | such a sequence, and what it decodes to |
| Unicode.EncodeThenValue | app/breakpad/src/common/convert_UTF.c:204-228 | each scalar value's bytes by the table of RFC 3629 section 3 are well formed by section 4, and the table of offsets decodes them to it |
| Unicode.ValueThenEncode | app/breakpad/src/common/convert_UTF.c:184-211 | each well-formed sequence is the encoding of what it decodes to |
| Unicode.BitsOf8 | app/breakpad/src/common/convert_UTF.c:286-292 | the bits of a character in its one to four bytes, as section 3 of RFC 3629 lays them out |
| Unicode.BitsOfLegal | app/breakpad/src/common/convert_UTF.c:204-228 | what a legal sequence decodes to, by its bytes |
| Unicode.BitsOf16 | app/breakpad/src/common/convert_UTF.c:116-121 | the bits of a character in its surrogate pair, as section 2.1 of RFC 2781 lays them out |
| Unicode.EncodedExamples | app/breakpad/src/common/convert_UTF.c:286-292 | the examples of the two documents |
| ConvertUtf.ConvertUtf32ToUtf16 | app/breakpad/src/common/convert_UTF.c:82-126 | result, both end pointers and all of the target are those of `Run`; the rest of the target is untouched |
| ConvertUtf.ConvertUtf16ToUtf32 | app/breakpad/src/common/convert_UTF.c:130-182 | the same |
| ConvertUtf.ConvertUtf16ToUtf8 | app/breakpad/src/common/convert_UTF.c:233-298 | the same |
| ConvertUtf.ConvertUtf8ToUtf16 | app/breakpad/src/common/convert_UTF.c:354-422 | the same |
| ConvertUtf.ConvertUtf32ToUtf8 | app/breakpad/src/common/convert_UTF.c:426-474 | the same |
| ConvertUtf.ConvertUtf8ToUtf32 | app/breakpad/src/common/convert_UTF.c:478-535 | the same |
| ConvertUtf.NextFrom16 | app/breakpad/src/common/convert_UTF.c:137-166 | joins surrogate pairs, and backs up to a lone one |
| ConvertUtf.NextFrom8 | app/breakpad/src/common/convert_UTF.c:359-381 | takes one legal character, and otherwise leaves the source at its start |
| BufferConversion.TakesWhole | app/breakpad/src/common/convert_UTF.c:354-422 | what a call takes is whole characters, and what it writes is just their conversion, whatever the result |
| BufferConversion.TakesLongest | app/breakpad/src/common/convert_UTF.c:354-422 | no longer prefix of whole characters would have fitted |
| BufferConversion.StopsAtIllegal | app/breakpad/src/common/convert_UTF.c:354-422 | unless the target runs out, a call stops just where the converter itself refuses to go on, and reports that; it is at the end of the source if and only if it succeeds |
| BufferConversion.RunsOutOfRoom | app/breakpad/src/common/convert_UTF.c:82-535 | the target is exhausted if and only if a character is left that there is not enough room for |
| BufferConversion.RunSplits | app/breakpad/src/common/convert_UTF.c:130-298 | a call that exhausts its target, and one that goes on from there, make one call with more room |
| BufferConversion.AgainIsOnce | app/breakpad/src/common/convert_UTF.c:130-298 | resuming with any later buffers gives the output, stop point and result of one large call |
| BufferConversion.AgainFinishes | app/breakpad/src/common/convert_UTF.c:130-298 | buffers that hold one character each finish the source |
| UtfSteps.From8Resumable | app/breakpad/src/common/convert_UTF.c:354-535 | all four hold of the converters from UTF-8 |
| UtfSteps.Verdict8 | app/breakpad/src/common/convert_UTF.c:362-369 | from UTF-8, the source is exhausted if and only if what is left is cut off within a character, and illegal if and only if it begins with a whole sequence that is not legal |
| UtfSteps.Verdict16 | app/breakpad/src/common/convert_UTF.c:137-166 | from UTF-16, the source is exhausted if and only if a high surrogate alone is left, and illegal if and only if it is strict and what is left begins with a surrogate by itself |
| UtfSteps.VerdictExamples | app/breakpad/src/common/convert_UTF.h:119-126 | C3 alone is exhausted, 80 illegal; D800 alone is exhausted, DC00 illegal |
| UtfSteps.TrailingIsOnes | app/breakpad/src/common/convert_UTF.c:193-202 | the table of trailing bytes counts the one-bits at the top of the first byte |
| UtfSteps.TextIsWhole8 | app/breakpad/src/common/convert_UTF.c:354-535 | the UTF-8 of any text is whole characters |
| UtfSteps.WholeIsScalars8 | app/breakpad/src/common/convert_UTF.c:354-535 | whole characters stand for scalar values, to which both converters convert |
| UtfSteps.TakesText8 | app/breakpad/src/common/convert_UTF.c:354-535 | a call takes every prefix that is the UTF-8 of some text and whose conversion fits, whatever its result, and writes scalar values |
| UtfSteps.From16Resumable | app/breakpad/src/common/convert_UTF.c:130-298 | and of the strict converters from UTF-16 |
| UtfSteps.WholeIsText16 | app/breakpad/src/common/convert_UTF.c:130-298 | strict UTF-16 that is whole characters is the encoding of scalar values by RFC 2781 section 2.1, and converts to just these |
| UtfSteps.TextIsWhole16 | app/breakpad/src/common/convert_UTF.c:130-298 | and every such encoding is whole characters |
| UtfSteps.TakesText16 | app/breakpad/src/common/convert_UTF.c:130-298 | a call of a strict converter from UTF-16 takes the longest prefix that is such an encoding and fits, whatever its result, and writes just that text |
| UtfSteps.RoundTrips | app/breakpad/src/common/convert_UTF.c:82-535 | every sequence of scalar values survives UTF-32 to UTF-8 or UTF-16 and back |
| UtfSteps.StraightOrThroughUtf32 | app/breakpad/src/common/convert_UTF.c:354-535 | for every UTF-8 source, legal or not, UTF-8 to UTF-16 stops and writes as UTF-8 to UTF-32 to UTF-16 does |
| UtfSteps.Read8To16 | app/breakpad/src/common/convert_UTF.c:354-422 | the UTF-8 of any text converts to its UTF-16 by RFC 2781 section 2.1 |
| UtfSteps.Read16To8 | app/breakpad/src/common/convert_UTF.c:233-298 | and the other way round |
| UtfSteps.Lenient16To8 | app/breakpad/src/common/convert_UTF.c:233-298 | lenient conversion writes a surrogate by itself as three bytes |
| UtfSteps.Lenient16To32 | app/breakpad/src/common/convert_UTF.c:130-182 | and as itself |
| UtfSteps.Write8 | app/breakpad/src/common/convert_UTF.c:426-474 | UTF-32 text is written as RFC 3629 section 3 says |
| UtfSteps.Write16 | app/breakpad/src/common/convert_UTF.c:82-126 | and as RFC 2781 section 2.1 says |
| Utf32Sources.Strict32To8Stops | app/breakpad/src/common/convert_UTF.c:426-474 | whatever the room, unless the target runs out: a strict conversion stops at the first surrogate, and only there; without one, a larger value shows in the result alone |
| Utf32Sources.Strict32To16Stops | app/breakpad/src/common/convert_UTF.c:82-126 | the same |
| Utf32Sources.Strict32LeftAtFirstIllegal | app/breakpad/src/common/convert_UTF.h:89-93 | unless the target runs out, the source of a strict conversion is left at its first illegal value, as promised, if and only if no value above 10FFFF comes before the first surrogate |
| Utf32Sources.PassesExactly | app/breakpad/src/common/convert_UTF.c:82-126 | a call passes a value if and only if no surrogate comes up to it and the target has room for all of them |
| Utf32Sources.FirstIndicatedExactly | app/breakpad/src/common/convert_UTF.h:58-93 | whatever the room, a strict conversion indicates the first problem if and only if it has no room to come to a value above 10FFFF before the first surrogate |
| Utf32Sources.Strict32FirstIndicated | app/breakpad/src/common/convert_UTF.c:82-126 | so it is of both strict converters |
| Utf32Sources.LargeBeforeSurrogate | app/breakpad/src/common/convert_UTF.c:106-108 | at the source [110000, D800] both strict converters leave the source at the second of its illegal values |
| Utf32Sources.LargeThenNoRoom | app/breakpad/src/common/convert_UTF.c:453-459 | at the source [110000, 61] and room for three bytes, the illegal value is passed and not reported |
| Utf32Sources.Writes32To8 | app/breakpad/src/common/convert_UTF.c:426-474 | whatever the room and the result, what is written is the UTF-8 of the values taken, with EF BF BD for those above 10FFFF |
| Utf32Sources.Writes32To16 | app/breakpad/src/common/convert_UTF.c:82-126 | or their UTF-16, with FFFD for surrogates and for values above 10FFFF, the latter left out when strict |
| Utf32Sources.Lenient32To8GoesOn | app/breakpad/src/common/convert_UTF.c:426-474 | a lenient conversion takes the whole source unless the target runs out, and reports an illegal source if and only if a value is above 10FFFF |
| Utf32Sources.Lenient32To16GoesOn | app/breakpad/src/common/convert_UTF.c:82-126 | a lenient conversion takes the whole source unless the target runs out, and reports nothing |
| Utf32Sources.Lenient32LeftAtFirstIllegal | app/breakpad/src/common/convert_UTF.h:80-93 | unless the target runs out, a lenient conversion to UTF-8 keeps the promise if and only if there is no value above 10FFFF; one to UTF-16 reports none |
| Utf32Sources.LargeIsPassed | app/breakpad/src/common/convert_UTF.c:453-456 | at the source [110000], strict or not, conversion to UTF-8 reports an illegal source with the source pointer past it |
| StringConversion.Utf8ToUtf16Char | app/breakpad/src/common/string_conversion.cc:58-83 | returns the length of the first character if and only if it is whole and legal within the limit, with its units in `out`; otherwise zero, and `out` stays zero |
| StringConversion.Utf8ToUtf16 | app/breakpad/src/common/string_conversion.cc:41-56 | the UTF-16 of legal text and a terminator, nothing for other text; though the limit passed lies far behind the vector, no more than the vector's length is written |
| ByteCursor.ByteCursor.Read | app/breakpad/src/common/byte_cursor.h:119-143 | the number the bytes spell in the cursor's byte order, as the variable's type holds it, or the end of the buffer and an incomplete cursor |
| ByteCursor.ByteCursor.CheckAvailable | app/breakpad/src/common/byte_cursor.h:239-247 | true if and only if there are enough bytes; otherwise the cursor is at the end and incomplete |
| ByteCursor.NumberOfDigits | app/breakpad/src/common/byte_cursor.h:119-131 | reading undoes writing, in either byte order |
| ByteCursor.PlaceValues | app/breakpad/src/common/byte_cursor.h:119-131 | the byte at offset i counts 256^i in little-endian order, and 256^(n-1-i) of n bytes in big-endian order |
| ByteCursor.WrapMeans | app/breakpad/src/common/byte_cursor.h:119-135 | a type holds what lies in its range and differs by a multiple of 256^size |
| ByteCursor.SignExtendedMeans | app/breakpad/src/common/byte_cursor.h:132-135 | a two's complement number lies in the range of its bytes |
| ByteCursor.ValueMeans | app/breakpad/src/common/byte_cursor.h:132-140 | a signed number whose first bit is set stands for one 256^n lower when it is read into a wider type |
| ByteCursor.ShiftWrapped | app/breakpad/src/common/byte_cursor.h:122-131 | shifting bytes into a variable of bounded width, signed or not, wraps as the whole number does |
| ByteCursor.FlipSignExtends | app/breakpad/src/common/byte_cursor.h:132-135 | flipping and subtracting the sign bit is two's complement sign extension |
| StabsEntries.EntryIterator.Fetch | app/breakpad/src/common/stabs_reader.cc:58-66 | reads entry k at its offset, and is at the end if and only if k is the number of whole entries |
| StabsEntries.EntryIterator.Advance | app/breakpad/src/common/stabs_reader.h:156-156 | goes on to the next entry |
| StabsEntries.EntryCount | app/breakpad/src/common/stabs_reader.cc:58-66 | the entries are those that lie wholly in the section: its size by the entry size, rounded down |
| StabsEntries.EntryLayout | app/breakpad/src/common/stabs_reader.cc:58-66 | the bytes of an entry, one by one, in either order |
| StabsEntries.LongEntryLayout | app/breakpad/src/common/stabs_reader.cc:58-66 | and of one with a value of eight bytes |
| StabsEntries.SectionRoundTrip | app/breakpad/src/common/stabs_reader.cc:48-66 | any entries, written in either byte order with either value size and followed by less than an entry, are walked as they were |
| StabsReader.StabsReader.Process | app/breakpad/src/common/stabs_reader.cc:93-129 | for every section it ends; if the handler agrees throughout, it is told just what `StabsProtocol.Complete` says, which `StabsEvents` spells out entry by entry; otherwise a beginning of it, up to the first refusal |
| StabsReader.StabsReader.ProcessCompilationUnit | app/breakpad/src/common/stabs_reader.cc:131-219 | the build directory, stray end markers and the start of a unit, as the protocol says, consuming at least one entry |
| StabsReader.StabsReader.ProcessUnitBody | app/breakpad/src/common/stabs_reader.cc:174-199 | functions, queued lines and file names up to the next N_SO |
| StabsReader.StabsReader.ProcessUnitEnd | app/breakpad/src/common/stabs_reader.cc:201-218 | the end of a unit, with the address an end marker gives |
| StabsReader.StabsReader.ProcessFunction | app/breakpad/src/common/stabs_reader.cc:221-244 | a function and the lines queued for it |
| StabsReader.StabsReader.ProcessFunctionBody | app/breakpad/src/common/stabs_reader.cc:246-265 | the function's own lines, at addresses relative to it |
| StabsReader.StabsReader.ProcessFunctionEnd | app/breakpad/src/common/stabs_reader.cc:267-297 | the end of a function, from what follows it |
| StabsProtocol.CompleteConforms | app/breakpad/src/common/stabs_reader.cc:93-298 | for every entries and strings the calls come as (StartCompilationUnit (StartFunction Line* EndFunction)* EndCompilationUnit)* |
| StabsProtocol.CompleteDelivers | app/breakpad/src/common/stabs_reader.cc:175-265 | the lines reported are just those due, once and in order: each in a function, and each before another function of its unit |
| StabsEvents.NamePosition | app/breakpad/src/common/stabs_reader.cc:82-90 | a name is looked up at the unit offset plus the entry offset, modulo 2^64, and at zero if that is outside the section |
| StabsEvents.OutsideReports | app/breakpad/src/common/stabs_reader.cc:131-168 | what an entry outside units reports: the start of a unit, with its name, address and directory |
| StabsEvents.UnitReports | app/breakpad/src/common/stabs_reader.cc:174-244 | in a unit: its end and its address, the start of another, or of a function with its queued lines |
| StabsEvents.FunctionReports | app/breakpad/src/common/stabs_reader.cc:246-297 | in a function: its lines at relative addresses, and its end, by its size or by what follows |
| StabsEvents.EntryMoves | app/breakpad/src/common/stabs_reader.cc:131-297 | in which unit and function an entry leaves the reader |
| StabsEvents.EntryKeeps | app/breakpad/src/common/stabs_reader.cc:174-265 | which file and queued lines it keeps |
| StabsEvents.EndReports | app/breakpad/src/common/stabs_reader.cc:201-214 | the end of the section ends a function and a unit that are open, at zero |
| StabsEvents.NameInOwnPart | app/breakpad/src/common/stabs_reader.cc:82-113 | where the string offset is right, a name is the string in the own part of its unit |
| StabsEvents.TwoUnitsNamed | app/breakpad/src/common/stabs_reader.cc:82-113 | of two units with five characters each, the second name is looked up at six |
| StabsOffsets.HeadersSetOffset | app/breakpad/src/common/stabs_reader.cc:93-113 | after any entries, the string offset is the size given by the last but one of the headers met outside units, and the next one that of the last |
| StabsOffsets.AfterThenComplete | app/breakpad/src/common/stabs_reader.cc:93-129 | the states these entries lead to are those the reader goes through |
| StabsOffsets.SectionOffsetRight | app/breakpad/src/common/stabs_reader.cc:98-113 | after any entries, the offset is the sum of the sizes of all units before if and only if, of all headers before the last, only the last but one that was met gives a size other than zero |
| StabsOffsets.OffsetRight | app/breakpad/src/common/stabs_reader.cc:98-113 | the same over any list of headers, met or passed over |
| StabsOffsets.OffsetRightIfMet | app/breakpad/src/common/stabs_reader.cc:98-113 | when no header is passed over, the offset is right if and only if all before the last two are zero |
| StabsOffsets.ThreeUnits | app/breakpad/src/common/stabs_reader.cc:98-113 | at three headers of sizes 5, 4 and 3 as entries of a section, the third unit is looked up at 4 instead of 9 |
| StabsOffsets.SecondUnitNotEnded | app/breakpad/src/common/stabs_reader.cc:149-176 | at two units of which the first has no end marker, the second header is passed over and the second unit is reported under the first one's name |
| StabsOffsets.PassedOverButRight | app/breakpad/src/common/stabs_reader.cc:149-176 | at a header of size zero and one passed over, the offset is right all the same |
| StabsToModule.StabsToModule.StartCompilationUnit | app/breakpad/src/common/stabs_to_module.cc:68-77 | its assert holds whenever the call is in order; what is held is what was told |
| StabsToModule.StabsToModule.EndCompilationUnit | app/breakpad/src/common/stabs_to_module.cc:79-88 | the same |
| StabsToModule.StabsToModule.StartFunction | app/breakpad/src/common/stabs_to_module.cc:90-99 | the same |
| StabsToModule.StabsToModule.EndFunction | app/breakpad/src/common/stabs_to_module.cc:101-115 | the same; the function is kept if and only if it is not below its unit |
| StabsToModule.StabsToModule.ReportLine | app/breakpad/src/common/stabs_to_module.cc:117-131 | the same; the line's file is the one named, though compared by position only |
| StabsToModule.StabsToModule.Hear | app/breakpad/src/common/stabs_to_module.cc:68-131 | no assert fails on any beginning of a conforming trace |
| StabsToModule.FunctionsAtBoundaries | app/breakpad/src/common/stabs_to_module.cc:90-115 | every function kept starts at a recorded boundary |
| StabsKept.BoundariesExactly | app/breakpad/src/common/stabs_to_module.cc:68-115 | the boundaries are just the addresses of starts of units and functions, and those other than zero of their ends |
| StabsKept.KeptExactly | app/breakpad/src/common/stabs_to_module.cc:90-131 | the functions kept are just those begun and ended not below their unit, in order, with the lines reported between and the file each names |
| StabsKept.TwoFunctionsGathered | app/breakpad/src/common/stabs_to_module.cc:101-115 | a function ends where it is said to end, though the next starts later |
| StabsToModule.StabsToModule.Finalize | app/breakpad/src/common/stabs_to_module.cc:155-195 | every function reported and kept comes out just once, one for one, in order of address, its own lines sorted stably, with the sizes of `IsSize` and `LinesReach`; functions at different addresses never overlap |
| StabsToModule.StabsToModule.SizeFunction | app/breakpad/src/common/stabs_to_module.cc:164-190 | a function ends at the least boundary above its address |
| StabsToModule.NeverOverlap | app/breakpad/src/common/stabs_to_module.cc:166-177 | two functions of different addresses share no byte |
| StabsToModule.FallbackAtEnd | app/breakpad/src/common/stabs_to_module.cc:171-177 | the fallback size is used at the greatest boundary, and only a function there can end off the boundaries |
| StabsToModule.SizesTelescope | app/breakpad/src/common/stabs_to_module.cc:179-189 | a function's line sizes add up, modulo 2^64, to its end less its first line's address |
| StabsToModule.SizesPlain | app/breakpad/src/common/stabs_to_module.cc:183-187 | no size but the last line's can wrap |
| Sorting.WithKeyInTurn | app/breakpad/src/common/stabs_to_module.cc:179-183 | what stable sorting keeps of the lines at an address: these lines in turn |
| StabsToModule.UpperBound | app/breakpad/src/common/stabs_to_module.cc:166-167 | finds the first boundary above an address |
| DumpSymbols.LoadStabs | app/breakpad/src/common/linux/dump_symbols.cc:192-215 | any sections load: the functions are, one for one and in order of address, those the entries report, sized by the boundaries they report, and do not overlap |
| Strtok.NextIsFirst | app/breakpad/src/processor/cfi_frame_info.cc:135-161 | calling `strtok_r` again and again gives all the tokens |
| Strtok.TokensApart | app/breakpad/src/processor/cfi_frame_info.cc:135-161 | text on both sides of a break is cut separately |
| CfiFrameInfo.CFIFrameInfo.Serialize | app/breakpad/src/processor/cfi_frame_info.cc:104-124 | prints the rules there are, each once, joined by single spaces |
| CfiFrameInfo.CFIRuleParser.Parse | app/breakpad/src/processor/cfi_frame_info.cc:126-163 | for every text, applies just the rules `Reads` finds, up to the first error, and tells whether there is one |
| CfiFrameInfo.CFIRuleParser.Report | app/breakpad/src/processor/cfi_frame_info.cc:165-171 | a complete rule goes where its name says, an incomplete one fails |
| CfiFrameInfo.PrintedReads | app/breakpad/src/processor/cfi_frame_info.cc:104-163 | any proper rules, printed, are read as these rules in this order |
| CfiFrameInfo.SerializedReads | app/breakpad/src/processor/cfi_frame_info.cc:104-163 | parsing what Serialize prints rebuilds the same rule set, and succeeds if and only if it is not empty |
| CfiFrameInfo.SerializedLooks | app/breakpad/src/processor/cfi_frame_info.cc:104-124 | the rules of the frame address, the return address and a register, as text |
| CfiFrameInfo.AcceptsExactly | app/breakpad/src/processor/cfi_frame_info.cc:126-163 | tokens are accepted if and only if they begin with a name, and each name is more than its colon and has an expression behind it |
| CfiFrameInfo.ReadsUpToError | app/breakpad/src/processor/cfi_frame_info.cc:126-163 | the rules before an error are reported, but for the one just before it |
| RangeMap.RangeMap.StoreRange | app/breakpad/src/processor/range_map-inl.h:59-160 | accepts, when shrinking is not enabled, just the ranges that are not empty, do not wrap and overlap no other, and moves none; when it is, just those that are not empty, do not wrap and end where no other ends, and then bases move so that no two ranges overlap, and no further, with the distance moved as delta |
| RangeMap.RangeMap.StoreRangeInternal | app/breakpad/src/processor/range_map-inl.h:65-160 | the same, when the range or the one above it has been shrunk already; the retries end |
| RangeMap.OriginalsDetermine | app/breakpad/src/processor/range_map.h:57-77 | the ranges as they were before they were shrunk determine the map, so the order of insertion does not matter |
| RangeMap.EndsFirst | app/breakpad/src/processor/range_map.h:57-77 | of the ranges that had an address before they were shrunk, the one that ends first has it |
| RangeMap.RangeMap.RetrieveRange | app/breakpad/src/processor/range_map-inl.h:163-195 | finds the range that has the address if and only if there is one |
| RangeMap.FreeBetween | app/breakpad/src/processor/range_map-inl.h:85-152 | two searches by high address decide whether a range overlaps any other |
| StackCfi.HexReads | app/breakpad/src/processor/basic_source_line_resolver.cc:451-461 | a number printed in hexadecimal is read as itself |
| StackCfi.HexDigits | app/breakpad/src/processor/basic_source_line_resolver.cc:451-461 | the sixteen digits and their values, small and large |
| StackCfi.NoOtherDigits | app/breakpad/src/processor/basic_source_line_resolver.cc:451-461 | and there are no others |
| StackCfi.HexPlaces | app/breakpad/src/processor/basic_source_line_resolver.cc:451-461 | each digit more multiplies by sixteen, what follows the digits does not count, and a number that is too large gives the largest |
| StackCfi.HexMore | app/breakpad/src/common/module.cc:300-312 | a number is printed as its sixteenth and one digit more |
| StackCfi.NoLeadingZero | app/breakpad/src/common/module.cc:300-312 | no zero comes first, but in zero |
| StackCfi.WriteRuleMap | app/breakpad/src/common/module.cc:224-232 | the text of the rules in some order |
| StackCfi.WriteEntry | app/breakpad/src/common/module.cc:297-318 | the INIT record first, then one record for each address with changes, in ascending order of address, and nothing else |
| StackCfi.EntryInOrder | app/breakpad/src/common/module.cc:297-318 | the records of an entry, one by one |
| StackCfi.RuleMapLooks | app/breakpad/src/common/module.cc:224-232 | a rule as text |
| StackCfi.RecordLine | app/breakpad/src/common/module.cc:297-318 | the lines of an initial record and of a change, and that lines which look so are these records |
| StackCfi.RecordExample | app/breakpad/src/common/module.cc:297-318 | two such lines, at the addresses 18c0 and 18c4 |
| StackCfi.Write | app/breakpad/src/common/module.cc:292-319 | these records entry by entry, in the order of the entries, and no others |
| StackCfi.TextParses | app/breakpad/src/processor/basic_source_line_resolver.cc:375-464 | a written record is read back field by field, whatever follows its line |
| StackCfi.PlatformDecides | app/breakpad/src/processor/basic_source_line_resolver.cc:375-429 | the word behind STACK decides: WIN and CFI records, and nothing else |
| StackCfi.IncompleteFails | app/breakpad/src/processor/basic_source_line_resolver.cc:431-464 | records that lack an address, a size or rules fail |
| StackCfi.TextMeans | app/breakpad/src/processor/source_line_resolver_base.cc:334-339 | parsing a rule map's text replaces just the rules it names |
| StackCfi.TextIsLine | app/breakpad/src/common/module.cc:224-232 | the text of proper rules is not empty and fits on a line |
| BasicSourceLineResolver.Module.LoadMapFromMemory | app/breakpad/src/processor/basic_source_line_resolver.cc:86-190 | the rule tables are those of the records read from the text, up to the hundred and first error |
| BasicSourceLineResolver.LoadStops | app/breakpad/src/processor/basic_source_line_resolver.cc:125-190 | the file is corrupt if and only if a record is bad; reading goes to the end, or to the hundred and first bad record |
| BasicSourceLineResolver.DeltasEntered | app/breakpad/src/processor/basic_source_line_resolver.cc:457-463 | of the changes given for an address the last is entered |
| BasicSourceLineResolver.InitialsEntered | app/breakpad/src/processor/basic_source_line_resolver.cc:440-454 | an initial record is entered, and stays, if it overlaps none entered before |
| BasicSourceLineResolver.Module.ParseStackInfo | app/breakpad/src/processor/basic_source_line_resolver.cc:375-429 | one line changes the tables as its record says; a line without fields takes them from the text behind it, which loses all but their first word |
| BasicSourceLineResolver.LineByLine | app/breakpad/src/processor/basic_source_line_resolver.cc:86-190 | each line of a text is read by itself if and only if behind each line that ends with its platform there is at most a word; then the records are those of the lines, one for one |
| BasicSourceLineResolver.ByItselfExactly | app/breakpad/src/processor/basic_source_line_resolver.cc:375-386 | the text behind a line has a part in its record, or is cut, if and only if the line ends with its platform and more than a word follows |
| BasicSourceLineResolver.BareLine | app/breakpad/src/processor/basic_source_line_resolver.cc:375-386 | a line that ends with its platform gives what the text behind it holds as fields, and what is read next is that text up to the end of its first word; nothing is lost if and only if that word ends it |
| BasicSourceLineResolver.BareBeforeLine | app/breakpad/src/processor/basic_source_line_resolver.cc:375-386 | before a line of two words or more, not an INIT, it gives a change at the number that line begins with, and the rest is not read |
| BasicSourceLineResolver.BareExample | app/breakpad/src/processor/basic_source_line_resolver.cc:375-386 | such a text, with a function record |
| BasicSourceLineResolver.Module.ParseCFIFrameInfo | app/breakpad/src/processor/basic_source_line_resolver.cc:431-464 | the same of its fields; incomplete records fail and change nothing |
| BasicSourceLineResolver.Module.FindCFIFrameInfo | app/breakpad/src/processor/basic_source_line_resolver.cc:280-312 | the initial rules of the range that has the address, with the deltas from its base to the address applied in order |
| BasicSourceLineResolver.Module.ApplyDeltas | app/breakpad/src/processor/basic_source_line_resolver.cc:302-309 | the loop applies just the deltas from the base to the address, in order |
| StackCfiMeaning.ChangedRule | app/breakpad/src/processor/basic_source_line_resolver.cc:301-309 | applying deltas in order leaves, register by register, the last one in force |
| StackCfiMeaning.InForceIs | app/breakpad/src/common/module.h:146-161 | in force at an address is the nearest change before or at it that names the register, and otherwise the initial rule |
| StackCfiMeaning.EnterAllGives | app/breakpad/src/processor/basic_source_line_resolver.cc:431-464 | reading the records of disjoint entries loses none and adds none |
| StackCfiMeaning.TableMeans | app/breakpad/src/common/module.h:146-161 | every address of every entry gets the initial rules overlaid by the changes up to and including it; other addresses get nothing |
| StackCfiMeaning.LinesRead | app/breakpad/src/processor/basic_source_line_resolver.cc:125-190 | the text of any records of entries is read as these records |
| StackCfiMeaning.FileMeans | app/breakpad/src/common/module.h:156-161 | so it is of a written file, which always loads without error |
| StackCfiMeaning.WriteLoadFind | app/breakpad/src/common/module.h:156-161 | so it is through the whole trip: written, loaded and looked up |
| Md5.Context.Update | app/breakpad/src/common/md5.cc:61-103 | state, counter and block account for the old message and the new bytes together |
| Md5.Context.UpdateCount | app/breakpad/src/common/md5.cc:67-71 | the two words count bits modulo 2^64 |
| Md5.AddToCount | app/breakpad/src/common/md5.cc:67-71 | the carry between the words is right for every length |
| Md5.Context.UpdateBlock | app/breakpad/src/common/md5.cc:73-102 | full blocks are transformed in order and the rest is kept |
| Md5.AbsorbConcat | app/breakpad/src/common/md5.cc:61-103 | absorbing a message in two parts is absorbing it at once |
| Md5.LeftOver | app/breakpad/src/common/md5.cc:73-102 | what is kept is the last length modulo 64 bytes |
| Md5.BytesInBlock | app/breakpad/src/common/md5.cc:73-75 | the low word of the counter tells how many these are |
| Md5.UpdateAll | app/breakpad/src/common/md5.cc:61-103 | every way of splitting a message into updates gives the state folded over the blocks of the whole message, and keeps its last bytes in the block |
| Md5.AbsorbFolds | app/breakpad/src/common/md5.cc:73-102 | the state is the fold of the transform over the blocks of the message, cut by position |
| Md5.FoldStates | app/breakpad/src/common/md5.cc:73-102 | the fold, state by state |
| PageAllocator.PageAllocator.Alloc | app/breakpad/src/common/memory.h:74-101 | a new block of the size asked for, at the start of the room or behind the new mapping's header; zero only for size zero or a failed mapping, and then nothing changes; blocks stay apart from each other and from all headers, inside mappings, if and only if nothing was returned, the size fits the room left, or its sum does not wrap |
| PageAllocator.PageAllocator.AllocPages | app/breakpad/src/common/memory.h:88-101 | the same, when the current page has no room: the block lies behind the header of the new mapping |
| PageAllocator.PageAllocator.GetNPages | app/breakpad/src/common/memory.h:118-138 | the new mapping heads the list, and the pages are counted; a failed mapping changes nothing |
| PageAllocator.PageAllocator.OwnsPointer | app/breakpad/src/common/memory.h:105-113 | true if and only if a mapping has the address |
| PageAllocator.PageAllocator.FreeAll | app/breakpad/src/common/memory.h:140-147 | releases each mapping once with its own length, reading no released header |
| PageAllocator.PagesHoldRequest | app/breakpad/src/common/memory.h:88-89 | the pages hold the request and its header if and only if the sum does not wrap, with less than a page to spare |
| PageAllocator.WrappedPages | app/breakpad/src/common/memory.h:88-89 | a size whose sum wraps asks for no page or for one |
| PageAllocator.GreatestSizeGetsOnePage | app/breakpad/src/common/memory.h:88-89 | the greatest size asks for one page |
| PageAllocator.BlocksMissHeaders | app/breakpad/src/common/memory.h:74-101 | no block touches any header |
| PageAllocator.Carve | app/breakpad/src/common/memory.h:78-86 | giving out the first bytes of the free room keeps blocks and room apart |
| PageAllocator.PushHeader | app/breakpad/src/common/memory.h:130-137 | a header in front keeps list, mappings and page count right |
| SimpleStringDictionary.NonAllocatingMap.SetKeyValue | app/breakpad/src/common/simple_string_dictionary.h:161-208 | the entries become those of `Set` or `Remove`, for every key and value |
| SimpleStringDictionary.NonAllocatingMap.RemoveKey | app/breakpad/src/common/simple_string_dictionary.h:212-225 | the first entry with the key is freed, and no other changes |
| SimpleStringDictionary.NonAllocatingMap.GetValueForKey | app/breakpad/src/common/simple_string_dictionary.h:145-155 | the value of the first entry with the key |
| SimpleStringDictionary.NonAllocatingMap.GetEntryForKey | app/breakpad/src/common/simple_string_dictionary.h:238-249 | finds that entry |
| SimpleStringDictionary.NonAllocatingMap.GetCount | app/breakpad/src/common/simple_string_dictionary.h:133-141 | the number of active entries |
| SimpleStringDictionary.Iterator.Next | app/breakpad/src/common/simple_string_dictionary.h:87-95 | passes the active entries one by one, to the end |
| SimpleStringDictionary.ComparesText | app/breakpad/src/common/simple_string_dictionary.h:238-245 | comparing at most the buffer's size of characters compares with the stored text |
| SimpleStringDictionary.StoredText | app/breakpad/src/common/simple_string_dictionary.h:178-208 | what is stored is the text, cut off one short of the buffer |
| SimpleStringDictionary.TruncatedMeans | app/breakpad/src/common/simple_string_dictionary.h:178-208 | the text cut off: as much of its beginning as fits |
| SimpleStringDictionary.SetAgrees | app/breakpad/src/common/simple_string_dictionary.h:161-208 | with a proper key, setting is what it is on a map of limited size, and keys stay distinct |
| SimpleStringDictionary.RemoveAgrees | app/breakpad/src/common/simple_string_dictionary.h:212-225 | removing removes from the map |
| SimpleStringDictionary.LookupAgrees | app/breakpad/src/common/simple_string_dictionary.h:145-155 | looking up looks up in the map |
| SimpleStringDictionary.ContentsHold | app/breakpad/src/common/simple_string_dictionary.h:133-141 | the count is the size of the map |
| SimpleStringDictionary.ActiveAreContents | app/breakpad/src/common/simple_string_dictionary.h:78-105 | the iterator passes each key of the map once, with its value |
| SimpleStringDictionary.RunAgrees | app/breakpad/src/common/simple_string_dictionary.h:133-252 | so it is after every run of operations with proper keys |
| SimpleStringDictionary.SetThenGet | app/breakpad/src/common/simple_string_dictionary.h:161-208 | a key just set is found if and only if it is shorter than its buffer and there was an entry for it |
| SimpleStringDictionary.SetKeepsDistinct | app/breakpad/src/common/simple_string_dictionary.h:161-208 | setting keeps keys distinct if and only if the key is shorter than its buffer, or no entry is free, or what is stored of the key is nothing or no entry's key yet |
| SimpleStringDictionary.LongKeyTwice | app/breakpad/src/common/simple_string_dictionary.h:174-187 | a key that is too long, set twice, takes two entries |
| SimpleStringDictionary.EmptyKeyFindsFree | app/breakpad/src/common/simple_string_dictionary.h:145-155 | looking up the empty key finds something if and only if an entry is free |

## Left out

- `MD5Final`, and the transform of a block with its byte reversal: the transform is a parameter, and no digest is claimed, since the length is not stored where RFC 1321 wants it (app/breakpad/src/common/md5.cc:141-142).
- The rest of `DwarfCUToModule`: attributes, specifications, names, demangling and the text of warnings.
- `DwarfLineToModule::DefineDir`, `DefineFile` and `ExpandPath`: a file table is a map here.
- `ContainedRangeMap`: `map_` that is NULL and one that is empty are the same here.
- `RangeMap::RetrieveNearestRange` and `RetrieveRangeAtIndex`; the logging of `RangeMap`.
- `UTF16ToUTF8`, `UTF32ToUTF16` and the other string wrappers, which only call the converters.
- ByteCursor.ByteCursor.Read: strings, blocks and skipping are not modelled; STABS entries need numbers only.
- StabsReader.StabsReader.Process: `ProcessExtern` is compiled for Mach-O only and is not modelled; warnings about name offsets outside the section are not logged. The values of `N_SO` and its like come from the system's stab.h, which is not part of this model's sources.
- StabsToModule.StabsToModule.Hear: the handler hears the reader's trace after the reader is done with it; as it agrees to every call, it hears the same calls in the same order.
- StabsToModule.StabsToModule.Finalize: `Module::AddFunctions`, which drops duplicates and asserts that names are not empty, is not modelled; names are not demangled.
- StackCfi.Write: only the STACK CFI records, with the load address zero as constructed; stream errors are not modelled.
- BasicSourceLineResolver.Module.LoadMapFromMemory: records other than STACK CFI are passed over, so their errors and a STACK WIN line that ends with its platform are not modelled; nor are NULs in the file, which become underscores. If the last line of the file ends right behind "STACK CFI" and no break ends it, the code reads behind the end of its buffer; the model finds no text there.
- BasicSourceLineResolver.Module.ParseStackInfo: a STACK WIN record, which the code may refuse, counts as read.
- StackCfi.HexReads: `strtoul` accepts leading blanks, a sign and "0x", which the writer never prints.
- BasicSourceLineResolver.Module.FindCFIFrameInfo: evaluating the rules (`FindCallerRegs`, `PostfixEvaluator`) is not modelled; an expression is text.
- PageAllocator.PageAllocator.Alloc: that the kernel's pages are fresh, and that it maps nothing of length zero, are preconditions; failures of `munmap`, the growth of `PageStdAllocator` and `wasteful_vector` are not modelled.
- SimpleStringDictionary.NonAllocatingMap.SetKeyValue: asserts are taken as compiled out; for proper keys the sanity check at lines 194-202 is what `SetAgrees` proves. Copies and serialization of the map are byte copies and not modelled.
- `FastSourceLineResolver`, minidump writing, DWARF call frame parsing, stack walking, exploitability, the x86 disassembler, the VPN and Java parts: I/O, tables, or easier than what is here.
