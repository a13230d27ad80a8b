# Proofs about libbacktrace and the command line and message code of vogl

This project models the parts of the repository that are hardest to get right by reading, and proves
what they promise. Each module stands for one part of the program.

**Reading DWARF** (`src/libbacktrace/dwarf.c`). `Words`, `Leb128`, `Readers` and `DwarfBuf` are the
bounds-checked buffer and its number readers. `LineHeader` is the header of a line-number program with its
two tables, `LineHeaderWriter` its inverse, and `LineHeaderBounds` says for which bytes its passes leave the
section. `LineMachine` is the program as a step function, `LineReader` the loop that runs it in place,
`LineAssembler` and `LineRows` its inverse and the expansion of special opcodes, `LineOpcodes` the meaning of
each opcode byte by byte, `LineTable` the sorted table with its sentinel. `Attributes` reads attribute forms,
`AttributeForms` writes them; `Abbrevs` reads the abbreviation table in two passes. `DieWalk` is the walk over
the flattened tree of debugging entries, `DieReader` the recursive loop that builds functions from it,
`DieForest` the same in terms of forests. `DieAttributes` says what the attributes of an entry mean, and
`DieWriter` writes entries and range lists from that. `BinarySearch`, `Sorting`, `AddressRanges` and `RangeSort`
are the searches and orders they rely on. `Lookup`, `Fileline` and `InlineChain` answer where a pc is, from bytes
to callback; `DieLookup` puts the last two groups together.

**Sharing between threads.** `Publication` is the lazy fill of a unit by racing threads, with release
stores, an acquire load and plain loads on histories of each field. `AppendList` is the lock-free list of
modules in `dwarf.c` and `elf.c`.

**Memory** (`mmap.c`, `alloc.c`). `Memory` has pages, regions and the free list, `Allocator` the calls of
one thread, `AllocatorThreads` every interleaving of their steps, and `AllocatorSolo` shows that the steps of one
thread alone make the calls of the former. `VectorSpec` says what a growable vector
is for; `Vectors` and `ReallocVectors` are the two implementations.

**Symbols** (`elf.c`). `ElfSymbols` is the two-pass symbol table and its search.

**Options** (`SimpleOpt.h`). `OptionTable` looks options up, `OptionScan` says what scanning does as a
function of the arguments, `OptionLaws` what is reported for each way of writing one, `ArgOrder` is about the
permuted array, and `OptionParser` is the class that works in place.

**Messages** (`mtqueue.cpp`, `channel.cpp`, `channelmgr.cpp`). `MessageQueue` is the ring, `Channel` the
frames on a byte stream, `MessageFlow` the whole path from producer to callback, and `MessageSteps` shows
that the code of the first two makes the steps of the third.

Code that changes things in place is a class or a method with loops here too, and each such method is
proved to compute a function of its inputs or of the old state, about which the lemmas speak. C integers
are unbounded except where their width matters; there the wrap is written out (`Wrap64`, `Wrap32`,
`Signed32`).

Where the code does not do what its comments or the format's standard say, the model follows the code, a
lemma gives an input that shows it, and another says exactly when the code is right:

- over-long LEB128 numbers are misread from 613566758 bytes on (`Leb128.UnsignedExactIff`);
- `add_line` compares an unrelocated address with a relocated one (`LineRows.AddLinesExactIff`);
- the address advance multiplies before it divides, in 32 bits for some opcodes and in wrapping 64 bits for
  another (`LineRows.AdvanceMeetsStandardIff`, `LineRows.AdvancePcMeetsStandardIff`, `LineRows.AdvancePcOpIndexIff`);
- the passes over the tables of a line header can leave it, and the section, when a table has no end
  (`LineHeader.FillDirs`, `LineHeaderBounds.FilesAstrayIff`, `LineHeaderBounds.CanGoAstrayIff`, with the units of
  `LineHeaderBounds.OpenDirsUnit`);
- joining drops a range behind one that reaches the last address, or that is reversed (`AddressRanges.MergedFindsIff`);
- nested ranges can be missed, as a comment in the source suspects (`AddressRanges.LookupRightIff`);
- a unit that cannot be read answers differently the second time (`InlineChain.HistoryFreeIff`);
- without threads a unit gets the functions that others, read in front of it and not to their ends, have left
  (`InlineChain.AlwaysOwnIff`, with the answers of `InlineChain.LeftFunctionAnswers`);
- `dwarf_lookup_pc` loads `function_addrs` twice, and by plain loads (`Publication.SteadyIff`, `Publication.VisibleIff`);
- `backtrace_vector_grow` leaks what it copied (`Vectors.GrowLeaksIff`);
- `backtrace_vector_release` can free more than there is, and blocks can lose their alignment, when elements
  are not multiples of 8 bytes (`Vectors.ElementSizeIff`);
- `Stop` does not drop a pending clump (`OptionScan.StoppedIff`, with the input of `OptionScan.ClumpOutlivesStop`);
- a timeout inside a frame, at either end, puts the stream out of step, and a lost connection drops messages
  (`MessageFlow.SubsequenceIff`, `MessageFlow.FifoIff`).

## Model

| member | source | states |
|---|---|---|
| Leb128.UnsignedExactIff | src/libbacktrace/dwarf.c:554-585 | read_uleb128 gives the value modulo 2^64 of every terminated number of n bytes, over-long ones included, exactly while n is at most 613566757; at one more byte the 32-bit shift count has wrapped |
| Leb128.SignedExactIff | src/libbacktrace/dwarf.c:589-623 | the same for read_sleb128 and the signed value as an int64; one byte less, because the sign extension shifts once more |
| Leb128.UnsignedRoundTrip | src/libbacktrace/dwarf.c:554-585 | reading undoes the encoding of section 7.6 of DWARF 4, for all 64-bit values, in at most ten bytes |
| Leb128.SignedRoundTrip | src/libbacktrace/dwarf.c:589-623 | the same for all int64 values |
| Leb128.WrappedWitnessIsWrong | src/libbacktrace/dwarf.c:563-585 | a concrete over-long number that is misread once the shift count wraps |
| Leb128.NegativeWitnessIsWrong | src/libbacktrace/dwarf.c:598-623 | a concrete over-long negative number that is misread |
| Leb128.EncodingSpan | src/libbacktrace/dwarf.c:554-585 | an encoded number in front of any bytes is as long as its encoding, so that readers stop behind it |
| DwarfBuf.Buf.Require | src/libbacktrace/dwarf.c:392-405 | succeeds iff enough bytes are left, and otherwise only sets the underflow flag |
| DwarfBuf.Buf.Advance | src/libbacktrace/dwarf.c:410-418 | moves on by the count or not at all |
| DwarfBuf.Buf.ReadByte | src/libbacktrace/dwarf.c:422-430 | takes one byte, or gives 0 and reports underflow |
| DwarfBuf.Buf.ReadUInt16 | src/libbacktrace/dwarf.c:446-457 | takes two bytes in the byte order of the file, or none |
| DwarfBuf.Buf.ReadUInt32 | src/libbacktrace/dwarf.c:461-474 | takes four bytes, or none |
| DwarfBuf.Buf.ReadUInt64 | src/libbacktrace/dwarf.c:478-495 | takes eight bytes, or none |
| DwarfBuf.Buf.ReadOffset | src/libbacktrace/dwarf.c:500-507 | four or eight bytes by the format of the unit |
| DwarfBuf.Buf.ReadAddress | src/libbacktrace/dwarf.c:512-529 | one, two, four or eight bytes; any other size is an error that takes nothing |
| DwarfBuf.Buf.ReadULeb128 | src/libbacktrace/dwarf.c:554-585 | the loop over the buffer equals the reader on byte sequences, underflow in the middle of a number included |
| DwarfBuf.Buf.ReadSLeb128 | src/libbacktrace/dwarf.c:589-623 | the same for signed numbers |
| DwarfBuf.Leb128Len | src/libbacktrace/dwarf.c:627-639 | the length is what both readers consume |
| Readers.ReadEncodedUInt | src/libbacktrace/dwarf.c:446-495 | a fixed-size number written in either byte order is read back, and what follows it is left alone |
| Readers.ULebLocal | src/libbacktrace/dwarf.c:554-585 | a reader depends on the bytes it takes and on nothing behind them |
| Readers.AddressLocal | src/libbacktrace/dwarf.c:512-529 | the same for addresses |
| LineHeader.CountDirs | src/libbacktrace/dwarf.c:1630-1638 | the counting of directories |
| LineHeader.FillDirs | src/libbacktrace/dwarf.c:1647-1660 | the filling: exactly the counted directories, or a failure; it leaves the header or the array exactly when complete strings reach the end of the header and no 0 follows |
| LineHeader.DirsAstrayIff | src/libbacktrace/dwarf.c:1630-1660 | as a function of the bytes: outside exactly then, and a table that is complete has as many directories as were counted |
| LineHeader.DirsWithoutEnd | src/libbacktrace/dwarf.c:1647-1658 | an input: one directory is counted, and a second would be stored |
| LineHeader.CountFilenames | src/libbacktrace/dwarf.c:1662-1673 | the counting of files, whose numbers are measured without regard to the end of the header |
| LineHeader.FillFiles | src/libbacktrace/dwarf.c:1682-1743 | the filling: names resolved against their directories, stored at counted places only, on every input |
| LineHeader.FilesAgree | src/libbacktrace/dwarf.c:1662-1743 | whenever the filling pass ends well, the counting pass stayed inside and counted the same files |
| LineHeader.ReadLineHeader | src/libbacktrace/dwarf.c:1587-1744 | the whole header: fields, with the 2^32 - 1 opcode lengths of an opcode_base of 0, both tables, the program that follows; every rejection |
| LineHeader.OpenUnit | src/libbacktrace/dwarf.c:1973-1996 | the offset check and the length in front, in the 32-bit and the 64-bit format |
| LineHeaderWriter.HeaderRoundTrip | src/libbacktrace/dwarf.c:1587-1744 | a header written as section 6.2.4 of DWARF 4 says, for versions 2 to 4, both formats and every opcode_base, is read back field by field, with the paths of its files (directory, slash and name) and the program behind it |
| LineHeaderWriter.UnitRoundTrip | src/libbacktrace/dwarf.c:1973-1996 | so is a unit with its length in front, wherever in the section it is |
| LineHeaderWriter.OtherHeadersFail | src/libbacktrace/dwarf.c:1598-1611 | other versions, and headers that are longer than what is left, are rejected |
| LineHeaderBounds.FilesAstrayIff | src/libbacktrace/dwarf.c:1662-1743 | the passes over the files leave the section exactly when behind the name of some entry that the counting comes to fewer than three numbers end in it, or the section ends with the header and the table is open there |
| LineHeaderBounds.AfterLebsIff | src/libbacktrace/dwarf.c:627-639 | leb128_len, called k times, stays in the section exactly when k bytes without the continuation bit follow |
| LineHeaderBounds.CanGoAstrayIff | src/libbacktrace/dwarf.c:1629-1743 | for bytes t behind the header: some header in front of t leads outside, exactly unless t begins with a 0 and three numbers end behind it |
| LineHeaderBounds.TablesOutside | src/libbacktrace/dwarf.c:1629-1673 | such headers: no end to the directories, and no end to the name of the only file |
| LineHeaderBounds.OpenDirsUnit | src/libbacktrace/dwarf.c:1647-1660 | a whole unit with any fields and directories and no end to them: the byte behind its header decides between failure and a read or store outside |
| LineReader.LineVector.AddLine | src/libbacktrace/dwarf.c:1536-1568 | a row is appended with the base address added, unless it equals the last row as that is stored |
| LineReader.ReadLineProgram | src/libbacktrace/dwarf.c:1750-1951 | the loop over buffer and registers does what the step function LineMachine.Run says on every input: rows, end of the buffer, underflow flag, rejection, and the divisions by zero |
| LineReader.SpecialOp | src/libbacktrace/dwarf.c:1773-1786 | one special opcode: address, op_index, line and the new row |
| LineReader.ExtendedOp | src/libbacktrace/dwarf.c:1787-1866 | one extended opcode, with the subtraction in its length and the operands of each sub-opcode |
| LineReader.DefineFileOp | src/libbacktrace/dwarf.c:1807-1857 | DW_LNE_define_file: the path it makes, or the rejection of a bad directory |
| LineReader.StandardOp | src/libbacktrace/dwarf.c:1867-1948 | one standard opcode, unknown ones skipped by opcode_lengths |
| LineReader.AdvanceOp | src/libbacktrace/dwarf.c:1876-1935 | the three opcodes that move the address, each in its own integer width |
| LineAssembler.DecodeUndoesAssemble | src/libbacktrace/dwarf.c:1769-1948 | every instruction that can be written is decoded from its bytes, whatever follows |
| LineAssembler.DisassembleUndoesAssemble | src/libbacktrace/dwarf.c:1769-1948 | the same for instruction lists |
| LineAssembler.DecodedIsEncodable | src/libbacktrace/dwarf.c:1769-1948 | whatever is decoded without underflow can be written again |
| LineAssembler.RunDisassembled | src/libbacktrace/dwarf.c:1769-1951 | running the bytes is running the instructions they decode to |
| LineAssembler.ExpandPreservesMeaning | src/libbacktrace/dwarf.c:1773-1786 | section 6.2.5.1 of DWARF 4: replacing every special opcode by advance_pc, advance_line and copy leaves rows, registers and outcome of any program as they were, for every maximum_operations_per_instruction |
| LineAssembler.ExpandRemovesSpecials | src/libbacktrace/dwarf.c:1773-1786 | after the replacement no special opcode is left |
| LineRows.ProgramRebuildsRows | src/libbacktrace/dwarf.c:1750-1951 | the program written for any list of sequences, each from address 0, the first file and line 1 and ended by end_sequence, runs to its end and stores what add_line makes of all their rows |
| LineRows.SequencesForget | src/libbacktrace/dwarf.c:1795-1803 | so it does behind any instructions at all that end in an end_sequence, wherever those left address, op_index, file and line |
| LineRows.LineProgramRoundTrip | src/libbacktrace/dwarf.c:1536-1568 | the rows of all sequences come back exactly when no row equals the one in front of it as that is stored |
| LineRows.AddLinesExactIff | src/libbacktrace/dwarf.c:1544-1552 | no row is lost exactly when none equals its predecessor plus the base address |
| LineRows.RepetitionKeptUnderBase | src/libbacktrace/dwarf.c:1544-1564 | the comparison is between an unrelocated and a relocated address, so a repetition is kept when the base is not 0 |
| LineRows.DistinctRowLostUnderBase | src/libbacktrace/dwarf.c:1544-1564 | and a different row can be dropped |
| LineRows.AdvanceMeetsStandardIff | src/libbacktrace/dwarf.c:1777-1782 | special opcodes and const_add_pc, in unsigned int: the address moves as section 6.2.5.1 says for all op_index and operation advances below 256 exactly when min_insn_len is at most 1 or max_ops is 1; op_index is always right |
| LineRows.AdvancePcMeetsStandardIff | src/libbacktrace/dwarf.c:1876-1884 | DW_LNS_advance_pc, in uint64_t: the address moves as the standard says for all op_index and 64-bit operands exactly when min_insn_len is 0 or max_ops is 1 |
| LineRows.AdvancePcOpIndexIff | src/libbacktrace/dwarf.c:1883 | its op_index is right for all operands exactly when max_ops divides 2^64 |
| LineRows.SmallAdvanceMisses | src/libbacktrace/dwarf.c:1779-1782 | an advance that goes wrong for every min_insn_len and max_ops above 1: max_ops - 1 operations from op_index 0 |
| LineRows.LargeAdvanceMisses | src/libbacktrace/dwarf.c:1881-1882 | and one for min_insn_len 1 by an operand that wraps with op_index |
| LineOpcodes.EndSequenceTakes | src/libbacktrace/dwarf.c:1795-1803 | end_sequence, byte by byte: address 0, op_index 0, the first file if there is one, line 1; the rows stay |
| LineOpcodes.ConstAddPcIsSpecial255 | src/libbacktrace/dwarf.c:1916-1926 | const_add_pc moves address and op_index as special opcode 255 does, crashes where that does, and emits no row |
| LineOpcodes.SpecialMovesLine | src/libbacktrace/dwarf.c:1773-1786 | the line and the row of a special opcode |
| LineOpcodes.FixedAdvanceTakes | src/libbacktrace/dwarf.c:1927-1930 | fixed_advance_pc adds its 16-bit operand as it is and resets op_index |
| LineOpcodes.SetFileTakes | src/libbacktrace/dwarf.c:1889-1908 | set_file: 0 is no file, n up to the count is file n, and more is rejected |
| LineOpcodes.DefineFileTakes | src/libbacktrace/dwarf.c:1807-1857 | define_file: an absolute name as it is, else the directory with that number, a slash and the name; the rejection and the missing directory |
| LineOpcodes.UselessSkipped | src/libbacktrace/dwarf.c:1909-1948 | opcodes without a use, and those that only the header knows, are skipped with exactly as many operands as the standard or the header says |
| LineOpcodes.DiscriminatorSkipped | src/libbacktrace/dwarf.c:1858-1861 | so is set_discriminator |
| LineOpcodes.UnknownExtendedSkipped | src/libbacktrace/dwarf.c:1862-1866 | and any other extended opcode by its length |
| LineOpcodes.CutShortFails | src/libbacktrace/dwarf.c:2001-2005 | a program that ends inside an instruction leaves no table, whatever rows it gave before |
| LineOpcodes.CompleteIsReady | src/libbacktrace/dwarf.c:2007-2043 | one that decodes to its end leaves a table of all its rows and a last entry at the highest address, unless there are no rows |
| LineTable.SortOrderIsStable | src/libbacktrace/dwarf.c:957-973 | the order of line_compare on the positions before the sort lists every row once, by pc and then by position |
| LineTable.LineSignsPartitioned | src/libbacktrace/dwarf.c:976-994 | line_search, which looks at the next entry, meets the demand of bsearch for every pc |
| LineTable.LineLookup | src/libbacktrace/dwarf.c:976-994 | the entry bsearch finds, whichever, is the row that a linear scan of the program's rows finds: the last with the highest pc at or below the query |
| LineTable.LineLookupAnyTies | src/libbacktrace/dwarf.c:957-994 | however ties are broken, every search finds a row with the highest pc at or below the query, if there is one |
| LineTable.LineLookupDomain | src/libbacktrace/dwarf.c:2015-2032 | there is an entry for exactly the pcs from the first entry up to, not including, the highest address |
| LineTable.ScanFindsLast | src/libbacktrace/dwarf.c:957-994 | the scan that is the reference really finds that row |
| LineTable.ReadLineInfo | src/libbacktrace/dwarf.c:2001-2043 | behind the header: the table is ready only after a program without error, underflow or emptiness; otherwise it is marked useless |
| LineTable.LookupLine | src/libbacktrace/dwarf.c:2770-2774 | the search in a finished table |
| BinarySearch.BSearch | src/libbacktrace/dwarf.c:2652-2654 | halving finds some match iff there is one, when the comparisons are partitioned |
| BinarySearch.SearchedFinds | src/libbacktrace/dwarf.c:2652-2654 | so does any search that looks at entries of what is left in an order of its own |
| AddressRanges.RangeVector.Add | src/libbacktrace/dwarf.c:857-892 | one addition: joined to the last range when it adjoins it and has the same owner |
| AddressRanges.AddRangeFindsIff | src/libbacktrace/dwarf.c:867-879 | an addition is found under its owner exactly when what of it lies in front of the range it is joined to was found before |
| AddressRanges.MergedFindsIff | src/libbacktrace/dwarf.c:857-892 | for any additions at all: after each, everything added so far is found, exactly when each addition meets that condition |
| AddressRanges.MergedCoversAll | src/libbacktrace/dwarf.c:857-892 | no reversed ranges, and none that starts at 0 behind one of the same owner that reached the last address: then after each addition every pc of every range added so far belongs to that range's owner |
| AddressRanges.MergedCoversNoMore | src/libbacktrace/dwarf.c:2153-2189 | for any additions, what else is covered is the single address between two additions that were joined |
| AddressRanges.RangeLostAtWrap | src/libbacktrace/dwarf.c:868-878 | behind a range that reaches the last address + 1 wraps, and a range that starts at 0 is dropped: it is lost unless it is empty or was covered |
| AddressRanges.RangeLostBehindReversed | src/libbacktrace/dwarf.c:2167-2176 | a range joined to a reversed one loses its beginning |
| RangeSort.SortRangesSorts | src/libbacktrace/dwarf.c:813-832 | the comparator's order: by start, longer first; the same ranges as before |
| RangeSort.EqualRangesByName | src/libbacktrace/dwarf.c:831 | the same ranges of different functions are in the order of their names |
| AddressRanges.SearchDemandIff | src/libbacktrace/dwarf.c:937-951 | bsearch may be called for every pc exactly when the ends of the sorted ranges ascend too |
| AddressRanges.DisjointOrIdenticalAscend | src/libbacktrace/dwarf.c:912-951 | non-empty ranges that are pairwise disjoint or identical meet that condition |
| AddressRanges.RangeLookup | src/libbacktrace/dwarf.c:2823-2838 | whichever match the search hits first, the forward walk ends at the last range that contains the pc; NULL iff none does |
| AddressRanges.LookupRightIff | src/libbacktrace/dwarf.c:2652-2671 | for sorted ranges, reversed ones included: whichever entries the search looks at, search and forward walk give the last containing range for every pc, exactly when the ends ascend too |
| AddressRanges.NestedRangeMissed | src/libbacktrace/dwarf.c:2662-2671 | an input where they do not: a nested range hides the one around it |
| AddressRanges.LookupRange | src/libbacktrace/dwarf.c:2586-2598 | the search and the forward walk as they are written |
| Abbrevs.CountAttrs | src/libbacktrace/dwarf.c:1060-1066 | the counting of one entry's attributes |
| Abbrevs.CountAbbrevs | src/libbacktrace/dwarf.c:1049-1082 | the counting pass: how many entries there are, and whether the section holds them |
| Abbrevs.FillAttrs | src/libbacktrace/dwarf.c:1103-1139 | the filling of one entry: an array of exactly the counted attributes |
| Abbrevs.FillAbbrevs | src/libbacktrace/dwarf.c:1095-1145 | the filling pass writes exactly the counted entries, never underflows and stops at the same byte |
| Abbrevs.ReadAbbrevs | src/libbacktrace/dwarf.c:1022-1155 | both passes: fails iff the section is short, else the sorted table of all entries |
| Abbrevs.AbbrevsRoundTrip | src/libbacktrace/dwarf.c:1022-1145 | a written table is read back entry by entry |
| Abbrevs.ChildrenFlag | src/libbacktrace/dwarf.c:1101 | any byte but 0 says that an entry has children |
| Abbrevs.SortByCodeSorts | src/libbacktrace/dwarf.c:1000-1016 | the order of abbrev_compare, with the same entries |
| Abbrevs.LookupAbbrevFinds | src/libbacktrace/dwarf.c:1159-1183 | lookup, by index shortcut or search, finds an entry with the code iff there is one |
| Abbrevs.LookupAbbrevUnique | src/libbacktrace/dwarf.c:1159-1183 | with distinct codes it is that entry |
| Abbrevs.LookupAbbrevIn | src/libbacktrace/dwarf.c:1159-1183 | the shortcut and the search as they are written |
| Attributes.ReadAttributeFrom | src/libbacktrace/dwarf.c:666-812 | every form: what it takes off the buffer and what value it gives; unknown forms fail |
| Attributes.AttributeLocal | src/libbacktrace/dwarf.c:666-812 | an attribute depends on the bytes it takes and on nothing behind them |
| AttributeForms.AttributeRoundTrip | src/libbacktrace/dwarf.c:666-812 | a value written in any form as section 7.5.4 of DWARF 4 says, indirect ones included, in front of any bytes, is read as that value in the class of its form, and the bytes behind it are left |
| AttributeForms.OtherFormsFail | src/libbacktrace/dwarf.c:808-811 | any other form fails and takes nothing |
| AttributeForms.BrokenValuesFail | src/libbacktrace/dwarf.c:698-743 | a string without an end, a block that is longer than what is left, and an offset outside of .debug_str fail |
| DieReader.ReadFactsFrom | src/libbacktrace/dwarf.c:2303-2423 | the loop over the attributes of one entry |
| DieReader.AddFunctionRanges | src/libbacktrace/dwarf.c:2195-2246 | a range list, base selections included, or an error |
| DieReader.AddOwnRanges | src/libbacktrace/dwarf.c:2426-2457 | an entry is kept iff it is a function with a name and a pc range; its ranges go to the vector of its nearest kept ancestor |
| DieReader.ReadFunctionEntry | src/libbacktrace/dwarf.c:2252-2501 | the recursive loop, which allocates functions and grows vectors, builds the tree that WalkLevel describes on every input, and ends because left goes down |
| DieReader.ReadEntry | src/libbacktrace/dwarf.c:2274-2498 | one entry with its children |
| DieReader.ReadChildren | src/libbacktrace/dwarf.c:2459-2497 | the children of a kept function go to a vector of their own, sorted when they are read |
| DieReader.ReadFunctionInfo | src/libbacktrace/dwarf.c:2507-2573 | the whole unit: what was in the vector and the unit's own top level ranges, sorted, and the vector empty; or after an error none, and what the unit added stays in the vector |
| DieReader.TreeFrame | src/libbacktrace/dwarf.c:2459-2497 | a finished function is not changed by what is allocated later |
| DieAttributes.AttributesDescribe | src/libbacktrace/dwarf.c:2303-2423 | for attributes in any order, number and form: the name is the last linkage name or name of an origin, else the first plain name; call file, call line, low pc, high pc as an address or an offset, ranges and base are the last ones of their class; it fails exactly when a call file does not exist |
| DieWriter.RangeListRoundTrip | src/libbacktrace/dwarf.c:2225-2243 | a written list of .debug_ranges, with and without base selections, gives exactly its half-open ranges |
| DieWriter.OwnIs | src/libbacktrace/dwarf.c:2426-2457 | an entry is kept exactly when it is a function with a name and ranges: those of its list if it has one, else from its low to its high pc |
| DieWriter.OpenListFails | src/libbacktrace/dwarf.c:2220-2246 | a list that the section ends before its 0, 0 makes the read fail |
| DieWriter.BadListIsError | src/libbacktrace/dwarf.c:2203-2246 | a named function with a list is an error exactly when the list lies outside of .debug_ranges or runs out of it |
| DieWriter.UnknownCodeFails | src/libbacktrace/dwarf.c:2277-2279 | an entry whose code has no abbreviation ends the walk |
| DieWriter.DescribedUnit | src/libbacktrace/dwarf.c:2531-2543 | a unit written from descriptions of entries is walked to its end, and gives the nested functions that they describe, with their names, call sites and ranges |
| DieWriter.PlainFunctions | src/libbacktrace/dwarf.c:2153-2189 | functions with a low and a high pc: each at that half-open range moved by the base address of the module |
| DieLookup.WrittenFunctionFound | src/libbacktrace/dwarf.c:2823-2838 | from bytes to answer: in a unit written from functions that lie apart, the one reported for a pc is the one that contains it, and none where there is none |
| DieForest.WalkEncoded | src/libbacktrace/dwarf.c:2252-2501 | a well-formed forest in front of any bytes is consumed exactly, and yields its contraction |
| DieForest.WalkEncodedUnit | src/libbacktrace/dwarf.c:2531-2541 | a unit that holds a forest is walked completely |
| DieForest.WalkNull | src/libbacktrace/dwarf.c:2274-2276 | a null entry ends a level |
| DieForest.FrontierIff | src/libbacktrace/dwarf.c:2426-2498 | the paths that are collected are exactly those of kept nodes without a kept node above them |
| DieForest.FrontierAscending | src/libbacktrace/dwarf.c:2426-2498 | they come in preorder, each once |
| DieForest.ContractIsFrontier | src/libbacktrace/dwarf.c:2426-2498 | so a kept function has exactly the ranges of the kept nodes whose nearest kept ancestor it is |
| Lookup.DeliverStops | src/libbacktrace/dwarf.c:2608-2617 | the callback is called for the frames in order up to the first non-zero answer, which is the result |
| Lookup.FrameAt | src/libbacktrace/dwarf.c:2606-2624 | each frame names its function, and all but the innermost are at the call site of the frame before |
| Lookup.ReportInlinedFunctions | src/libbacktrace/dwarf.c:2580-2626 | the calls made are those frames, delivered; the file and line left behind are the outermost call site |
| Fileline.ReadUnit | src/libbacktrace/dwarf.c:2702-2758 | what reading a unit stores, from the bytes of its sections and what is in the vector of functions: both tables, or the mark that it is useless; what it leaves in the vector; the run ends exactly when a read or store is outside, the unit is longer than the section, or the program divides by zero or needs a missing directory |
| Fileline.DwarfData.LookupPc | src/libbacktrace/dwarf.c:2634-2758 | which unit answers given what was read before and in which order, with which functions, whether the run survives reading it, and that the calls made are the frames of that answer |
| Fileline.DwarfData.Report | src/libbacktrace/dwarf.c:2760-2850 | the answer of a unit: no file, the file of the unit, a row, or a row with its chain of functions |
| Fileline.DwarfFileline | src/libbacktrace/dwarf.c:2858-2901 | the first module with a range for the pc answers, else a frame without a file; unless the run ends there at least one call is made |
| InlineChain.ReportsContainingIff | src/libbacktrace/dwarf.c:2580-2626 | with disjoint non-empty ranges at each level the functions reported are those that contain the pc, innermost first, and a chain that contains it is the one reported |
| InlineChain.AnswerFrames | src/libbacktrace/dwarf.c:2840-2850 | the innermost frame is at the row in force, each other at the call site of the one before |
| InlineChain.SingleFrame | src/libbacktrace/dwarf.c:2764-2815 | without rows, without a row for the pc, or without a function there is exactly one frame; for a pc that no row covers it names the unit: by its name when that is absolute or there is no directory, else by directory, slash and name, with line 0 |
| InlineChain.FirstModuleAnswers | src/libbacktrace/dwarf.c:2876-2894 | the first module that has a range for the pc answers, and none when there is no such module |
| InlineChain.OwnUnitAnswers | src/libbacktrace/dwarf.c:2652-2671 | with disjoint ranges the unit whose range contains the pc answers, unless it is known to be useless |
| InlineChain.SkipBackStops | src/libbacktrace/dwarf.c:2680-2699 | otherwise the walk goes back over useless units as long as the range in front contains the pc, and no further |
| InlineChain.HistoryFreeIff | src/libbacktrace/dwarf.c:2680-2699 | earlier lookups, in any order, make no difference to the unit chosen, exactly unless it can turn out useless and lies inside another |
| InlineChain.SecondLookupDiffers | src/libbacktrace/dwarf.c:2680-2769 | in that case the first lookup answers without a file and the second with the enclosing unit |
| InlineChain.OwnFunctionsIff | src/libbacktrace/dwarf.c:2521-2566 | reading a unit gives it its own functions and no others exactly when nothing was left in the vector, or no functions are collected for it |
| InlineChain.AlwaysOwnIff | src/libbacktrace/dwarf.c:2721-2729 | in every order of lookups every unit gets its own functions, exactly when there are threads, or no unit leaves any, or none would take them |
| InlineChain.LeftFunctionAnswers | src/libbacktrace/dwarf.c:2721-2729 | else one lookup can answer without a function, or with one that a unit read in front has left |
| Publication.PublicationSafe | src/libbacktrace/dwarf.c:2701-2758 | with racing writers, release stores, an acquire load of lines and plain loads of the other fields, a thread that has seen lines sees only counts and arrays that one complete fill gives |
| Publication.SteadyIff | src/libbacktrace/dwarf.c:2834-2838 | function_addrs is loaded again for the pointer difference; it is the array that was searched, in all runs, only if no second thread may look up |
| Publication.VisibleIff | src/libbacktrace/dwarf.c:2823-2838 | the plain load of function_addrs leads to a filled array, in all runs, only where dependent loads are ordered or nobody races |
| Publication.Racing | src/libbacktrace/dwarf.c:2701-2758 | the run that shows both |
| AppendList.ListsGrow | src/libbacktrace/dwarf.c:2995-3028 | in every interleaving the list is finite, holds exactly the nodes whose threads are done, each once, and is a prefix of every later list |
| AppendList.ReadersSeePrefix | src/libbacktrace/dwarf.c:2876-2894 | what a reader has walked over is a prefix of the list then and later |
| AppendList.ReadersSeeAll | src/libbacktrace/dwarf.c:2876-2894 | and when it stops it has walked over all of the list as it is at that moment |
| AppendList.FailuresBounded | src/libbacktrace/elf.c:437-474 | with k threads that add one node each, a compare-and-swap fails at most k - 1 times |
| AppendList.FailuresReached | src/libbacktrace/elf.c:437-474 | and there is a run in which it does |
| AppendList.Append | src/libbacktrace/dwarf.c:2995-3003 | the loop without threads |
| Allocator.BacktraceState.Alloc | src/libbacktrace/mmap.c:83-156 | the first-fit search, the split and the new page, without threads |
| Allocator.BacktraceState.FreeLocked | src/libbacktrace/mmap.c:66-78 | a block goes to the head of the list, or leaks when it has no room for a header |
| Allocator.BacktraceState.SplitOff | src/libbacktrace/mmap.c:117-122 | the rest behind the rounded size is given back |
| Allocator.BacktraceState.Free | src/libbacktrace/mmap.c:188-211 | a block is freed with the size its caller says |
| Allocator.AllocSafe | src/libbacktrace/mmap.c:83-156 | an allocation has at least the bytes asked for, aligned to 8, apart from all free blocks and all that callers have, which it leaves alone |
| Allocator.AllocIsFirstFit | src/libbacktrace/mmap.c:107-111 | the block taken is the first on the list that is large enough; a page is mapped iff there is none |
| Allocator.RestIsFirst | src/libbacktrace/mmap.c:117-122 | what is left of a larger block is first on the list |
| Allocator.FreedIsUsedAgain | src/libbacktrace/mmap.c:66-78 | a block that was freed is the first to be used again |
| Allocator.FreeSafe | src/libbacktrace/mmap.c:66-78 | free keeps the list and all other blocks intact |
| Allocator.AllocConserves | src/libbacktrace/mmap.c:117-152 | mapped bytes = handed out + free + leaked, and an allocation leaks less than a header |
| Allocator.FreeConserves | src/libbacktrace/mmap.c:66-78 | exactly what a free leaks: the rounding, and the block itself when it is smaller than a header |
| Allocator.RunConserves | src/libbacktrace/mmap.c:66-211 | the same over any run, with blocks freed whole or in part: besides what its caller gives up, each call leaks at most a header's size; alignment is kept too |
| Memory.CutKeepsValid | src/libbacktrace/mmap.c:120-122 | splitting keeps regions apart, aligned and inside their pages |
| Memory.UnlinkKeepsValid | src/libbacktrace/mmap.c:113-116 | taking a block off the list |
| Memory.FreeLockedKeepsValid | src/libbacktrace/mmap.c:66-78 | putting one on it |
| Memory.MapPageKeepsValid | src/libbacktrace/mmap.c:139-146 | a new page |
| AllocatorThreads.RunSafe | src/libbacktrace/mmap.c:83-211 | in every interleaving free blocks, live allocations and blocks in the hands of threads lie apart, inside pages, aligned; a block is free iff it is listed, and then has room for a header |
| AllocatorThreads.OnlyHolderTouchesList | src/libbacktrace/mmap.c:102-130 | the list changes only in a step of the one thread that has the lock |
| AllocatorThreads.ReturnsEnough | src/libbacktrace/mmap.c:83-156 | an allocation that returns hands over at least what was asked for, which was in that thread's hands only |
| AllocatorThreads.CallersKeep | src/libbacktrace/mmap.c:188-211 | what a caller has does not change until a caller frees it |
| AllocatorThreads.StepKeepsInv | src/libbacktrace/mmap.c:83-211 | every atomic step keeps the invariant, with the try-lock that falls back to a page or to a leak |
| AllocatorThreads.RunBalanced | src/libbacktrace/mmap.c:66-211 | in every interleaving mapped bytes = free + callers' + lost + in the hands of threads |
| AllocatorSolo.AllocAlone | src/libbacktrace/mmap.c:83-156 | the steps of one thread, undisturbed and with the lock free, are a whole call of alloc as without threads: first fit, split, new page |
| AllocatorSolo.AllocContended | src/libbacktrace/mmap.c:99-152 | while another thread has the lock: a new page whose rest is lost, and the list is left alone |
| AllocatorSolo.FreeAlone | src/libbacktrace/mmap.c:188-211 | a whole call of free: as without threads, or the loss of the block when the lock is taken |
| AllocatorSolo.AloneDeterministic | src/libbacktrace/mmap.c:83-211 | there is only one way in which a thread can take these steps |
| Vectors.Vector.Grow | src/libbacktrace/mmap.c:216-256 | the three cases of growth, the copy, and the free of the spare part |
| Vectors.Vector.Finish | src/libbacktrace/mmap.c:261-273 | the finished part is split off |
| Vectors.Vector.Release | src/libbacktrace/mmap.c:278-298 | the spare part behind the aligned end is freed |
| Vectors.GrowSafe | src/libbacktrace/mmap.c:216-256 | grown contents are kept, the capacity covers the request, and nothing else that callers have changes |
| Vectors.RoomAfterMove | src/libbacktrace/mmap.c:230-241 | the room after a move: for sixteen elements at first, then as much again below half a page, then to the end of a page |
| Vectors.FinishSafe | src/libbacktrace/mmap.c:261-273 | the finished array holds the contents, and the vector goes on behind it; aligned when the size is a multiple of 8 |
| Vectors.ReleaseSafe | src/libbacktrace/mmap.c:278-298 | release frees only spare bytes of the vector, when the rounding fits |
| Vectors.ReleaseGivesBack | src/libbacktrace/mmap.c:278-298 | what is kept is the contents and their rounding; the rest is first on the free list, if it has room for a header |
| Vectors.ActSafe | src/libbacktrace/mmap.c:216-298 | every operation on a vector leaves the heap valid and all that others have as it was |
| Vectors.SpareWrapsIff | src/libbacktrace/mmap.c:288-295 | the size_t subtraction wraps exactly when the rounding is more than the spare room |
| Vectors.MoveLosesContents | src/libbacktrace/mmap.c:242-246 | exactly what a move leaks: all of the old block but its spare part, because vec->alc is the size that is freed |
| Vectors.GrowLeaksIff | src/libbacktrace/mmap.c:221-250 | growing a vector with contents leaks nothing exactly when it need not move, and else the exact number of bytes |
| Vectors.ElementSizeIff | src/libbacktrace/mmap.c:288-295 | over all runs of any number of vectors on one heap: in no reachable state does the size_t subtraction in release wrap, and blocks stay aligned, exactly when the element size is a multiple of 8 |
| Vectors.FinishedArraysStay | src/libbacktrace/mmap.c:216-298 | any number of vectors on one heap that grow, are written, finished and released in any order with any sizes, with any other allocations and frees of blocks or parts of them: every finished array stays as it was |
| Vectors.RunImplements | src/libbacktrace/mmap.c:216-298 | in any such run each vector does what its abstract vector does |
| ReallocVectors.RunImplements | src/libbacktrace/alloc.c:104-178 | on realloc it does the same, whatever realloc makes of no bytes |
| ReallocVectors.Vector.Grow | src/libbacktrace/alloc.c:104-140 | the capacities of the realloc version |
| ReallocVectors.RoomAfterMove | src/libbacktrace/alloc.c:115-123 | the room after a move |
| ReallocVectors.Vector.Release | src/libbacktrace/alloc.c:167-178 | the block is cut to its size; for an empty vector it is the C library that says whether that fails, and the room is then still on the books |
| ReallocVectors.ReleaseUsableIff | src/libbacktrace/alloc.c:167-178 | afterwards the vector may be used again exactly when it had contents or no room, or realloc to no bytes gives a block |
| ReallocVectors.Vector.Finish | src/libbacktrace/alloc.c:145-162 | the block is cut to its size and given away, or NULL; the vector is empty then |
| ReallocVectors.ActsStable | src/libbacktrace/alloc.c:104-178 | blocks that were finished are not touched |
| OptionTable.CalcMatch | src/common/SimpleOpt.h:960-1023 | -1 iff the match is exact, positive iff it is a proper abbreviation, with the case rules of the option's form |
| OptionTable.LookupOption | src/common/SimpleOpt.h:921-954 | one pass equals: first exact match, else the only abbreviated entry, else the error |
| OptionTable.LookupFindsIff | src/common/SimpleOpt.h:921-954 | an entry is found iff it is the first exact match, or the only one abbreviated and exact matching is not asked for |
| OptionTable.LookupMultipleIff | src/common/SimpleOpt.h:943-953 | MULTIPLE iff two entries are abbreviated and none matches exactly |
| OptionParser.SimpleOpt.constructor | src/common/SimpleOpt.h:568-612 | the state Init leaves |
| OptionParser.SimpleOpt.ShuffleArg | src/common/SimpleOpt.h:896-915 | three copies in place rotate the skipped arguments to the end |
| OptionParser.SimpleOpt.PrepareArg | src/common/SimpleOpt.h:821-836 | the slash that becomes a hyphen |
| OptionParser.SimpleOpt.ScanOne | src/common/SimpleOpt.h:655-724 | one argument is classified; a file is put together again byte for byte |
| OptionParser.SimpleOpt.NextClumped | src/common/SimpleOpt.h:840-884 | one character of a clump |
| OptionParser.SimpleOpt.MultiArg | src/common/SimpleOpt.h:1047-1080 | the arguments are taken, or the error and nothing is; their strings are left as they were |
| OptionParser.SimpleOpt.Next | src/common/SimpleOpt.h:616-807 | on every input the permuted array, the pending clump and what is reported are as the pure scanner NextStep says, and the invariant holds: processed, unscanned and file arguments, each in the order given, files byte-identical |
| OptionParser.SimpleOpt.Stop | src/common/SimpleOpt.h:811-817 | all that was not scanned becomes files, in order |
| OptionParser.SimpleOpt.AllFiles | src/common/SimpleOpt.h:497-513 | the files are original strings in ascending order of their positions |
| ArgOrder.ShuffleKeepsArranged | src/common/SimpleOpt.h:896-915 | the rotation keeps the partition and its order |
| ArgOrder.AdvancedTwice | src/common/SimpleOpt.h:725-733 | consecutive scans add up |
| OptionScan.NextProgresses | src/common/SimpleOpt.h:616-807 | every call that returns true uses something up, so that calling Next repeatedly ends |
| OptionScan.AcceptSucceedsIff | src/common/SimpleOpt.h:745-804 | an option is reported without an error exactly when it has the argument its type asks for, and that argument is reported |
| OptionScan.RunIsReference | src/common/SimpleOpt.h:616-807 | calling Next until it returns false sorts the arguments as one pass from left to right does, whatever was pending |
| OptionScan.FilesAreFiles | src/common/SimpleOpt.h:705-724 | an argument becomes a file iff it names no option, is not to be reported, and is not taken by the option in front of it |
| OptionScan.StoppedIff | src/common/SimpleOpt.h:441-444 | the next call after Stop returns false exactly when no clumped character is left to be reported; the documentation promises it always |
| OptionScan.ClumpOutlivesStop | src/common/SimpleOpt.h:441-444 | the argument "-ab" with clumping: after the first call and Stop, Next reports "-b" |
| OptionLaws.CombinedReported | src/common/SimpleOpt.h:666-672 | name=value: the option with that name is reported with its id, its text and the value, and the error of its type; what follows is left alone |
| OptionLaws.BareReported | src/common/SimpleOpt.h:745-804 | a name by itself: no argument, a missing one, or the next one, unless that looks like a switch |
| OptionLaws.ShortArgReported | src/common/SimpleOpt.h:679-689 | -cvalue with short arguments: option -c is reported with the value |
| OptionLaws.ClumpReported | src/common/SimpleOpt.h:840-884 | a clump: its first character is reported as that option, with the rest as its argument when it needs one, and else the rest is left for later calls |
| OptionLaws.ClumpedUnknown | src/common/SimpleOpt.h:855-861 | a character that is no option is reported as unknown, or left out when errors are suppressed |
| OptionLaws.ClumpsAreExact | src/common/SimpleOpt.h:849-853 | in a clump an option is found under its own text and no other |
| OptionLaws.UnknownReported | src/common/SimpleOpt.h:710-716 | a switch that is not found: its name, its value if any, and the error |
| OptionLaws.FileSkipped | src/common/SimpleOpt.h:718-724 | what is neither becomes a file, and the call goes on behind it |
| OptionLaws.SlashReported | src/common/SimpleOpt.h:821-836 | with a slash for the hyphen, where that is allowed, the same is reported |
| OptionLaws.TakeArgsIff | src/common/SimpleOpt.h:1047-1080 | n arguments are taken exactly when they are there and none looks like a switch, or errors are suppressed |
| OptionLaws.CaseRules | src/common/SimpleOpt.h:969-978 | which of the three flags lets upper and lower case match |
| OptionLaws.PortReported | src/voglserver/server.cpp:59-74 | the options of the server: --port=8080 and --port 8080 both report 8080 |
| MessageQueue.MtQueue.constructor | src/common/mtqueue.cpp:62-135 | a ring of one more element than may be queued, and empty; for 2^32 - 1 that number wraps and the ring cannot be used |
| MessageQueue.MtQueue.FullIff | src/common/mtqueue.cpp:295-306 | the index tests mean full and empty, and the ring never holds more than nElementCount |
| MessageQueue.MtQueue.Enqueue | src/common/mtqueue.cpp:140-200 | whatever others do between its tries, the outcome is decided by the queue at the last: the message is appended, or it is full, or memory fails; the mutex is free on every path |
| MessageQueue.MtQueue.Dequeue | src/common/mtqueue.cpp:205-254 | in the same way the oldest message is taken, or the queue was empty at every try; the mutex is free on every path |
| MessageQueue.MtQueue.Purge | src/common/mtqueue.cpp:258-293 | the loop from head to tail ends with the ring empty |
| Channel.FrameHeader | src/common/channel.cpp:614-650 | the eight-byte size of a frame is read back |
| Channel.WriteAll | src/common/channel.cpp:659-712 | all bytes are sent, or a proper prefix and an error |
| Channel.ReadAll | src/common/channel.cpp:528-585 | all bytes are received, or fewer and an error |
| Channel.WriteMsgLoop | src/common/channel.cpp:615-644 | the frame is sent, or a proper prefix of it |
| Channel.ReadMsgLoop | src/common/channel.cpp:459-506 | what is taken off the stream is one frame, or less than one, or a header for which there is no memory |
| Channel.ReadWritten | src/common/channel.cpp:459-506 | a reader takes exactly the frame that was written, however both were cut up |
| Channel.WriteMsg | src/common/channel.cpp:594-612 | retries after a timeout begin the frame again behind what was sent of it; no tries at all report success |
| MessageFlow.Fifo | src/common/channelmgr.cpp:585-619 | on one connection, in every interleaving, the messages given to the callback are a prefix of those enqueued, in order, each once and unchanged, while at neither end time runs out inside a frame; the ring never holds more than it may |
| MessageFlow.AllDelivered | src/common/channelmgr.cpp:470-501 | when everything was sent and read on it, everything was delivered |
| MessageFlow.LinkFifo | src/common/channel.cpp:508-518 | over any number of connections, each begun when one is lost: what is delivered is a subsequence of what was accepted, and a prefix when nothing unread was dropped |
| MessageFlow.SubsequenceIff | src/common/channel.cpp:458-644 | that it is a subsequence holds in all runs exactly when at neither end time runs out inside a frame, or the ring has no room at all |
| MessageFlow.FifoIff | src/common/channel.cpp:458-644 | what is delivered is a prefix of what was accepted in all runs exactly when at neither end time runs out inside a frame and no connection is lost with anything unread, or the ring has no room at all |
| MessageFlow.Restarted | src/common/channel.cpp:594-612 | the run for the sender: a frame that is begun again is read as a message nobody sent |
| MessageFlow.Misread | src/common/channel.cpp:528-585 | the run for the receiver: a timeout inside a frame, and what is left of it is read as a header |
| MessageFlow.Lost | src/common/channel.cpp:508-518 | the run for a loss: the second message is delivered and the first is not |
| MessageFlow.StepKeepsInv | src/common/channel.cpp:458-520 | every step keeps wire, receiver and queue in agreement with the messages accepted |
| MessageSteps.Produce | src/common/mtqueue.cpp:140-200 | a try at Enqueue is the step of the flow, or no step without memory |
| MessageSteps.Consume | src/common/mtqueue.cpp:205-254 | a try at Dequeue is the step of the flow |
| MessageSteps.Transmit | src/common/channel.cpp:615-644 | writeMsgLoop, however it ends, makes send steps of the flow, and leaves the wire they leave |
| MessageSteps.TakeMessage | src/common/channel.cpp:459-506 | readMsgLoop makes receive steps, and delivers exactly the message it returns |
| ElfSymbols.InitializeSyminfo | src/libbacktrace/elf.c:357-432 | the second pass writes exactly the entries the first counted; fails iff a kept name lies outside the string table |
| ElfSymbols.UnambiguousIff | src/libbacktrace/elf.c:338-352 | non-empty symbols are found without doubt for every address exactly when each ends at or before the next begins |
| ElfSymbols.PrefilterHarmless | src/libbacktrace/elf.c:419-420 | the test of base and symbol_size never turns away an address that a symbol contains, when nothing overflows |
| ElfSymbols.FoundIsScan | src/libbacktrace/elf.c:478-531 | with symbols that lie apart, test and search agree with a linear scan |
| ElfSymbols.SymbolReported | src/libbacktrace/elf.c:478-531 | in terms of the file: a symbol is reported exactly when a defined function or object contains the address, with its name, its address in memory and its size |
| ElfSymbols.SymInfoOf | src/libbacktrace/elf.c:478-531 | the loop over the files, whatever symbols they have: the first in which something is found |
| Sorting.SortBySorts | src/libbacktrace/elf.c:320-332 | the order qsort gives, with the same elements |

## Left out

- MessageSteps.Produce: a call with several tries is one such step for each.
- AllocatorThreads.RunBalanced: how many bytes can be lost is bounded for one thread only, since a thread that finds the lock taken leaks whole blocks.
- LineHeader.OpenUnit: a unit whose length leads out of the section is not followed further; what memory holds behind the section is not part of this model.
- LineTable.SortOrderIsStable: line_compare compares the addresses of entries that qsort may have moved, so that the order by original position is the one intended and is not guaranteed by the code; LineTable.LineLookupAnyTies is about every order by pc.
- LineReader.ReadLineProgram: a division by zero or the length of a missing directory is an outcome of its own (Crashed); what the process does then is not part of this model.
- Fileline.DwarfData.LookupPc: what the process does after a read outside its memory or a division by zero is not part of this model; error callbacks and failed allocations are not modelled.
- Fileline.ReadUnit: read_referenced_name follows references without a cycle check; the names that references lead to are given as a map.
- RangeSort.SortRangesSorts: names are compared as byte strings up to their ends; where the comparator finds two entries equal, qsort may choose their order and the model uses one.
- Abbrevs.LookupAbbrevFinds: with repeated codes it says that some entry with the code is found, not which.
- LineRows.AdvanceMeetsStandardIff: address and op_index of an advance are compared with the standard; that set_address does not reset op_index is kept as in the code.
- Publication.PublicationSafe: each thread looks up once; a plain load that races is taken to return some message of the field's history.
- AppendList.FailuresBounded: loads and swaps are atomic steps in one order; weaker orders between the nodes' contents are not modelled.
- Allocator.BacktraceState.Alloc: mmap always succeeds, with a mapping where nothing is mapped; its failure value is not the NULL that the code looks for. The bytes of a free block's header are not represented, the list is.
- Vectors.ReleaseSafe: the case in which the subtraction wraps is excluded here and in runs, since the block that is freed then is larger than memory; Vectors.ElementSizeIff says when it cannot happen.
- OptionParser.SimpleOpt.ShuffleArg: the second copy overlaps when the tail is longer than what is moved; it is taken to run from front to back. SO_MAX_ARGS and a failed allocation of the shuffle buffer are not modelled.
- OptionParser.SimpleOpt.MultiArg: a negative count, which takes nothing and moves the next option back, is not modelled.
- OptionParser.SimpleOpt.NextClumped: the flags are passed as exact matching instead of being replaced and restored.
- OptionTable.CalcMatch: for the table entry "-" the code looks one character past the end of the string to choose the case rule, which does not matter then; the model does not.
- Channel.ReadMsgLoop: the reconnection after a failure is not followed here; a new connection begins a new stream, and MessageFlow.LinkFifo is about several.
- Channel.WriteMsgLoop: reconnection after a network error is not modelled here; a new connection begins a new stream, and MessageFlow.LinkFifo is about several.
- MessageFlow.Fifo: threads, sockets, clocks and the terminate flag are left out; an enqueue, a dequeue and a transfer of some bytes are atomic steps.
- ElfSymbols.FoundIsScan: symbol addresses do not run past the end of the address space.
- Reading addresses of units (build_address_map, find_address_ranges) is left out: it repeats the readers and range vectors above.
- Build ids, debug links, demangling, the program headers and everything that draws or records are left out.
