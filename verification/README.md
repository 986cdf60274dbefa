# alpine_on_ios: a model and its proofs

An emulator that starts AArch64 Linux programs on iOS, and the converter that turns their
ELF files into Mach-O libraries.  The model covers the parts whose correctness is hardest
to see from any one function.

- **Converter** (`Uleb`, `ExportTrie`, `TrieSizing`, `TrieSettling`, `TrieEncoding`, `TrieBuilder`, `OpcodeBuffer`,
  `OffsetSort`, `Relocs`, `Rebase`, `Bind`, `LittleEndian`, `SelfReloc`, `MachoHeader`, `MachoLayout`, `MachoFields`,
  `MachoNames`, `MachoImage`, `MachoFile`): the export trie is proved to be, to a reader of its bytes, the map of the exported symbols; the
  rebase and bind streams to do in dyld's interpreter what the relocation tables ask for; and a reader of the
  finished file to find code, data, imports, exports and resolved relocations by following its header alone.
- **Guest memory** (`AddressSpace`, `MemSpace`, `Tlb`, `StaleCache`, `GuestAccess`): the list of regions, the mapping
  calls and the translation cache together refine a plain map from addresses to bytes, exactly within pages, and
  across them up to the places where regions meet.
- **Signals** (`Signals`, `SignalRuns`): over every run and any nesting, returning from a handler
  restores what delivery saved.
- **Processes** (`ExitWait`, `WaitAnswers`, `InitialStack`): no wake-up is lost between exit and wait in any
  interleaving, and a wait answers by the children there are; the initial stack, written through the regions, reads back as what was passed.
- **Futexes** (`Futex`): a hashed table of waiters agrees with one flat list.
- **Arithmetic and paths** (`WideMul`, `PathNormalize`, `PathResolve`): the wide multiplies are
  exact; path resolution ends and stays under its root.

Where the code does not meet a property on all inputs, the property is stated with its exact
condition and an input at which it fails: `GuestAccess.AccessExact` and `StraddlingFaults`,
`Tlb.TrustedExactlyWhenSafe` with `EmptyAccessSpoils` and `WrappedAccessHits`, `StaleCache.CoherentAfterCut` and
`TailGoesStale`, `Rebase.VisitedExactlyWhenSpaced` and `OverlapMissed`, `SelfReloc.LoadedSlot` and
`JumpTableUnslid`, `Futex.UnlinkExact` and `RequeuedWaiterStays`, `MachoLayout.TablesInPlace` and
`ManySymbolsMisplaced`, `MemSpace.Run` and `EmptyRegionStays`, `PathNormalize.NormalizeTwice` and `ShortBufferChanges`.

Code that changes state is modelled by classes, arrays and loops whose contracts name a
specification function; the laws are lemmas about those functions.  Host calls, clocks and the
file system are parameters.  The file formats on the reading side follow DWARF version 5, section 7.6
(ULEB128), Apple's dyld opcode and export trie formats, and the ELF for the Arm 64-bit
Architecture (AAELF64) relocation rules.

`dafny verify dfyconfig.toml` checks the whole project.

## Model

| member | source | states |
|---|---|---|
| Uleb.ReadWritten | scripts/elf2macho.c:300-311 | a decoder written from the ULEB128 format alone gives back the number and the position after it, whatever bytes follow |
| Uleb.WriteUleb | scripts/elf2macho.c:300-311 | writes exactly the encoding at the given place of the buffer and no other byte; returns its length |
| Uleb.UlebSize | scripts/elf2macho.c:1201-1207 | the predicted length is the length of what the writer emits, for every value |
| Uleb.UlebFits | scripts/elf2macho.c:1201-1207 | exactly the values below 128^k need at most k bytes |
| Uleb.UlebAtMostTen | scripts/elf2macho.c:622-627 | the ten bytes reserved before a number hold any 64-bit value |
| ExportTrie.InsertIsUpdate | scripts/elf2macho.c:1144-1199 | insertion is a map update: the name gets the value, every prefix, extension and divergence keeps its meaning, and sibling edges stay nonempty with distinct first bytes |
| ExportTrie.InsertAllMeaning | scripts/elf2macho.c:1288-1311 | a trie built from any list of symbols maps each name to the value inserted last under it, and no other name |
| ExportTrie.ChildCountFits | scripts/elf2macho.c:1272 | no node has more than 255 children, so the one-byte count is exact |
| ExportTrie.SortKidsSorts | scripts/elf2macho.c:1210-1226 | sorting gives the same siblings in ascending order of edges |
| ExportTrie.AscendingUnique | scripts/elf2macho.c:1210-1226 | there is only one such order, so any correct sort agrees |
| ExportTrie.SortKeepsMeaning | scripts/elf2macho.c:1210-1226 | sorting a whole trie changes the meaning of no name |
| TrieSizing.PassMonotone | scripts/elf2macho.c:1230-1258 | a sizing pass is monotone in the recorded offsets and in its base |
| TrieSizing.PassesAscend | scripts/elf2macho.c:1312-1317 | from freshly built nodes, offsets and totals never decrease from pass to pass |
| TrieSizing.EqualTotalsSettle | scripts/elf2macho.c:1312-1317 | two equal totals mean that no offset or size in the trie moved, so the stopping test is sound |
| TrieSizing.TotalsBounded | scripts/elf2macho.c:1312-1317 | one bound, known from the unsized trie, holds for the total of every pass |
| TrieSizing.SettlingPass | scripts/elf2macho.c:1312-1317 | without the limit on passes the loop reaches its stopping test on every trie |
| TrieSizing.PassesKeepMeaning | scripts/elf2macho.c:1230-1258 | sizing passes change the meaning of no name |
| TrieSettling.PassSparse | scripts/elf2macho.c:1230-1258 | a pass leaves nodes at least two bytes apart: any window of offsets holds at most half as many nodes as bytes |
| TrieSettling.PassShift | scripts/elf2macho.c:1230-1258 | from one pass to a later one no node moves farther than the end of the trie does |
| TrieSettling.Growth | scripts/elf2macho.c:1312-1317 | below sixteen kilobytes the growth between two passes is the number of nodes that left the one-byte offsets |
| TrieSettling.GrowthHalves | scripts/elf2macho.c:1312-1317 | so each pass grows by at most half, rounded up, of what the pass before it grew by |
| TrieSettling.SettlesWithinTen | scripts/elf2macho.c:1312-1317 | a trie that stays within sixteen kilobytes reaches the stopping test within the ten extra passes |
| TrieSettling.SmallSettles | scripts/elf2macho.c:1312-1317 | it does so whenever the first pass returns at most 10922 |
| TrieSettling.LightSettles | scripts/elf2macho.c:1288-1317 | and for every symbol list whose names weigh at most 10920 bytes, with nineteen more for each |
| TrieEncoding.EncodeLength | scripts/elf2macho.c:1260-1282 | the encoder emits as many bytes as the sizing pass predicts |
| TrieEncoding.EncodedTrieIsTheMap | scripts/elf2macho.c:1260-1282 | walking the bytes of a well-placed trie as dyld does gives, for every name, what the trie gives |
| TrieEncoding.PlacedExactlyWhenSettled | scripts/elf2macho.c:1312-1323 | after k passes every recorded offset is the true one if and only if one more pass would return the same total |
| TrieEncoding.ExportsRoundTrip | scripts/elf2macho.c:1288-1327 | for every symbol list and every query, the settled bytes walked from offset 0 give the value inserted last, or nothing |
| TrieBuilder.TrieNode.constructor | scripts/elf2macho.c:1111-1118 | a fresh node with the given edge, owning only itself |
| TrieBuilder.TrieNode.AddChild | scripts/elf2macho.c:1132-1141 | appends a disjoint subtree to the heap node and to its abstract trie |
| TrieBuilder.TrieNode.FindChild | scripts/elf2macho.c:1149-1158 | the linear search finds the child of the abstract lookup |
| TrieBuilder.TrieNode.SplitEdge | scripts/elf2macho.c:1166-1186 | cutting an edge in place gives the abstract split, with the old node below a new one |
| TrieBuilder.TrieNode.Insert | scripts/elf2macho.c:1144-1199 | insertion into the linked nodes is abstract insertion, and touches only nodes of this trie or new ones |
| TrieBuilder.TrieNode.SortSiblings | scripts/elf2macho.c:1212-1224 | the exchange sort leaves the same siblings in ascending order |
| TrieBuilder.TrieNode.SortChildren | scripts/elf2macho.c:1210-1226 | sorting in place, then each subtree, is the abstract sort |
| TrieBuilder.TrieNode.ComputeSizes | scripts/elf2macho.c:1230-1258 | one in-place pass is the abstract sizing pass |
| TrieBuilder.TrieNode.SelfSize | scripts/elf2macho.c:1232-1250 | the size computed for a node is the number of bytes its encoding takes |
| TrieBuilder.TrieNode.EncodeNode | scripts/elf2macho.c:1260-1282 | writes exactly the encoding of the subtree, and nothing elsewhere in the buffer |
| TrieBuilder.TrieNode.SizeUntilSettled | scripts/elf2macho.c:1312-1317 | the loop ends after one to ten extra passes with the offsets and the total of the last one, and the last two totals agree if and only if some two within the limit do |
| TrieBuilder.InsertExports | scripts/elf2macho.c:1291-1307 | inserting each external symbol under its underscored, cut name builds the trie of the export list |
| TrieBuilder.BuildExportTrie | scripts/elf2macho.c:1288-1327 | whenever the passes settle within the limit, a reader of the result finds the last symbol of each underscored, cut name at its address plus the shift, modulo 2^64, and finds no other name |
| TrieBuilder.LightExports | scripts/elf2macho.c:1288-1327 | they settle for every list of external symbols whose names weigh at most 10920 bytes, with twenty more for each |
| OpcodeBuffer.Buffer.Grow | scripts/elf2macho.c:606-613 | makes room without changing the contents |
| OpcodeBuffer.Buffer.Byte | scripts/elf2macho.c:615-620 | appends the byte |
| OpcodeBuffer.Buffer.Number | scripts/elf2macho.c:622-627 | appends the encoding of any 64-bit number |
| OpcodeBuffer.Buffer.String | scripts/elf2macho.c:629-636 | appends the string and its terminator |
| OffsetSort.Sort | scripts/elf2macho.c:927-938 | sorts in place and keeps the members |
| OffsetSort.Dedup | scripts/elf2macho.c:939-947 | on a sorted array leaves the strictly ascending list of the members in front |
| OffsetSort.SortDistinct | scripts/elf2macho.c:927-947 | sorting and removing duplicates gives the distinct members in ascending order |
| OffsetSort.AscendingUnique | scripts/elf2macho.c:927-947 | an ascending list is determined by its members, so the result does not depend on the algorithm |
| Rebase.ParseAssembled | scripts/elf2macho.c:948-984 | decoding the emitted opcodes gives back the program they were assembled from |
| Rebase.VisitedExactlyWhenSpaced | scripts/elf2macho.c:960-981 | the emitter reaches its targets themselves if and only if each lies at or beyond the end of the one before |
| Rebase.RebasedPlaces | scripts/elf2macho.c:814-984 | for every relocation table dyld rebases one place per target, and these are the targets if and only if they do not overlap |
| Rebase.OverlapMissed | scripts/elf2macho.c:960-981 | with two relative relocations four bytes apart dyld rebases the second eight bytes behind the first |
| Rebase.RebaseTargetsExact | scripts/elf2macho.c:814-947 | the targets are ascending and are exactly the collected offsets inside the segment |
| Rebase.CollectOffsets | scripts/elf2macho.c:840-926 | collects the relative entries of the first table and the defined symbol relocations of both |
| Rebase.BuildRebases | scripts/elf2macho.c:814-984 | the buffer holds exactly the stream that the above is about |
| Bind.ParseAssembled | scripts/elf2macho.c:674-751 | decoding the emitted bind opcodes gives back the program |
| Bind.FindUndefExact | scripts/elf2macho.c:642-663 | a relocation is an import if and only if some undefined, unversioned global or weak symbol carries its name, and the weak flag is that of such a symbol |
| Bind.CollectUndefs | scripts/elf2macho.c:517-553 | the second symbol pass lists exactly the importable symbols in order |
| Bind.FindUndefByElfSym | scripts/elf2macho.c:642-663 | the linear search returns the first undefined symbol of that name |
| Bind.BoundImports | scripts/elf2macho.c:674-751 | dyld binds exactly the imports of the image, in table order, each at its own place with its own name and flag |
| Bind.BuildBinds | scripts/elf2macho.c:674-751 | in dyld's interpreter the stream makes one binding for each relocation of kind 257, 1025 or 1026 whose name an undefined, unversioned global or weak symbol carries and whose shifted offset is not below the segment, in table order: at that offset, under the underscored name cut at 254 characters, weak if the first such symbol is |
| Bind.StreamBindsAll | scripts/elf2macho.c:674-751 | the same of the specified stream, for all tables |
| SelfReloc.ApplySelfRelocs | scripts/elf2macho.c:1010-1065 | pre-writes the value of each self-resolved relocation whose slot lies in the data segment and in the file, and nothing else |
| SelfReloc.TargetsApart | scripts/elf2macho.c:814-984 | when slots do not overlap, the rebase targets are spaced, inside the file, and each is the slot of a collected relocation |
| SelfReloc.StreamPlaces | scripts/elf2macho.c:814-984 | running the emitted stream visits exactly those targets |
| SelfReloc.LoadedSlot | scripts/elf2macho.c:1010-1065 | after pre-writing and sliding, a slot holds its AAELF64 result for the base the loader recomputes, if and only if the relocation was collected for rebasing or the slide is zero |
| SelfReloc.JumpTableUnslid | scripts/elf2macho.c:1010-1065 | a relative relocation in the second table holds the wrong value once the image has moved |
| SelfReloc.LoadedElsewhere | scripts/elf2macho.c:1010-1065 | no byte outside those slots changes |
| MachoHeader.CommandsWritten | scripts/elf2macho.c:1850-2095 | walking load commands by their own size fields finds each command whole and in order |
| MachoHeader.HeaderFits | scripts/elf2macho.c:1754-1835 | with up to sixteen libraries and names cut at 255 bytes the header ends inside the first page |
| MachoHeader.Measure | scripts/elf2macho.c:1754-1835 | the counts computed beforehand are the number and the total size of the commands written afterwards |
| MachoHeader.WriteCommand | scripts/elf2macho.c:1924-2000 | a command, its string and its padding take exactly its size field and disturb nothing else |
| MachoHeader.WriteHeader | scripts/elf2macho.c:1837-2095 | whatever the fields, a loader that trusts the counts finds every command; the header is 32 plus the counted bytes, ends inside the first page, and nothing after it is touched |
| MachoLayout.FindSegments | scripts/elf2macho.c:1520-1552 | the text is the first executable loaded segment, the data the first writable one other than it |
| MachoLayout.FirstTextIs | scripts/elf2macho.c:1538-1543 | the text is the first executable loaded segment |
| MachoLayout.FirstDataIs | scripts/elf2macho.c:1544-1549 | the data is the first writable loaded segment that is not executable or comes behind the text |
| MachoLayout.NoData | scripts/elf2macho.c:1544-1549 | if there is none of these there is no data segment |
| MachoLayout.LoaderBase | emu/src/elf_loader.c:372-386 | the base is the image address, and one page of sixteen kilobytes more exactly when the text starts in the first such page |
| MachoLayout.PlaceSegments | scripts/elf2macho.c:1588-1641 | refused if and only if the data would start inside the text segment; else text and data keep their shifted addresses, in order and below the tables |
| MachoLayout.PlaceTables | scripts/elf2macho.c:1694-1725 | the five tables follow one another without overlap |
| MachoLayout.LayOut | scripts/elf2macho.c:1588-1725 | refused if and only if the data would start inside the text segment; else header, text, data and tables come in order inside the file |
| MachoLayout.PlacedInOrder | scripts/elf2macho.c:1588-1725 | every such plan gives ranges in ascending order, for any header up to a page |
| MachoLayout.InOrderDisjoint | scripts/elf2macho.c:1588-1725 | no two ranges share a byte and all lie in the file |
| MachoLayout.TablesInPlace | scripts/elf2macho.c:2002-2007 | every table goes where it was planned if and only if the last one starts below four gigabytes |
| MachoLayout.ManySymbolsMisplaced | scripts/elf2macho.c:2002-2007 | with 2^28 symbols or more the string table is never where it was planned |
| MachoFields.TablesFollowed | scripts/elf2macho.c:2002-2095 | a reader that finds a load command by its kind and follows its offset and size gets back the rebase and bind streams, the trie through either command, the symbols and the strings |
| MachoFields.SegmentsFollowed | scripts/elf2macho.c:1850-1922 | a reader that collects the segment commands gets back the addresses, offsets and sizes put into them, in order |
| MachoFields.FieldsTell | scripts/elf2macho.c:2031-2095 | the fields that the converter fills are those that lead to the tables |
| MachoFields.FieldsMark | scripts/elf2macho.c:1850-1922 | the segment commands are filled with the planned extents |
| MachoImage.WriteSegments | scripts/elf2macho.c:1727-1748 | the file with the two segments copied and the self-resolved relocations pre-written |
| MachoImage.WriteAround | scripts/elf2macho.c:1750-2095 | tables and header are written around the segments; below four gigabytes the tables stand where planned and the segments are untouched |
| MachoImage.Convert | scripts/elf2macho.c:1520-2107 | refused if and only if there is no text or the data would start inside it; else the header has the planned commands, and if the last table starts below four gigabytes a reader finds the segments and the tables, of which `MachoFile` says what they come to |
| MachoFile.FileSegments | scripts/elf2macho.c:1591-1641 | a reader finds the text segment from offset and address 0, readable and executable; the data segment in whole pages at equal offset and address, readable and writable, behind the text and around the bytes of the ELF segment at their shifted address; and the tables up to the end of the file |
| MachoFile.FileText | scripts/elf2macho.c:1731-1733 | through the segments read from the file, every address of the text segment behind the header maps to the byte of the ELF text at its shifted address, or to zero |
| MachoFile.FileData | scripts/elf2macho.c:1735-1748 | through the segments read from the file, every address of the data segment outside a slot that the image resolves itself maps to the byte of the ELF data at its shifted address, or to zero |
| MachoFile.FileExports | scripts/elf2macho.c:1671-1675 | through either command, the last symbol of each name, with an underscore and cut at 254 characters, is exported at its address plus the shift, and no other name |
| MachoFile.FileNames | scripts/elf2macho.c:1754-2000 | a reader finds the library's own name once, one name for each needed library that has one, in order, and the five search paths if there are any |
| MachoFile.FileNumbers | scripts/elf2macho.c:1939-2073 | a reader finds the platform and the ranges of external and undefined symbols |
| MachoFile.FileBinds | scripts/elf2macho.c:1656-1669 | dyld, reading the stream through the header of the converted file, makes one binding for each relocation that asks for a symbol from elsewhere, in table order and no other; segment address as read from the file plus offset is the relocation's shifted address |
| MachoFile.FileRelocates | scripts/elf2macho.c:1588-2095 | dyld, reading the segments and the rebase stream through the header of the converted file, leaves in the slot of each relative or defined-symbol relocation base plus symbol plus addend, for the base that the loader computes, if and only if it is not a relative one of the second table or the image was not moved |
| AddressSpace.CutAllView | emu/src/memory.c:215-330 | cutting a range removes exactly the addresses in it |
| AddressSpace.CutAllValid | emu/src/memory.c:215-330 | the list stays sorted, page-aligned and disjoint |
| AddressSpace.CutAllBuffers | emu/src/memory.c:215-330 | no two regions ever share a host buffer |
| AddressSpace.ReprotectAllView | emu/src/memory.c:693-859 | exactly the mapped part of the range changes protection, and no byte changes |
| AddressSpace.ReprotectAllValid | emu/src/memory.c:693-859 | the list stays sorted, page-aligned and disjoint |
| AddressSpace.ReprotectAllBuffers | emu/src/memory.c:693-859 | splitting regions in two or three gives each part its own buffer |
| MemSpace.MemSpace.RegionInsert | emu/src/memory.c:54-65 | inserts at its place in the ordered list |
| MemSpace.MemSpace.UnmapRange | emu/src/memory.c:215-330 | the range disappears from the address map and nothing else changes |
| MemSpace.MemSpace.FindGap | emu/src/memory.c:350-378 | the search ends, at the least page-aligned address at or above the hint where nothing stands in the way |
| MemSpace.MemSpace.Mmap | emu/src/memory.c:332-453 | size 0 changes nothing; otherwise exactly the chosen page range is replaced by the file contents followed by zeros, as one region, at the fixed address or at the least free one; the hint becomes the end of a map that is not fixed and else stays |
| MemSpace.MemSpace.constructor | emu/src/memory.c:81-94 | an empty space whose hint is 0x7F0000000000 |
| MemSpace.MemSpace.Munmap | emu/src/memory.c:646-659 | exactly the page range disappears |
| MemSpace.MemSpace.Mprotect | emu/src/memory.c:693-859 | exactly the mapped part of the page range gets the protection |
| MemSpace.ConflictExact | emu/src/memory.c:350-378 | what stands in the way is a mapped byte in the range or an empty region strictly inside it |
| MemSpace.Run | emu/src/memory.c:332-859 | over any sequence of calls the list stays valid, the address map is the replay of the calls on a plain map, a fixed map lands on its page, and any other on free pages at or above its address or, without one, the end of the last map not fixed; these are the first free pages unless a protection call of size zero came before |
| MemSpace.EmptyRegionStays | emu/src/memory.c:693-859 | such a call can leave an empty region behind that keeps a free range from being used |
| Tlb.TranslateLoop | emu/src/memory.c:959-990 | the walk over the regions gives the specified pointer or fault |
| Tlb.CpuPtrExact | emu/include/cpu.h:357-370 | a cached lookup answers as the walk does and keeps the cache coherent |
| Tlb.RunIsTranslation | emu/include/cpu.h:97-142 | between mapping changes, any run of accesses after a flush gets exactly the answers of the walk |
| Tlb.EmptyAccessSpoils | emu/include/cpu.h:130-142 | an empty access at a page boundary can leave a wrong entry behind, so that the next one-byte access hits although the walk faults; the callers in the code pass no empty access |
| Tlb.WrappedAccessHits | emu/include/cpu.h:108-128 | an access so long that it wraps into its own page can hit although the walk refuses it |
| Tlb.TrustedExactlyWhenSafe | emu/include/cpu.h:97-142 | the cache can be trusted for an access, in every mapping and coherent cache, if and only if the access is of neither kind |
| Tlb.CpuTlb.Flush | emu/include/cpu.h:97-106 | empties every entry |
| Tlb.CpuTlb.MemPtr | emu/include/cpu.h:357-370 | the in-place lookup and fill are the specified ones |
| StaleCache.CoherentAfterCut | emu/src/memory.c:215-330 | without a flush, a coherent cache stays coherent across an unmapping if and only if no cached page is removed or lies behind the cut in its region |
| StaleCache.CoherentAfterReprotect | emu/src/memory.c:693-859 | and across a protection change if and only if every cached page lies in a region that is left alone, or changed whole to a protection that still allows it |
| StaleCache.TailGoesStale | emu/src/memory.c:284-330 | a cached page behind a cut stays mapped with the same bytes in a new buffer, while the cache still hands out the old one |
| GuestAccess.LoadIsMap | emu/src/memory.c:992-1038 | a translated pointer reads the bytes the address map has there |
| GuestAccess.StoreIsMap | emu/src/memory.c:1040-1101 | a translated store changes the address map at those addresses only |
| GuestAccess.AccessExact | emu/src/memory.c:959-990 | an access is allowed if and only if the address map allows every byte of it and no region starts strictly inside it |
| GuestAccess.PageAccessExact | emu/src/memory.c:959-990 | inside one page the address map alone decides |
| GuestAccess.StraddlingFaults | emu/src/memory.c:693-859 | across pages it does not: protecting a page as it already was leaves the address map as it is and makes an eight-byte load over the page end fault |
| GuestAccess.RunRefinesMap | emu/include/cpu.h:228-370 | for any mapping and any run of loads and stores after a flush, the results and faults through cache, regions and host buffers are those of the plain map together with the set of addresses where regions start |
| GuestAccess.PageRunRefinesMap | emu/include/cpu.h:228-370 | for accesses that each stay in a page they are those of the plain map alone |
| Futex.OneChainIsEnough | emu/src/sys_misc.c:61-65 | the chain of an address holds every waiter of that address in the whole table |
| Futex.WakeChainMeaning | emu/src/sys_misc.c:526-551 | waking serves the smaller of the asked and the available, and changes only flags of matching waiters |
| Futex.WakesFromFront | emu/src/sys_misc.c:526-551 | those in front of the chain are woken first |
| Futex.RequeueConserves | emu/src/sys_misc.c:553-593 | a requeue loses nobody and duplicates nobody |
| Futex.RequeueCounts | emu/src/sys_misc.c:553-593 | it wakes and then moves as many as asked for, as far as there are any |
| Futex.RequeueWakes | emu/src/sys_misc.c:553-593 | a sleeper with fewer than the asked number before it is woken where it stands |
| Futex.RequeueMovesThem | emu/src/sys_misc.c:553-593 | the next ones move to the other address, in order |
| Futex.StepKeeps | emu/src/sys_misc.c:553-593 | for any two addresses, equal ones included, one turn of the walk keeps waiters filed under their hash and linked as often as before |
| Futex.UnlinkExact | emu/src/sys_misc.c:507-517 | a returning waiter is off the table if and only if the chain it was enqueued on is still the chain of its address |
| Futex.RequeuedWaiterStays | emu/src/sys_misc.c:507-593 | a waiter requeued to another chain is still on the table after it has unlinked itself |
| Futex.FutexTable.Enqueue | emu/src/sys_misc.c:462-473 | the new waiter goes to the head of its chain and nobody else moves |
| Futex.FutexTable.Unlink | emu/src/sys_misc.c:507-517 | removes the waiter from the chain chosen at enqueueing |
| Futex.FutexTable.Wake | emu/src/sys_misc.c:526-551 | wakes the smaller of the count and all matching waiters of the whole table |
| Futex.FutexTable.Requeue | emu/src/sys_misc.c:553-593 | ends for any two addresses, wakes the right number and conserves waiters; between different addresses it is the specified split |
| WideMul.MultiplyExact | emu/src/exec_dp_reg.c:591-621 | the four half products and carries make up the exact 128-bit product, and every intermediate sum fits in 64 bits |
| WideMul.UmulhExact | emu/src/exec_dp_reg.c:636-652 | UMULH is the floor of the exact product by 2^64 |
| WideMul.ZeroTestExact | emu/src/exec_dp_reg.c:591-621 | testing the low word with its untruncated low product decides whether the exact low word is zero |
| WideMul.SmulhExact | emu/src/exec_dp_reg.c:591-621 | SMULH is the floor of the signed product by 2^64, for all operands |
| Signals.PushFrame | emu/src/signal_emu.c:301-337 | the typed writes fill exactly the two parts of the frame |
| Signals.PushedIntact | emu/src/signal_emu.c:301-337 | a pushed frame is intact and the mapping stays usable |
| Signals.PushedElsewhere | emu/src/signal_emu.c:301-337 | a push leaves every frame it does not overlap intact |
| Signals.PushedOutside | emu/src/signal_emu.c:301-337 | a push changes no byte outside the two parts of the frame |
| Signals.PopFrame | emu/src/sys_signal.c:249-305 | from an intact frame every register, the stack pointer, program counter, flags, vectors and mask come back as saved |
| SignalRuns.LowestPending | emu/src/signal_emu.c:222-235 | the search returns the lowest deliverable signal |
| SignalRuns.Process.Send | emu/src/signal_emu.c:158-168 | accepts exactly the valid numbers and sets that bit alone |
| SignalRuns.Process.Procmask | emu/src/signal_emu.c:129-156 | an unknown operation changes nothing, and no mask ever blocks SIGKILL or SIGSTOP |
| SignalRuns.Process.Deliver | emu/src/signal_emu.c:213-370 | takes the lowest pending unblocked signal and clears that bit alone; enters the handler if and only if there is one and one writable region holds the 800 bytes of the frame, gives up if and only if there is one and none does, and else ignores, continues, stops or kills by signal number; changes registers, mask or memory only by entering |
| SignalRuns.EntersRight | emu/src/signal_emu.c:338-360 | on entry the program counter, the first and thirtieth registers and the stack pointer are those of the action and frame, all other registers stay, and the mask blocks what it did, what the action asks for and the signal itself unless it is not deferred, and nothing else, but never 9 and 19 |
| SignalRuns.EnteredCatchable | emu/src/signal_emu.c:355-360 | SIGKILL and SIGSTOP are blocked in no handler, as mask bits and as signals |
| SignalRuns.Process.Sigreturn | emu/src/sys_signal.c:249-305 | returning from an intact frame restores the saved context |
| SignalRuns.TakeDelivery | emu/src/signal_emu.c:213-370 | the delivery method takes a delivery step of the run when it enters a handler, and changes nothing of the run otherwise |
| SignalRuns.TakeReturn | emu/src/sys_signal.c:249-305 | the return method at the newest frame takes a return step of the run |
| SignalRuns.AlwaysSound | emu/src/signal_emu.c:213-370 | in every state of every run the live frames are intact and nested |
| SignalRuns.ReturnRestores | emu/src/signal_emu.c:213-370 | for any run and any nesting, when the handler entered at one step returns at another, every saved register and the mask are again what they were |
| ExitWait.NextKeeps | emu/src/process.c:217-375 | every step of every thread keeps the invariant |
| ExitWait.NoLostWakeup | emu/src/process.c:302-375 | in every state of every interleaving, if a thread sleeps while a zombie leader it waits for exists, the exit of that child still has its broadcast to this parent before it |
| WaitAnswers.AlwaysKnowing | emu/src/process.c:302-375 | in every state of every interleaving one thread at most holds the table lock, a scan that has found something has a child that it asks for, and one that has not has all of those still before it |
| WaitAnswers.FailsWithoutChild | emu/src/process.c:334-335 | a wait returns -ECHILD only when no process in the table is a child that it asks for |
| WaitAnswers.WaitsForChild | emu/src/process.c:337-371 | a wait returns 0, goes on to its lock or gets ready to sleep only when there is such a child; it returns 0 only with WNOHANG and goes on only without |
| WaitAnswers.SleepsWithChild | emu/src/process.c:337-371 | whoever sleeps had such a child when it got ready |
| WaitAnswers.AnswersWithZombie | emu/src/process.c:309-331 | a wait returns a process only if it is one that it asks for and a zombie, and then reports its status and marks it dead |
| WaitAnswers.StopsAtZombie | emu/src/process.c:309-331 | a scan never goes past a zombie that it asks for |
| WaitAnswers.NoChildLeft | emu/src/process.c:217-285 | when a process has reparented its children none is left to it |
| WaitAnswers.ParentBecomesInit | emu/src/process.c:217-285 | a process changes parents only while its parent reparents, and then to process 1 |
| ExitWait.ReportsMatchExits | emu/src/process.c:217-375 | reports of a process never outnumber its exits, and each carries a status it exited with |
| ExitWait.ReapedAtMostOnce | emu/src/process.c:302-375 | a process that exits once is reported at most once, with its own status |
| ExitWait.ReportedOncePerExit | emu/src/process.c:769-794 | exiting once is needed: a process whose exit is performed several times can be reported each time |
| InitialStack.CopyTo | emu/src/memory.c:1089-1101 | a copy into guest memory lands if and only if one writable region holds all of it, and then changes exactly those bytes of the address map |
| InitialStack.PushString | emu/src/elf_loader.c:642-652 | zero on failure, else the string and its terminator stand just below the old pointer and nothing above changes |
| InitialStack.PushStrings | emu/src/elf_loader.c:753-789 | every string stands at its own returned address, in order |
| InitialStack.PutWords | emu/src/elf_loader.c:833-886 | the words stand in order from the given address, or the failure is remembered |
| InitialStack.TableStarts | emu/src/elf_loader.c:840-886 | the written table reads as a start-up layout with these arguments, environment and auxiliary vector |
| InitialStack.WriteTable | emu/src/elf_loader.c:791-897 | zero on failure, else an aligned table wholly below everything pushed before |
| InitialStack.Info.MoveSelfHeader | emu/src/elf_loader.c:735-743 | exactly the first program header of type PT_PHDR gets both addresses replaced |
| InitialStack.PushHeaders | emu/src/elf_loader.c:731-751 | the headers are copied 8-aligned below the pointer, and the base derived from them is the load base |
| InitialStack.StartsOneWay | emu/src/elf_loader.c:794-812 | a memory holds at most one argument list, environment and auxiliary vector at a given pointer, so what is read back is what was passed |
| InitialStack.AuxTells | emu/src/elf_loader.c:858-886 | the auxiliary vector has fourteen different keys, each with its own value: 3 the headers, 4 and 5 their size and number, 6 the page size, 7 the interpreter base, 9 the entry point, 25 the random bytes, 15 the platform string, 16 the capabilities, and zero under 8, 11, 12, 13 and 14 |
| InitialStack.SetupStack | emu/src/elf_loader.c:654-903 | a nonzero result is 16-aligned and the start-up layout there gives exactly the arguments, the environment and the fourteen auxiliary entries; the load base is recovered from copied headers; the eight megabytes it maps, or a caller's region with enough room, always give a result |
| PathNormalize.NormalIdempotent | emu/src/vfs.c:339-404 | normalising a normal path changes nothing |
| PathNormalize.NormalNoLonger | emu/src/vfs.c:339-404 | an absolute path never grows |
| PathNormalize.NormalPieces | emu/src/vfs.c:358-383 | a name leads one directory down, a dot stays, two dots take the last name back and stay at the root |
| PathNormalize.NormalFrom | emu/src/vfs.c:350-356 | an absolute path does not depend on the working directory; a relative one goes on from where that leads |
| PathNormalize.Collect | emu/src/vfs.c:358-386 | the scan keeps exactly the names of the stack fold, within an array of half the path length |
| PathNormalize.Rebuild | emu/src/vfs.c:388-403 | the names are written back as far as the buffer goes |
| PathNormalize.NormalizePath | emu/src/vfs.c:339-404 | the result is the rendered stack fold of the path, cut to the buffer |
| PathNormalize.NormalizeIdempotent | emu/src/vfs.c:339-404 | in a buffer as long as the path buffer, which is what every caller passes, normalising twice always gives the same, from any directory |
| PathNormalize.ShortBufferChanges | emu/src/vfs.c:388-403 | in a buffer of four bytes it need not: /a/b gives /a/ and that gives /a |
| PathNormalize.NormalizeTwice | emu/src/vfs.c:339-404 | in a buffer of any length, normalising twice gives the same if and only if the buffer did not cut the result after a slash, a dot or two dots |
| PathNormalize.NormalizeTwiceWhole | emu/src/vfs.c:339-404 | when nothing was cut, normalising twice gives the same |
| PathResolve.Tokens | emu/src/vfs.c:223-233 | the pieces between slashes, refused beyond 255 |
| PathResolve.Pop | emu/src/vfs.c:247-256 | leaves one directory, and never the root |
| PathResolve.Step | emu/src/vfs.c:237-331 | one turn of the loop is the specified step |
| PathResolve.WalkAll | emu/src/vfs.c:235-331 | the loop ends on every file system, cyclic links included, with the specified result |
| PathResolve.Resolve | emu/src/vfs.c:159-337 | the result is the specified one, refusals included |
| PathResolve.WalkContained | emu/src/vfs.c:235-331 | whatever the links, and whatever overwritten components read as, no directory entered is a dot, two dots or a link |
| PathResolve.ResolvedContained | emu/src/vfs.c:159-337 | every path given out is the root followed by slash-free names other than dot and two dots, and no prefix of it is a link |
| PathResolve.ResolvedPlain | emu/src/vfs.c:159-337 | without links in the way the result is the normalised path under the root, exactly when that fits |
| PathResolve.ResolvedThroughLink | emu/src/vfs.c:264-324 | with one link on the way the answer is that of the path with the target in place of the link, from the root if the target is absolute and else from the directory of the link |
| PathResolve.ResolvedOneLink | emu/src/vfs.c:284-324 | with at most one link on the way the answer does not depend on how overwritten components read |

## Left out

- TrieBuilder.BuildExportTrie: a trie still unsettled after the ten extra passes must fit the sixteen spare bytes of its buffer, and nothing is promised of it; `TrieBuilder.LightExports` says which lists settle.
- TrieSettling.SettlesWithinTen: says nothing of tries over sixteen kilobytes, where offsets of three bytes let several boundaries feed one another; `TrieSizing.SettlingPass` says that the passes settle in the end.
- MemSpace.MemSpace.Mmap: addresses do not wrap at 2^64, allocation does not fail, and native mode with its host mappings is not modelled; nor are `mem_mmap_host`, `mem_brk` and cloning.
- MemSpace.MemSpace.Mprotect: the loop of the code visits the tail it has just split off once more, which changes nothing; the model goes on behind it.
- Tlb.RunIsTranslation: holds between mapping changes; the code flushes only when a CPU is initialised, although its comment asks for a flush after each mapping change. `StaleCache` says when a cache survives one without a flush.
- SelfReloc.LoadedSlot: slots must not overlap or wrap past 2^64, and RELR relocations are not modelled.
- SelfReloc.ApplySelfRelocs: the end of a slot is not wrapped at 2^64 when it is compared with the file size.
- Bind.BoundImports: the interpreter decodes the plain forms only, not signed addends, special ordinals, threaded or repeated binds.
- TrieBuilder.TrieNode.Insert: each turn of the descent is one call.
- MachoLayout.LayOut: file ranges only, the memory range of the last segment can meet zero-filled data; an ELF file whose addresses wrap at 2^64 is not modelled.
- MachoLayout.PlaceSegments: addresses that wrap at 2^64 are not modelled.
- MachoImage.Convert: section headers, the UUID and the code signature command are written but not read back; the bytes of the segments, the symbol table and the strings are given, as is the list of external symbols; tables are written before the header, which they do not meet.
- MachoFile.FileRelocates: slots must not overlap or leave the file part of the data segment.
- InitialStack.SetupStack: the first page is taken to be unmapped, as the code's use of zero for failure presumes, and a stack that it maps itself not to wrap at 2^64; the argument count is not cut to 32 bits, and failing host allocations are left out.
- ExitWait.NoLostWakeup: holds for thread-group leaders, the only ones that broadcast; reparenting one child is one step, and destroying a process and the timed reaping of zombies are left out.
- SignalRuns.ReturnRestores: a handler returns with its own frame at the stack pointer, and nothing else writes into live frames.
- SignalRuns.Process.Deliver: a process without a handler table, and termination itself, are outcomes only.
- PathResolve.Resolve: an absolute guest path must be shorter than the path buffer, the writable overlay is not modelled, and after a second link the components that the code copies onto themselves may read as any slash-free name.
- PathResolve.ResolvedThroughLink: one link, whose target is not cut and whose detour fits the store.
- PathNormalize.NormalizePath: an absolute path must be shorter than the path buffer, and the working directory empty or absolute.
- Futex.FutexTable.Enqueue: timeouts, the value comparison before sleeping and the condition variables themselves.
- Installing handlers (`sig_action`) and the default actions beyond their outcome.
- Parsing of the ELF header, program headers and dynamic section, and the local and defined symbol passes.
- Instruction decoding and execution other than the two wide multiplies; floating point and vectors.
- System calls on files, sockets, devices, `/proc`, terminals and the frame buffer: thin calls into the host.
- The terminal emulation, the user interface and the bridges to it.
- Native execution: dlopen, image search, code signing, patching of instructions.
