# dragonuso in Dafny

dragonuso is a dynamic linker for relocatable MIPS modules on the Nintendo 64. A module is a USO file. `elf2uso` lays
out and writes it, `uso.c` loads, resolves, relocates and unloads it at run time, and `make_uso_externs` and
`make_global_syms` find out which symbols the main binary has to supply and write them down. This project models these
programs, and two algorithms of the ELF library they are built on, and proves what they are for.

Code that works in place is modelled in place: the list of handles is a doubly linked list on the heap, relocations and
fixups change arrays, the output file is an object with a position. Each such method is proved against a function or
predicate on values, and the main results are lemmas about those. Numbers are the source's: `U32` and `U16` with
explicit wrap-around (`Trunc32`, `Trunc16`), bit masks written out as arithmetic and proved equal to it.

| Files | Contents |
|---|---|
| `Words`, `HostOrder`, `CStrings`, `Alignment` | big-endian words, byte swapping, `strcmp` and string order, `align_val` |
| `MipsAbi`, `Relocs` | the ABI's relocation formulas; applying relocation tables in place |
| `Symbols`, `Lifecycle`, `UnloadProgress`, `Loader` | binary search; the loader as a state machine over calls; when everything can be unloaded; the same on the heap |
| `Fixups`, `LoadedSections` | offsets into pointers, NOLOAD placement, where sections end up |
| `ElfInput`, `SectionCollect`, `SymCollect`, `RelocBuild`, `Elf2Uso` | what `elf2uso` collects from an ELF file |
| `OutFile`, `Records`, `SymbolCodec`, `SectionWriter`, `ImageWriter`, `Format` | writing a USO file; its bytes, offset by offset |
| `ImageLoader`, `UsoReader`, `Pipeline`, `Opening` | reading it back; ELF relocations all the way to memory; opening a file from its bytes |
| `Externs`, `GlobalSyms`, `Closure`, `Addresses` | the symbols the main binary must supply, and that they suffice; where every name ends up |
| `ElfioSymbols`, `ElfioSegments`, `Sequences` | partitioning a symbol table; ordering segments |

## Main results

- Safety of every run: after any calls of open and close an import holds what its name means among the modules before
  it. So a bound import points to a same-named export of a module that is still loaded and was loaded earlier, or of the
  main binary (`Lifecycle.NoDanglingImport`, `Lifecycle.BindingsStayCurrent`).
- The unload test goes by name. It is always safe; `Lifecycle.CloseableIsExact` says exactly when it keeps a module that
  nobody is bound to. Everything can be unloaded if and only if no set of modules blocks itself by names, and at most one
  module has no export table, and that one blocks nobody; otherwise some modules stay for good, whatever is called
  (`UnloadProgress.EmptiesIff`). Disjoint names are enough, and then closing the last module again and again does it
  (`Lifecycle.DrainFromTail`).
- The in-place relocation loop computes every word from unmodified bytes, and that word is the ABI's, with S the address
  the symbol's name was resolved to or its section was loaded to, unless the LO16 immediate is exactly 0x8000. It holds
  from the ELF file, through the bytes and tables of the written file, to memory (`Pipeline.FromFileToMemory`); and
  opening a file of `elf2uso` never stops the program (`Opening.OpenBuilt`). Every exported symbol is then found at its
  ELF value from the start of its section, every byte that no relocation touches is the ELF file's, and `.bss` is zero.
- A written USO file has no two parts that overlap, and loading it gives back the header, sections, symbols, relocations
  and bytes that were written, at addresses aligned for each section.
- The extern list is exact. What is on it and not weak is necessary for linking, and all of it suffices if it gets into the
  global table. Through the whole tool chain, with a main binary that defines the list, a USO links iff it needs none of
  the names that `make_global_syms` leaves out (`Closure.ToolChainCloses`).

Where the code does less than it could, the lemmas say exactly when:

- A paired LO16 immediate of 0x8000 is not sign-extended (src/uso.c:274): the high half comes out one too large.
- `uso_get_noload_size` adds sizes without padding (tools/elf2uso.cpp:436-446), the loader pads
  (src/uso.c:169-174): the NOLOAD sections fit their block iff none needs padding. A one-byte section in front of an
  aligned word is enough to overrun it.
- `is_uso_closeable` reads the export table of the handle without a NULL test (src/uso.c:447). A module without exports
  can be closed only while it is alone; closing one of two halts.
- `make_uso_externs` takes a read of zero bytes for a failure: a file is read iff no name in it is empty.
- `make_global_syms` leaves out 17 names (tools/make_global_syms.cpp:29-49), but `elf2uso` forbids importing only three of
  them. A USO that imports one of the other 14, such as `end`, and finds it in no other USO never links, even if the main
  binary defines it.
- The loader pairs a HI16 with the next LO16 by position (src/uso.c:265-267): it is its own iff no LO16 for another symbol of
  the same kind, undefined or not, lies between them.
- `align_val` rounds up iff the alignment is a power of two. Alignment 0 gives 0, which puts section data over the header.
- `symbol.weak` compares the symbol's type, not its binding (tools/elf2uso.cpp:190); the model does the same.

## Model

| member | source | states |
|---|---|---|
| MipsAbi.LoaderMeetsAbi | src/uso.c:244-309 | for each of the four types the loader's word is the ABI's word, except exactly for a HI16 whose LO16 immediate is 0x8000, which is one too high |
| MipsAbi.AbiInNumbers | src/uso.c:244-309 | the formulas of the ABI for types 2, 4, 5 and 6, in plain arithmetic on the word, the address, the place and the other immediate |
| MipsAbi.KnownTypes | src/uso.c:244-309 | the types that are not invalid are 2, 4, 5 and 6 |
| Relocs.AppliedInNumbers | src/uso.c:236-309 | by type number, from the fields of the entry: what an applied table leaves is the ABI's word, or for a HI16 without a LO16 the old one |
| MipsAbi.HiLoPair | src/uso.c:258-303 | the patched HI16/LO16 pair denotes the old address plus S modulo 2^32, carry and sign extension included, iff the immediate is not 0x8000 |
| MipsAbi.Jump26 | src/uso.c:250-256 | the ABI's local and external jump formulas keep the same 26 bits, whatever the place, and they are the loader's |
| MipsAbi.OpcodeBitsKept | src/uso.c:255-302 | relocation leaves the opcode and register bits of an instruction alone |
| MipsAbi.SplitAndJoin | src/uso.c:272-285 | splitting an address into a rounded high half and a signed low half loses nothing |
| Relocs.ApplyUsoRelocs | src/uso.c:214-311 | the in-place loop leaves at every target the value computed from the original bytes and every other byte as it was, and stops at the first entry whose type is none of 2, 4, 5 and 6 |
| Relocs.AppliedIsUnique | src/uso.c:214-311 | that specification determines every byte of the section |
| Relocs.RelocatedHi16 | src/uso.c:258-291 | the look-ahead pairs a HI16 with the first later LO16 and leaves the word alone when there is none |
| Relocs.CarriedHi16 | src/uso.c:272-285 | the step-by-step high half, 32-bit wrap and 16-bit increment included, is the rounded high half of hi, lo and S |
| Relocs.RelocatedTarget | src/uso.c:244-309 | the switch knows types 2, 4, 5 and 6 and computes the specified word for each |
| Relocs.PairStillUnpatched | src/uso.c:258-291 | when a HI16 looks ahead, the LO16 it finds still has its original immediate |
| Relocs.TwoPasses | src/uso.c:313-320 | internal and then external relocations together give every word from the original bytes |
| Relocs.LinkSection | src/uso.c:313-320 | both passes over one section, or a stop on an invalid type |
| Relocs.LinkUso | src/uso.c:313-320 | every section but the dummy one is linked, sections at NULL are skipped, other memory is unchanged |
| CStrings.StrCmpIsStringOrder | src/uso.c:100-106 | strcmp on terminated encodings orders names as the tool's string comparison does |
| CStrings.LessIs | tools/elf2uso.cpp:135-139 | that order goes by the first difference: a smaller byte, or the end of the shorter name |
| CStrings.CString | tools/make_uso_externs.cpp:112-113 | a terminated buffer spells the bytes before its first NUL |
| Symbols.SearchSymbolTable | src/uso.c:108-123 | on every sorted table the binary search returns what linear search finds, NULL for no table and no entry |
| Symbols.LookupOfEntry | src/uso.c:108-123 | in a sorted table each entry is the one its name finds |
| Symbols.LookupFinds | src/uso.c:108-123 | a non-NULL result is the pointer of an entry with that name |
| Lifecycle.FirstExporter | src/uso.c:125-143 | the first module in load order with a non-NULL export of the name |
| Lifecycle.ResolveIsFirstMatch | src/uso.c:125-143 | resolution is the first match in load order, else the global one, else NULL |
| Lifecycle.OpenOutcome | src/uso.c:522-575 | after an open the name is loaded iff it was before or there is a file whose imports are all weak or offered by somebody; every other module stays as it is |
| Lifecycle.OpenedIs | src/uso.c:527-571 | an open adds one reference modulo 2^32, or one module at the end with one reference, the file's exports, and every import at what its name resolves to |
| Lifecycle.CloseOutcomeIs | src/uso.c:589-607 | a close takes one reference; the module goes just when none is left and no other module has a bound import with a name of it; all else stays, in order |
| Lifecycle.CloseHalts | src/uso.c:589-591 | closing what is not loaded stops the program, and so does closing a module without export table beside others |
| Lifecycle.FailedOpenIsAtomic | src/uso.c:555-563 | one unresolved import that is not weak makes the open fail and change nothing |
| Lifecycle.StepKeepsInv | src/uso.c:522-607 | after every call each import is still bound as if resolved now among the modules before it; ids grow and names differ |
| Lifecycle.RunKeepsInv | src/uso.c:522-607 | so it is after every run |
| Lifecycle.NoDanglingImport | src/uso.c:522-607 | in every run from the start a non-NULL import points to a same-named export of an earlier module still loaded, or of the global table |
| Lifecycle.BindingsStayCurrent | src/uso.c:191-212 | in every run an import holds what its name means among the modules loaded before it and still there, whatever was unloaded since |
| Lifecycle.CloseableProvidesNothing | src/uso.c:435-456 | a module that passes the test by name is the provider of no import bound at load time |
| Lifecycle.CloseableIsExact | src/uso.c:435-456 | passing the test means nobody is bound to the module, and with disjoint names the converse holds; the test keeps a module nobody is bound to iff another module has a bound import with a name of it and it is the first exporter of no later import |
| Lifecycle.InUseIsServing | src/uso.c:191-212 | somebody is bound to a module iff, by names and load order, it is the first exporter of some later import |
| Lifecycle.TailIsCloseable | src/uso.c:435-456 | with disjoint names the module loaded last always passes the test |
| Lifecycle.CloseTailStep | src/uso.c:589-607 | closing the last module takes one reference or removes it, or faults for want of an export table |
| Lifecycle.DrainFromTail | src/uso.c:589-607 | closing from the tail empties the list in a known number of steps iff every module but the first has an export table |
| UnloadProgress.TrapIsForGood | src/uso.c:435-456 | modules of which each is held by another one (it imports a name, or there is no table to test) all stay loaded through any opens and closes that do not stop the program |
| UnloadProgress.StuckForever | src/uso.c:435-456 | so do two modules that import from each other |
| UnloadProgress.UnloadableHasNoTrap | src/uso.c:435-456 | there is no such set iff no set of modules blocks itself by names, and at most one module has no export table, and that one blocks nobody |
| UnloadProgress.EmptiesIff | src/uso.c:589-607 | some closes empty the list iff that holds; where it does not, no run at all ends with an empty list |
| UnloadProgress.MutualBlock | src/uso.c:435-456 | two concrete modules that share an export name with the main binary both stay loaded, by id, under any further opens and closes, though nobody is bound to the second |
| UnloadProgress.BareModuleHalts | src/uso.c:447-451 | two modules without exports are opened; closing one halts, though it would go if it were alone |
| Lifecycle.RefsCountCalls | src/uso.c:527-531 | over any run the count of a loaded module is its opens minus closes, floored at 0, in 32 bits |
| Loader.UsoList.UsoInit | src/uso.c:458-476 | without the symbol file there is no list; with it the list is empty and the global table is the one in the file, its name pointers fixed up |
| Loader.UsoList.InsertUso | src/uso.c:67-80 | the links spell out the old list with the handle appended |
| Loader.UsoList.RemoveUso | src/uso.c:82-98 | the links spell out the old list without that one handle, wherever it was |
| Loader.UsoList.IsHandleValid | src/uso.c:506-520 | the walk decides whether a live handle is at that address |
| Loader.UsoList.UsoGetHandle | src/uso.c:478-492 | the walk finds the handle of that name, if there is one |
| Loader.UsoList.UsoGetHandlePtr | src/uso.c:494-504 | the walk finds the first USO with a section around the pointer; NULL is inside none |
| Loader.IsPtrInsideUso | src/uso.c:420-433 | inside means between start and end of a section that is not at NULL |
| Loader.SectionEnds | src/uso.c:420-433 | the first and the last byte of a section are inside, the bytes before and behind are not |
| Loader.InvalidTypeIs | src/uso.c:305-308 | the stop is for an entry, in a section that is not at NULL, whose type is none of 2, 4, 5 and 6 |
| Loader.UsoList.SearchLoadedSymbols | src/uso.c:125-143 | the walk over all export tables is the specified resolution |
| Loader.UsoList.ResolveImport | src/uso.c:198-208 | one import gets the resolved pointer, and linking goes on iff it is weak or resolved |
| Loader.UsoList.FixupImportSyms | src/uso.c:191-212 | every import pointer is the resolved one; the result is true iff all unresolved ones are weak |
| Loader.UsoList.LoadUso | src/uso.c:331-346 | fixing up a new block yields the specified sections, exports and imports and leaves the loaded modules alone |
| Loader.UsoList.FixupUso | src/uso.c:331-350 | and if no import is missing, every section's memory is linked with the pointers just resolved, or the program stops on an invalid relocation type; otherwise none is touched |
| Loader.UsoList.UsoOpen | src/uso.c:522-575 | stops exactly on a new, linkable file with an invalid relocation type; otherwise opening takes the specified step on the heap, returns the handle of that name or NULL, and leaves the section memory linked if the module is new and untouched if not |
| Loader.UsoList.IsUsoCloseable | src/uso.c:435-456 | the nested loops decide the test by name, or fault on a NULL export table |
| Loader.UsoList.UsoClose | src/uso.c:589-607 | an address without a live handle halts; otherwise closing takes exactly the specified step for the handle now at that address |
| Loader.UsoList.UsoSym | src/uso.c:577-587 | looks in the USO at that address, or in all for USO_HANDLE_ANY, and halts on an unknown address |
| SymbolCodec.FixupSymbolTableNames | src/uso.c:145-150 | every name offset becomes a pointer, in place, and nothing else changes |
| SymbolCodec.NamedTable | src/uso.c:145-150 | following the pointers gives the names that the offsets lead to in the file, wherever the block is |
| Opening.OpenFile | src/uso.c:522-575 | the same from the bytes of the file: header, name pointers, section bytes and relocation tables are read from the block; where no relocation applies a section has the byte of the file, or 0 behind the part that is read |
| Opening.BuiltIsLoadable | src/uso.c:543-557 | a file of elf2uso meets all that opening asks for, at any address memalign may return, and has no invalid relocation type |
| Opening.OpenBuilt | src/uso.c:522-575 | opening a file of elf2uso never stops the program and takes the specified step; if the module is new, every relocation left the ABI's word, iff not a HI16 paired with 0x8000, NOBITS sections are zero, other bytes are the ELF file's, every exported symbol is found at its address, and every undefined one is bound to what its name resolves to |
| Opening.LoadedHolds | src/uso.c:550-557 | a loaded ELF section in memory: zeros if it is NOBITS, else its own bytes wherever no relocation applies |
| Opening.ImportsBound | src/uso.c:191-212 | every undefined symbol is in the import table with the resolved pointer, weak iff its ELF type is 2 |
| Addresses.ExportedAt | src/uso.c:181-189 | in a loaded module an exported ELF symbol is found under its name at the start of its section plus its value |
| Addresses.GlobalAt | tools/make_global_syms.cpp:129 | in the global table a symbol of the main binary is found at its own value |
| Addresses.BoundToExport | src/uso.c:125-143 | an import that another USO serves is at the address of the ELF symbol which that USO exports |
| Addresses.BoundToMain | src/uso.c:125-143 | an import that no USO serves is at the value of the main binary's symbol |
| Opening.SmallElfIsBuilt | tools/elf2uso.cpp:703-705 | a one-section ELF file and its USO meet what these theorems ask for |
| Alignment.AlignValRounds | tools/elf2uso.cpp:377-381 | for a power of two the mask expression is the next multiple |
| Alignment.RoundUpIs | src/uso.c:27-31 | the next multiple is the only multiple in its window |
| Alignment.MaskRoundsDown | src/uso.c:27-31 | masking with leading ones rounds down to a multiple of the power of two |
| Alignment.AlignValIffPow2 | tools/elf2uso.cpp:377-381 | the mask expression rounds up for all values that leave room iff the alignment is a power of two; the value 1 tells |
| Alignment.LowestBitAlone | tools/elf2uso.cpp:377-381 | a number that the mask of its own negative leaves unchanged is a power of two |
| Alignment.AlignValZero | tools/elf2uso.cpp:377-381 | alignment 0 sends every value to 0 |
| Alignment.AlignedToLarger | src/uso.c:57-65 | a multiple of a power of two is a multiple of every smaller one, so the larger of two alignments serves both |
| Alignment.AlignValFromBase | src/uso.c:34-37 | from an aligned base, aligning a pointer is aligning its distance from the base |
| Fixups.FixupSectionTable | src/uso.c:152-179 | every entry gets its run-time pointers, entry 0 a NULL one, NOLOAD sections their place |
| Fixups.FixupExportSyms | src/uso.c:181-189 | every export's pointer is the address of its section plus its offset modulo 2^32, nothing else in the table changes |
| Fixups.NoloadPlacement | src/uso.c:168-175 | NOLOAD sections lie in order, each aligned, no two sharing a byte, inside the padded extent |
| Fixups.ExtentIsSumOfSizes | tools/elf2uso.cpp:436-446 | the extent is at least the sum of sizes, and equal to it iff every running offset is already aligned |
| Fixups.NoloadFitsBlock | src/uso.c:51-55 | the allocated block covers the NOLOAD sections iff none needs padding |
| LoadedSections.PaddedUsoOverruns | src/uso.c:51-55 | a concrete USO with one byte aligned to 1 and four aligned to 4 needs eight bytes behind its image and gets five |
| ElfInput.SortPermutes | tools/elf2uso.cpp:141-146 | sorting loses and adds no symbol |
| ElfInput.SortedStrictly | tools/elf2uso.cpp:141-146 | with unique names the sorted table is strictly increasing, as the loader's search needs |
| ElfInput.SortIsUnique | tools/elf2uso.cpp:141-146 | there is only one such table, so the choice of sorting algorithm does not matter |
| SectionCollect.ElfFindSection | tools/elf2uso.cpp:99-109 | the first section of that name behind section 0, else 0 |
| SectionCollect.FirstNamedIsUnique | tools/elf2uso.cpp:99-109 | that determines the index |
| SectionCollect.CollectSections | tools/elf2uso.cpp:248-282 | the loaded sections in order behind a dummy, NOBITS without data and relocations, and the map from ELF to output indices |
| SectionCollect.MapIsExact | tools/elf2uso.cpp:248-282 | the map is one to one on loaded sections, reaches every output section, and sends the rest to the dummy |
| SymCollect.SymCollect | tools/elf2uso.cpp:158-236 | which symbols become imports and exports, in sorted order, the map from ELF index to import, and the first symbol that makes the tool exit |
| SymCollect.MapImports | tools/elf2uso.cpp:232-235 | the map and the sorted import table are inverse to each other |
| SymCollect.SortKeepsMembers | tools/elf2uso.cpp:141-146 | a symbol is in the sorted table iff it was collected |
| Elf2Uso.Collect | tools/elf2uso.cpp:703-705 | collecting sections, symbols and relocations of an ELF file in turn; it exits iff some symbol that is not local has too long a name, or is an import that is never to be imported, or an export at 0 in no loaded section |
| Elf2Uso.TablesAreExact | tools/elf2uso.cpp:158-236 | the import table has exactly the names of undefined symbols that are not local, the export table those of defined ones that are visible or of a special name |
| Elf2Uso.BuiltImport | tools/elf2uso.cpp:184-192 | an import has the symbol's name and value, and is weak iff the symbol's type is 2 |
| Elf2Uso.BuiltExport | tools/elf2uso.cpp:195-213 | an export has the symbol's name and value and the output section of its section |
| Elf2Uso.BuiltSection | tools/elf2uso.cpp:258-278 | a loaded section keeps size and alignment, and its data unless it is NOBITS |
| Elf2Uso.RelocsOfSection | tools/elf2uso.cpp:269-272 | the relocations of a section are those of the first section of its name with .rel in front |
| Elf2Uso.HeaderSectionIs | tools/elf2uso.cpp:659-662 | an id in the header is that of the first section of that name if it is loaded, else 0 |
| Elf2Uso.BuildSections | tools/elf2uso.cpp:284-290 | each output section gets the two tables split from its own relocation section |
| Elf2Uso.BuiltHasDummy | tools/elf2uso.cpp:248-257 | section 0 of the result is the absolute one |
| Elf2Uso.BuiltExports | tools/elf2uso.cpp:200-209 | every export lies in an output section, and an absolute one is not at NULL |
| Elf2Uso.BuiltExportInside | tools/elf2uso.cpp:207-213 | a symbol inside its ELF section is an export inside its output section |
| Elf2Uso.BuiltTables | tools/elf2uso.cpp:228-235 | with different non-local names both tables are strictly sorted, and no name is empty |
| RelocBuild.RelocBuild | tools/elf2uso.cpp:284-327 | an order-preserving split into internal and external entries with packed type and index |
| RelocBuild.PackedIsFaithful | src/uso_internal.h:113-121 | unpacking gives back type and index, and the address the loader computes is that of the ELF symbol |
| RelocBuild.SplitKeepsPairs | tools/elf2uso.cpp:313-322 | in the split table the next LO16 of a HI16 is the one it belonged to |
| RelocBuild.PairedByPosition | src/uso.c:265-267 | a HI16 finds a later LO16 for its symbol iff no LO16 for another symbol of the same kind comes before it |
| RelocBuild.WrongPair | src/uso.c:265-267 | a HI16 for one import, followed by a LO16 for another and then its own, is paired with the wrong one |
| RelocBuild.UnpairedStaysUnpaired | tools/elf2uso.cpp:313-322 | a HI16 without a LO16 of its own finds none in the split table |
| RelocBuild.TablesAreLinkable | tools/elf2uso.cpp:284-327 | the tables built meet what the loader needs |
| RelocBuild.EndToEnd | src/uso.c:214-320 | every ELF relocation leaves the ABI's word for the address of its ELF symbol, iff it is not a HI16 paired with 0x8000 |
| RelocBuild.EndToEndPair | src/uso.c:258-303 | the address held by a HI16/LO16 pair of the ELF file moves by exactly S iff the immediate is not 0x8000 |
| RelocBuild.UnpairedUnchanged | src/uso.c:258-293 | a HI16 without any LO16 keeps its word |
| HostOrder.BytesInNumbers | tools/elf2uso.cpp:383-408 | the bytes of a number on either kind of host, and what swapping makes of it |
| HostOrder.SwapInvolution | tools/elf2uso.cpp:402-408 | swapping twice is the identity on any host |
| HostOrder.Swap16Involution | tools/elf2uso.cpp:395-400 | the same for 16 bits |
| HostOrder.StoredBigEndian | tools/elf2uso.cpp:483-489 | swap and native store put big-endian bytes into the file on any host |
| HostOrder.FetchedBigEndian | tools/make_uso_externs.cpp:116-126 | native load and swap read them back on any host |
| HostOrder.Fetched16BigEndian | tools/make_uso_externs.cpp:71-87 | the same for the 16-bit fields |
| OutFile.AllHold | tools/elf2uso.cpp:626-669 | what non-overlapping positioned writes put into a file is all there at the end |
| OutFile.LengthOfWritten | tools/elf2uso.cpp:590-609 | the file ends no later than its last write |
| Records.SymbolRoundTrip | src/uso_internal.h:13-20 | a symbol entry read from its bytes, and which field is at which offset |
| Records.RelocRoundTrip | src/uso_internal.h:30-36 | a relocation entry read from its bytes, and which field is at which offset |
| Records.SectionRoundTrip | src/uso_internal.h:48-56 | a section entry read from its bytes, and which field is at which offset |
| Records.HeaderRoundTrip | src/uso_internal.h:58-69 | a header read from its bytes, and which field is at which offset |
| Records.LoadInfoRoundTrip | src/uso_internal.h:71-78 | load information read from its bytes, and which field is at which offset |
| SymbolCodec.SymGetDataSize | tools/elf2uso.cpp:238-246 | the size is the end of the last name the writer writes |
| SymbolCodec.UsoWriteSymbolTable | tools/elf2uso.cpp:491-523 | the loop makes exactly the writes for count, entries and names, whatever the host's byte order |
| SymbolCodec.TableLayout | tools/elf2uso.cpp:491-523 | count, entries and names never overlap and stay inside the computed size |
| SymbolCodec.WrittenHasTable | tools/elf2uso.cpp:491-523 | afterwards the file holds the table |
| SymbolCodec.LengthField | tools/elf2uso.cpp:505-509 | the weak mark and the name length are recovered independently of each other |
| SymbolCodec.WeakMark | src/uso_internal.h:100-106 | a symbol is weak for the loader iff the tool marked it |
| SymbolCodec.UsoReadSymbol | tools/make_uso_externs.cpp:89-101 | the entry at an offset, each field fetched and swapped, on any host |
| SymbolCodec.UsoReadSymbolName | tools/make_uso_externs.cpp:103-114 | the name of that length up to its first NUL, an exit for length 0 |
| SymbolCodec.UsoGetSymTableCount | tools/make_uso_externs.cpp:116-126 | the count, on any host |
| SymbolCodec.UsoReadSymbolTable | tools/make_uso_externs.cpp:128-150 | the loop of those reads yields the table, nothing for offset 0, and an exit at the first failed read |
| SymbolCodec.TableRoundTrip | tools/make_uso_externs.cpp:128-150 | reading what was written gives the same names, addresses, sections and weak marks iff no name is empty, else the tool exits |
| SymbolCodec.LoadingRoundTrip | src/uso.c:145-150 | the loader finds the same table, each name ending at its terminator |
| SymbolCodec.StillSorted | src/uso_internal.h:22-26 | a table sorted by the tool is sorted for the loader |
| SectionWriter.UsoWriteRelocations | tools/elf2uso.cpp:525-539 | one contiguous write of count and entries |
| SectionWriter.RelocTableRoundTrip | tools/elf2uso.cpp:525-539 | the loader reads back the relocation table that was written |
| SectionWriter.UsoGetAlign | tools/elf2uso.cpp:410-421 | the least bound of 4 and the alignments of loaded sections |
| SectionWriter.UsoGetNoloadAlign | tools/elf2uso.cpp:423-434 | the least bound of 1 and the alignments of NOLOAD sections |
| SectionWriter.UsoGetNoloadSize | tools/elf2uso.cpp:436-446 | the sum of the NOLOAD sizes modulo 2^32 |
| SectionWriter.UsoCalcDataStartAlignment | tools/elf2uso.cpp:448-458 | the alignment of the first section with data, else 1 |
| SectionWriter.UsoGetRelocOfs | tools/elf2uso.cpp:460-470 | for any alignments the separate walk ends exactly at the writer's last data cursor |
| SectionWriter.PlaceIs | tools/elf2uso.cpp:377-381 | for a power of two a cursor is placed at the next multiple |
| SectionWriter.ZeroAlignGoesToStart | tools/elf2uso.cpp:553-560 | with alignment 0 section data goes to the start of the file, over the header |
| SectionWriter.UsoWriteSections | tools/elf2uso.cpp:541-588 | for any alignments the cursors produce exactly the specified writes of data, relocation tables and entries |
| SectionWriter.PartsApart | tools/elf2uso.cpp:541-588 | any two writes for any sections are disjoint |
| SectionWriter.SectionsLayout | tools/elf2uso.cpp:541-588 | all of them are disjoint and lie between the table and the end of the relocations |
| ImageWriter.UsoWriteLoadInfo | tools/elf2uso.cpp:590-609 | pads to an even length and appends the load information |
| ImageWriter.WriteSymbols | tools/elf2uso.cpp:640-653 | header field 0 and no write exactly for an empty table |
| ImageWriter.UsoWrite | tools/elf2uso.cpp:626-669 | for any alignments the file is the specified one, on any host |
| ImageWriter.ImageLayout | tools/elf2uso.cpp:626-669 | header, name, symbol tables, section table, data and relocations are pairwise disjoint and end in order |
| ImageWriter.ImageHolds | tools/elf2uso.cpp:590-609 | each of them is in the final image, inside uso_size |
| Format.HeaderFormat | tools/elf2uso.cpp:626-669 | what is at each offset of the header, the ELF name behind it, and where the symbol tables are |
| Format.HeaderNames | tools/elf2uso.cpp:659-662 | the header names the section of .eh_frame at 2, .ctors at 16, .dtors at 18 |
| Format.TableFormat | tools/elf2uso.cpp:491-523 | a symbol table in the file: count, entries field by field, and the names in a row behind them |
| Format.SymbolsFormat | tools/elf2uso.cpp:640-653 | every collected symbol is where the header leads, with name, address, section and weak mark |
| Format.TablesFollow | tools/elf2uso.cpp:635-656 | export table and section table follow what is before them at the next multiple of 4 |
| Format.SectionFormat | tools/elf2uso.cpp:541-588 | section entries field by field, and the data and relocation tables they lead to |
| Format.RelocsFollow | tools/elf2uso.cpp:565-576 | relocation tables stand in a row behind the last data, section by section, the internal one first |
| Format.InfoFormat | tools/elf2uso.cpp:590-609 | the last sixteen bytes word by word |
| ImageLoader.InfoAtEnd | src/uso.c:543-546 | the last 16 bytes are the load information and its uso_size is the length of what precedes it |
| ImageLoader.SectionsReadBack | src/uso.c:331-335 | the section table is found where the header says, as written |
| ImageLoader.LoadUndoesWrite | src/uso.c:543-557 | from every written file the loader recovers load information, section table and both symbol tables |
| LoadedSections.LoadedSection | src/uso.c:157-167 | a loaded section is at base plus file offset, a multiple of its own alignment, and holds the ELF bytes |
| LoadedSections.DataFollows | tools/elf2uso.cpp:553-560 | the data of a section follows that of the one before at the next multiple of its alignment |
| LoadedSections.LoadedRelocs | src/uso.c:160-166 | its relocation pointers are NULL or lead to exactly the tables that were built |
| LoadedSections.AlignsOfBlock | src/uso.c:57-65 | both recorded alignments are powers of two, and so is the larger of them that memalign is asked for |
| LoadedSections.MemalignSuitsSections | src/uso.c:57-65 | an address aligned as the load information asks is aligned for each section |
| LoadedSections.LoadedNoload | src/uso.c:39-65 | the NOLOAD block starts behind the image, is aligned for every section, and fits iff nothing needs padding |
| Pipeline.ImportEntry | tools/elf2uso.cpp:230-235 | an undefined symbol that is not local is in the import table under its own name |
| Pipeline.UndefinedSymbol | src/uso.c:205-207 | its run-time address is what its name resolves to |
| LoadedSections.SmallUsoFits | tools/elf2uso.cpp:626-669 | a one-byte USO meets every requirement of the writing and loading theorems |
| LoadedSections.SectionStartIs | src/uso.c:152-179 | every section, loaded, NOLOAD or absolute, starts where it belongs and is aligned |
| LoadedSections.SectionsApart | src/uso.c:152-179 | no two sections of a loaded USO share a byte |
| Pipeline.DefinedSymbol | src/uso.c:236-240 | a defined symbol is at the start of its section plus its value |
| Pipeline.TablesAreBuilt | src/uso.c:160-166 | the tables behind a loaded section's pointers are those reloc_build made from the ELF relocations |
| Pipeline.SameScope | src/uso.c:236-240 | what the loader links against are the addresses the ELF symbols stand for |
| Pipeline.BuiltIsGoodInput | tools/elf2uso.cpp:284-327 | the collected file meets what relocation needs |
| Pipeline.LinkedIsRelocated | src/uso.c:313-320 | linking with the tables found in the file is relocating with the ELF relocations |
| Pipeline.FromFileToMemory | src/uso.c:331-350 | for an ELF file through elf2uso: the section bytes and relocation tables read from the written file, linked by the loader against its resolved imports, give the ABI's word for the address of each ELF symbol, iff not a HI16 paired with 0x8000 |
| UsoReader.UsoReadHeader | tools/make_uso_externs.cpp:71-87 | the header, each field fetched and swapped, on any host |
| UsoReader.ReaderUndoesWriter | tools/make_uso_externs.cpp:152-167 | from a file of elf2uso the extern tool reads exactly the collected tables iff no name is empty, and exits otherwise |
| UsoReader.EmptyNameIsNotRead | tools/make_uso_externs.cpp:103-114 | a USO with one export, whose name is empty, can be written, but reading it exits |
| UsoReader.ReadTablesAreInOrder | tools/make_uso_externs.cpp:169-173 | the tables it reads are in the order its binary search needs |
| Externs.BinarySearch | tools/make_uso_externs.cpp:184-189 | on an ordered table the search decides whether the name occurs |
| Externs.UsoSymIsExtern | tools/make_uso_externs.cpp:175-193 | extern means that no other USO exports the name |
| Externs.GenerateUsoExternList | tools/make_uso_externs.cpp:195-208 | the list is, USO by USO and import by import, the names that no other USO exports, and nothing else |
| Externs.ClosureIsExact | src/uso.c:191-212 | with the other exporters loaded, a USO links iff the global table has all its extern names that are not weak |
| Externs.ExternsSuffice | src/uso.c:191-212 | with the whole extern list in the global table nothing stays unresolved |
| GlobalSyms.CollectGlobals | tools/make_global_syms.cpp:93-135 | the sorted table of exactly the non-local symbols with an address that are not on the list of excluded names, each with its own address; exit iff a defined one is at NULL |
| GlobalSyms.GlobalTableIsExact | tools/make_global_syms.cpp:93-135 | as loaded it is sorted, finds exactly the offered names, and each at the value of its symbol |
| GlobalSyms.GlobalFileRoundTrip | tools/make_global_syms.cpp:172-218 | the loader reads back the table written to the start of the file |
| Closure.SectionNotNull | src/uso.c:152-179 | no section but the dummy one is at NULL or reaches the end of the address space |
| Closure.ExportNotNull | tools/elf2uso.cpp:200-206 | in a file of elf2uso no export comes to lie at NULL |
| Closure.BuiltIsWellFormed | src/uso.c:543-557 | what the loader finds in a file of elf2uso is sorted and in range, as opening requires |
| Closure.LoadedUsoProvides | src/uso.c:181-189 | a module loaded from a file of elf2uso provides every export the extern tool read from it |
| Closure.SuppliedExternsSuffice | tools/make_uso_externs.cpp:195-208 | turn ELF files into USOs, list the externs of the files, supply them all, load the other exporters: then the USO links |
| Closure.LinksIffMainOffers | tools/make_global_syms.cpp:93-135 | with the other exporters loaded and the table made of the main binary, a USO links iff each extern import that is not weak is defined there and not left out |
| Closure.ToolChainCloses | tools/make_global_syms.cpp:29-49 | with a main binary that defines the whole extern list, the USO links iff no extern import of it that is not weak is one of the names left out |
| GlobalSyms.LostNames | tools/make_global_syms.cpp:29-49 | of the 17 names left out elf2uso forbids importing exactly the first three |
| Closure.EndIsLost | tools/make_global_syms.cpp:29-49 | `end` may be imported, is extern, and is defined by a main binary, yet it is not in the global table and the import does not link |
| ElfioSymbols.RelInfoRoundTrip | tools/elfio/elf_types.hpp:1248-1250 | packing and unpacking symbol and type are inverse for 24-bit indices |
| ElfioSymbols.SwapSymbols | tools/elfio/elfio_relocation.hpp:295-310 | every relocation's upper 24 bits follow the two exchanged entries; its type, offset and addend stay |
| ElfioSymbols.ArrangeLocalSymbols | tools/elfio/elfio_symbols.hpp:501-546 | it ends; entry 0 stays, the rest is permuted with locals first; the result is one past the last local; every relocation means the symbol it meant |
| ElfioSymbols.SameRecord | tools/elfio/elfio_relocation.hpp:295-310 | behind a relocation's index there is the same record as before |
| ElfioSymbols.BorderIsDetermined | tools/elfio/elfio_symbols.hpp:539-541 | the result is 1 plus the number of locals in the table as it was |
| ElfioSegments.IncludesIsInclusion | tools/elfio/elfio.hpp:675-689 | on ascending section lists the test is inclusion |
| ElfioSegments.ZeroOffsetsToFront | tools/elfio/elfio.hpp:701-712 | a permutation in which only segments at offset 0 precede one set to start at 0 |
| ElfioSegments.RequeueProgress | tools/elfio/elfio.hpp:714-732 | requeueing moves the first largest segment closer to the front, which is why the loop ends |
| ElfioSegments.OrderedPermutes | tools/elfio/elfio.hpp:714-732 | the worklist loop neither loses nor repeats a segment |
| ElfioSegments.OrderedOutcome | tools/elfio/elfio.hpp:714-732 | with ascending section lists, no segment comes before one that has all its sections, repetitions counted, and more |
| ElfioSegments.OrderedKeepsOrder | tools/elfio/elfio.hpp:714-732 | segments already in such an order are left in it |
| ElfioSegments.ContainedGoesLast | tools/elfio/elfio.hpp:725-727 | an example: a contained segment goes behind all others |
| ElfioSegments.GetOrderedSegments | tools/elfio/elfio.hpp:692-735 | the whole function: a permutation in which, with ascending section lists, no segment comes before one that has all its sections and more |

## Left out

- Loader.UsoList.UsoOpen: takes the file as already read, the blocks' addresses, and the sections' memory and relocation tables as parameters, a typed view of what is one flat block in the source (`Opening.OpenFile` starts from the bytes); memory is assumed to be available. Symbol tables are values once loaded, since nothing writes to them any more.
- Opening.OpenFile: each section gets memory of its own instead of its part of the block. The sections of a file of elf2uso do not overlap, but that NOLOAD sections may reach past the block is stated apart (`LoadedSections.PaddedUsoOverruns`). Damaged files, whose tables are unsorted or whose relocations leave their section, are excluded.
- ImageWriter.UsoWrite: for files below 4 GiB, so that cursors do not wrap. Symbol names are shorter than 32767 bytes and free of NUL. The layout and loading theorems need power-of-two alignments for sections with data besides.
- LoadedSections.LoadedSection: assumes what memalign promises (alignment, no wrap-around) and ELF alignments that are 0 or powers of two. A section of size 0 at the very end may get an offset behind uso_size; only its address is stated.
- RelocBuild.EndToEnd: relocation types 2, 4, 5 and 6, against symbols other than the null symbol, with target words that do not overlap; types of 64 and more would lose bits when packed.
- SymbolCodec.UsoReadSymbolTable: offsets are not cut to 32 bits, which matters only for damaged files with offsets near 4 GiB.
- Closure.ToolChainCloses: the linker script made of the extern list, and the link of the main binary that it forces to define those names, are not part of this model; that every listed name is defined is assumed, and LinksIffMainOffers does without.
- Externs.GenerateUsoExternList: assumes export tables in order, which holds for files that elf2uso wrote.
- GlobalSyms.GlobalTableIsExact: names unique and short enough; the tool itself only prints a message for longer ones.
- ElfioSymbols.ArrangeLocalSymbols: 32-bit files with at most 2^24 symbols, entries as values in host order; one relocation section follows the table.
- Constructors, destructors, `_prolog` and `_epilog`, exception frames, cache flushing, demangling and debugger callbacks: foreign calls without state of their own here.
- File, console and command-line handling, `fseek` and `fread` failures in the loader, allocation failures.
- The checks that reject common symbols and GP-relative relocations (tools/elf2uso.cpp:329-375): filters in front of what is modelled.
- The rest of the ELF library: parsed sections, symbols and relocations are the input.
- The demo program, the linker script and the Makefile.
