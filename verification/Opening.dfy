/**
 Opening a USO from the bytes of its file (src/uso.c:522-575): the file is read into one block, the block is cut into
 the parts that the fixups and the link work on, and those go to the loader. For a file of elf2uso the loader never
 stops, and what it leaves in memory is what the ABI asks for.
 */
module Opening {
  import opened Words
  import opened CStrings
  import opened MipsAbi
  import opened Relocs
  import opened Records
  import opened SymbolCodec
  import opened ImageWriter
  import opened ImageLoader
  import opened LoadedSections
  import opened ElfInput
  import opened SymCollect
  import opened SectionCollect
  import opened RelocBuild
  import opened Elf2Uso
  import opened Fixups
  import opened Pipeline
  import opened Closure
  import opened Addresses
  import opened Alignment
  import opened Loader
  import opened Lifecycle
  import S = Symbols
  import SectionWriter

  // ----- The block in memory

  /** The part of the file that goes to memory. */
  function BlockOf(f: seq<Byte>): seq<Byte>
    requires Readable(f)
  {
    f[..LoadInfoAt(f, |f| - 16).usoSize]
  }

  /** Bytes of a block that has the file's first bytes, and zeros behind them. */
  function InBlock(mem: seq<Byte>, ofs: int, size: nat): (b: seq<Byte>)
    ensures |b| == size
  {
    seq(size, k requires 0 <= k < size => if 0 <= ofs + k < |mem| then mem[ofs + k] else 0)
  }

  lemma InBlockIsSlice(mem: seq<Byte>, ofs: nat, size: nat)
    requires ofs + size <= |mem|
    ensures InBlock(mem, ofs, size) == mem[ofs..ofs + size]
  {
  }

  /** The bytes of each section, at its place in the block. */
  function SectionBytes(mem: seq<Byte>, image: UsoImage, base: U32): (c: seq<seq<Byte>>)
    ensures |c| == |image.sections|
  {
    var t := FixedTable(image, base);
    seq(|t|, i requires 0 <= i < |t| => InBlock(mem, t[i].data as int - base, t[i].size))
  }

  /** The relocation tables of each section, at its fixed-up pointers. */
  function SectionTables(mem: seq<Byte>, image: UsoImage, base: U32): (r: seq<RelocTables>)
    ensures |r| == |image.sections|
  {
    var t := FixedTable(image, base);
    seq(|t|, i requires 0 <= i < |t| => TablesFound(mem, base, t[i]))
  }

  /** The tables are sorted and in range, and every relocation stays inside its section. */
  ghost predicate Loadable(f: seq<Byte>, base: U32) {
    && Readable(f) && ReadImage(f).WellFormed()
    && Fitting(BlockOf(f), ReadImage(f), base)
  }

  predicate Fitting(mem: seq<Byte>, image: UsoImage, base: U32) {
    forall i :: 0 <= i < |image.sections| ==> FittingAt(mem, image, base, i)
  }

  predicate FittingAt(mem: seq<Byte>, image: UsoImage, base: U32, i: nat)
    requires i < |image.sections|
  {
    var t := SectionTables(mem, image, base)[i];
    LinkableWith(t.Internal(), t.External(), AnyScope(image), |SectionBytes(mem, image, base)[i]|)
  }

  /** What module Lifecycle sees of the file, loaded at `base`. */
  function FileIn(file: Option<seq<Byte>>, base: U32): Option<UsoFile> {
    if file.Some? && Readable(file.value) && ReadImage(file.value).WellFormed()
    then FileAt(Some(ReadImage(file.value)), base)
    else None
  }

  lemma FileInIs(file: Option<seq<Byte>>, base: U32)
    ensures file == None ==> FileIn(file, base) == None == FileAt(None, base)
    ensures file.Some? && Loadable(file.value, base) ==>
              FileIn(file, base) == FileAt(Some(ReadImage(file.value)), base)
              && FileIn(file, base).Some? && FileIn(file, base).value.imports == ReadImage(file.value).imports
  {
    hide Readable, ReadImage, UsoImage.WellFormed, Fitting, ExportsAt;
  }

  /** A section that is linked has a relocation of a type the loader does not know. */
  predicate StopsOn(f: seq<Byte>, base: U32) {
    && Readable(f)
    && HasInvalidType(FixedTable(ReadImage(f), base), SectionTables(BlockOf(f), ReadImage(f), base))
  }

  /** The sections hold what is in the file, linked with the file's tables. */
  ghost predicate LinkedFrom(f: seq<Byte>, uso: Uso, base: U32, after: seq<seq<Byte>>) {
    && Readable(f)
    && var mem, image := BlockOf(f), ReadImage(f);
       LinkedInto(uso, image, base, SectionBytes(mem, image, base), after, SectionTables(mem, image, base))
  }

  predicate FileLinks(file: Option<UsoFile>, mods: seq<Module>, global: Option<S.SymbolTable>) {
    file.Some? && (file.value.imports.Some? ==> Links(file.value.imports.value, mods, global))
  }

  /** No relocation of the section has its word at p. */
  predicate Unrelocated(f: seq<Byte>, base: U32, s: Section, p: nat)
    requires 16 <= |f| && Word(f, |f| - 16) <= |f|
  {
    var t := TablesFound(f[..Word(f, |f| - 16)], base, s);
    && (forall k :: 0 <= k < |t.Internal()| ==> !(t.Internal()[k].offset <= p < t.Internal()[k].offset + 4))
    && (forall k :: 0 <= k < |t.External()| ==> !(t.External()[k].offset <= p < t.External()[k].offset + 4))
  }

  /**
   Wherever no relocation applies there is the byte of the file at that place, and 0 behind the part of the file that
   is read, where the block was erased.
   */
  ghost predicate RestAsRead(f: seq<Byte>, uso: Uso, base: U32, after: seq<seq<Byte>>) {
    && 16 <= |f| && Word(f, |f| - 16) <= |f| && |after| == |uso.sections|
    && forall i :: 1 <= i < |after| && uso.sections[i].data != 0 ==>
         && |after[i]| == uso.sections[i].size
         && forall p :: 0 <= p < |after[i]| && Unrelocated(f, base, uso.sections[i], p) ==>
              var q := uso.sections[i].data as int - base + p;
              after[i][p] == if 0 <= q < Word(f, |f| - 16) then f[q] else 0
  }

  // ----- Reading and cutting

  /** Reads load information, header and tables, and fixes up the name pointers of both symbol tables. */
  method ReadFile(f: seq<Byte>, base: U32) returns (mem: seq<Byte>, image: UsoImage)
    requires Readable(f)
    ensures mem == BlockOf(f) && image == ReadImage(f)
  {
    hide LoadInfoAt, HeaderAt, SectionAt, LoadedTable, Word;
    var info := LoadInfoAt(f, |f| - 16);
    mem := f[..info.usoSize];
    var h := HeaderAt(mem, 0);
    var imports: Option<S.SymbolTable>, exports: Option<S.SymbolTable> := None, None;
    if h.exportsOfs != 0 {
      var t := NamedTable(mem, base, h.exportsOfs);
      exports := Some(t);
    }
    if h.importsOfs != 0 {
      var t := NamedTable(mem, base, h.importsOfs);
      imports := Some(t);
    }
    image := UsoImage(info, h.sectionsOfs, ReadSections(mem, h.sectionsOfs, h.numSections), imports, exports);
  }

  /** Each section as memory of its own. */
  method CutSections(mem: seq<Byte>, image: UsoImage, base: U32) returns (memory: seq<array<Byte>>)
    ensures |memory| == |image.sections| && fresh(memory)
    ensures forall i, j :: 0 <= i < j < |memory| ==> memory[i] != memory[j]
    ensures Contents(memory) == SectionBytes(mem, image, base)
  {
    hide InBlock, FixedSection, Contents;
    var bytes := SectionBytes(mem, image, base);
    memory := [];
    for i := 0 to |bytes|
      invariant |memory| == i && fresh(memory)
      invariant forall k, j :: 0 <= k < j < i ==> memory[k] != memory[j]
      invariant forall k :: 0 <= k < i ==> memory[k][..] == bytes[k]
    {
      var b := bytes[i];
      var a := new Byte[|b|](k requires 0 <= k < |b| => b[k]);
      assert a[..] == b;
      memory := memory + [a];
    }
    assert Contents(memory) == bytes;
  }

  /**
   uso_open, from the bytes of the file. It stops exactly on a new, linkable file with an invalid relocation type.
   Otherwise it takes the specified step; a new module's sections hold what is in the file, linked.
   */
  method OpenFile(list: UsoList, filename: Name, file: Option<seq<Byte>>, addr: U32, base: U32)
    returns (halted: bool, handle: Handle?, memory: seq<array<Byte>>)
    requires list.Valid() && NulFree(filename)
    requires forall i :: 0 <= i < |list.nodes| ==> list.nodes[i].addr != addr
    requires file.Some? ==> Loadable(file.value, base)
    modifies list`head, list`tail, list`nodes, list`nextId, list.nodes`next, list.nodes`refCount
    ensures halted <==>
              && IndexOfName(old(list.View()), filename) == |old(list.nodes)| && file.Some?
              && FileLinks(FileIn(file, base), old(list.View()), list.globalSyms) && StopsOn(file.value, base)
    ensures !halted ==> list.Valid() && list.nextId == old(list.nextId) + 1
    ensures !halted ==>
              list.View() == OpenStep(old(list.View()), old(list.nextId), list.globalSyms, filename,
                                      FileIn(file, base))
    ensures !halted ==>
              handle == var i := IndexOfName(list.View(), filename); if i < |list.nodes| then list.nodes[i] else null
    ensures !halted && |list.nodes| > |old(list.nodes)| ==>
              && file.Some? && handle != null && handle.addr == addr
              && LinkedFrom(file.value, handle.uso, base, Contents(memory))
              && RestAsRead(file.value, handle.uso, base, Contents(memory))
  {
    hide UsoList.Valid, UsoList.View, OpenStep, IndexOfName, LinkedInto, Contents, HasInvalidType, Links, FixedTable,
         NulFree, FileAt, FileIn, ReadImage, Readable, BlockOf, SectionBytes, SectionTables, Fitting,
         UsoImage.WellFormed, RestAsRead;
    memory := [];
    FileInIs(file, base);
    if file == None {
      halted, handle := list.UsoOpen(filename, None, addr, base, [], []);
    } else {
      var mem, image := ReadFile(file.value, base);
      memory := CutSections(mem, image, base);
      ArraysFit(mem, image, base, memory);
      halted, handle := list.UsoOpen(filename, Some(image), addr, base, memory, SectionTables(mem, image, base));
      if !halted && |list.nodes| > |old(list.nodes)| {
        LinkedRestAsRead(file.value, handle.uso, base, Contents(memory));
      }
    }
  }

  lemma ArraysFit(mem: seq<Byte>, image: UsoImage, base: U32, memory: seq<array<Byte>>)
    requires Fitting(mem, image, base) && |memory| == |image.sections|
    requires forall i, j :: 0 <= i < j < |memory| ==> memory[i] != memory[j]
    requires Contents(memory) == SectionBytes(mem, image, base)
    ensures Linkable(image, memory, SectionTables(mem, image, base))
  {
    hide SectionBytes, SectionTables, Contents, LinkableWith, AnyScope;
    forall i | 0 <= i < |memory|
      ensures var t := SectionTables(mem, image, base)[i];
              LinkableWith(t.Internal(), t.External(), AnyScope(image), memory[i].Length)
    {
      assert FittingAt(mem, image, base, i);
      assert |Contents(memory)[i]| == memory[i].Length;
    }
  }

  lemma LinkedRestAsRead(f: seq<Byte>, uso: Uso, base: U32, after: seq<seq<Byte>>)
    requires LinkedFrom(f, uso, base, after)
    ensures RestAsRead(f, uso, base, after)
  {
    hide Word, ReadImage, FixedTable, TablesFound, LinkableWith, LinkedWord;
    var mem, image := BlockOf(f), ReadImage(f);
    assert FixedTable(image, base) == uso.sections;
    forall i, p | 1 <= i < |after| && uso.sections[i].data != 0 && 0 <= p < |after[i]|
                  && Unrelocated(f, base, uso.sections[i], p)
      ensures var q := uso.sections[i].data as int - base + p;
              after[i][p] == if 0 <= q < Word(f, |f| - 16) then f[q] else 0
    {
      var t := SectionTables(mem, image, base)[i];
      assert !Covered(t.Internal(), |t.Internal()|, p) && !Covered(t.External(), |t.External()|, p);
    }
  }

  // ----- A file of elf2uso

  /** What a compiler and linker leave in an ELF file: good relocations, and data where there is something to load. */
  ghost predicate GoodSections(elf: ElfFile, o: Output)
  {
    && |o.source.secs| == |o.sections|
    && (forall i :: 0 <= i < |o.sections| ==> GoodRelocs(elf, o, i))
    && (forall s :: 0 <= s < |elf.sections| && !elf.sections[s].nobits && elf.sections[s].size > 0 ==>
          elf.sections[s].data.Some?)
  }

  lemma BlockIsImage(x: Source)
    requires FileFits(x) && Readable(FileOf(x))
    ensures BlockOf(FileOf(x)) == Image(x)
  {
    hide Image, FileOf, Encodable, SectionWriter.SectionsFit, LoadInfoAt, ImageEnd;
    InfoAtEnd(x);
  }

  lemma Described(elf: ElfFile, o: Output, i: nat) returns (s: nat)
    requires elf.Parsed() && Built(elf, o) && 1 <= i < |o.sections|
    ensures s < |elf.sections| && Describes(elf.sections, s, o.sections[i])
  {
    hide Rejected, MapsImports, ImportsOf, ExportsOf, SortByName, SectionBuilt, Describes,
         HeaderSections;
    assert Hit(o.ctx.secMap, i);
    s :| s in o.ctx.secMap && o.ctx.secMap[s] == i;
  }

  /** A section without data has no relocations. */
  lemma NoDataNoRelocs(elf: ElfFile, o: Output, i: nat)
    requires elf.Parsed() && Built(elf, o) && GoodSections(elf, o) && i < |o.sections|
    requires o.source.secs[i].data == None
    ensures RelocsOf(elf, o, i) == []
  {
    hide Rejected, MapsImports, ImportsOf, ExportsOf, SortByName, Table, HeaderSections;
    assert SectionBuilt(elf, o, i);
    if i > 0 {
      var s := Described(elf, o, i);
      assert GoodRelocs(elf, o, i);
    }
  }

  /** A section without data keeps the pointers of its entry, NULL for no table. */
  lemma UnfixedPointers(x: Source, base: U32, i: nat)
    requires FileFits(x) && i < |x.secs| && x.secs[i].data == None
    requires x.secs[i].internal == [] && x.secs[i].external == []
    ensures var s := FixedTable(Expected(x), base)[i]; s.internalRelocs == 0 && s.externalRelocs == 0
    ensures FixedTable(Expected(x), base)[i].size == x.secs[i].size
  {
    hide Encodable, SectionWriter.SectionsFit, ImageEnd, TableOfs, InfoOf, TableOrNull, Placed, NoloadCursor,
         SectionWriter.InternalOfs, SectionWriter.ExternalOfs;
  }

  /** At the pointers of each section the loader finds the tables that reloc_build made from the ELF file. */
  lemma TablesOfBuilt(elf: ElfFile, o: Output, base: U32, i: nat)
    requires elf.Parsed() && Built(elf, o) && GoodSections(elf, o) && i < |o.sections|
    requires FileFits(o.source) && RoomToLoad(o.source, base)
    ensures
      var t := SectionTables(Image(o.source), Expected(o.source), base)[i];
      var relocs := RelocsOf(elf, o, i);
      && SymbolsExist(relocs, o.ctx)
      && t.Internal() == Table(relocs, o.ctx, false, |relocs|) && t.External() == Table(relocs, o.ctx, true, |relocs|)
  {
    hide Encodable, SectionWriter.SectionsFit, ImageEnd, Image, FixedTable, Entries, TableOrNull, InfoOf, GoodSections,
         Maps, Rejected, MapsImports, ImportsOf, ExportsOf, SortByName, Table, RelocsOf, HeaderSections;
    RelocsNameSymbols(elf, o, i);
    BuiltHasDummy(elf, o);
    assert SectionBuilt(elf, o, i);
    if o.source.secs[i].data.Some? {
      TablesAreBuilt(elf, o, base, i);
    } else {
      NoDataNoRelocs(elf, o, i);
      NothingBuilt(RelocsOf(elf, o, i), o.ctx);
      UnfixedPointers(o.source, base, i);
    }
  }

  lemma SizeOfSection(elf: ElfFile, o: Output, base: U32, i: nat)
    requires elf.Parsed() && Built(elf, o) && GoodSections(elf, o) && i < |o.sections|
    requires FileFits(o.source) && RoomToLoad(o.source, base)
    ensures |SectionBytes(Image(o.source), Expected(o.source), base)[i]| == o.source.secs[i].size
  {
    hide Encodable, SectionWriter.SectionsFit, ImageEnd, Image, Built, GoodSections, InfoOf, Placed, NoloadCursor,
         FixedUp, TableOrNull, SectionWriter.TableField, SectionWriter.DataOfs, RoomToLoad;
    MapInRange(elf, o);
  }

  /** Every table is fit for the loader, and has known types only. */
  lemma BuiltFitsAt(elf: ElfFile, o: Output, base: U32, i: nat)
    requires elf.Parsed() && Built(elf, o) && GoodSections(elf, o) && i < |o.sections|
    requires FileFits(o.source) && RoomToLoad(o.source, base)
    ensures FittingAt(Image(o.source), Expected(o.source), base, i)
    ensures SectionTables(Image(o.source), Expected(o.source), base)[i].AllKnown()
  {
    hide Encodable, SectionWriter.SectionsFit, ImageEnd, Image, FixedTable, Entries, InfoOf, RoomToLoad, Built, Table,
         RelocsOf, GoodRelocs, GoodInput, SectionTables, SectionBytes, LinkableWith, RelocTables.AllKnown, FixedSection;
    var x, relocs, scope := o.source, RelocsOf(elf, o, i), AnyScope(Expected(o.source));
    MapInRange(elf, o);
    assert GoodRelocs(elf, o, i);
    BuiltIsGoodInput(elf, o, i, scope);
    TablesOfBuilt(elf, o, base, i);
    SizeOfSection(elf, o, base, i);
    TablesAreLinkable(relocs, o.ctx, x.imports, scope, x.secs[i].size);
    TypesKnown(relocs, o.ctx, x.imports, scope, x.secs[i].size, SectionTables(Image(x), Expected(x), base)[i]);
  }

  lemma TypesKnown(relocs: seq<ElfReloc>, ctx: Context, imports: seq<SymbolInfo>, scope: Scope, size: nat,
                   t: RelocTables)
    requires GoodInput(relocs, ctx, imports, scope, size)
    requires t.Internal() == Table(relocs, ctx, false, |relocs|) && t.External() == Table(relocs, ctx, true, |relocs|)
    ensures t.AllKnown()
  {
    hide MapsImports, Chosen, Table, RelocTables.Internal, RelocTables.External;
    forall q | 0 <= q < |t.Internal()|
      ensures KnownType(t.Internal()[q].Type())
    {
      TypeAt(relocs, ctx, imports, scope, size, false, q);
    }
    forall q | 0 <= q < |t.External()|
      ensures KnownType(t.External()[q].Type())
    {
      TypeAt(relocs, ctx, imports, scope, size, true, q);
    }
  }

  /** A file of elf2uso can be loaded at any address that memalign may return, without any invalid relocation type. */
  lemma BuiltIsLoadable(elf: ElfFile, o: Output, base: U32)
    requires elf.Parsed() && Built(elf, o) && GoodSymbols(elf) && GoodSections(elf, o)
    requires FileFits(o.source) && RoomToLoad(o.source, base)
    ensures Loadable(FileOf(o.source), base) && ReadImage(FileOf(o.source)) == Expected(o.source)
    ensures Expected(o.source).WellFormed()
    ensures BlockOf(FileOf(o.source)) == Image(o.source)
    ensures !HasInvalidType(FixedTable(Expected(o.source), base),
                            SectionTables(Image(o.source), Expected(o.source), base))
  {
    hide Encodable, SectionWriter.SectionsFit, ImageEnd, Image, FileOf, ReadImage, Readable, BlockOf, FixedTable,
         RoomToLoad, Built, GoodSections, GoodSymbols, SectionTables, FittingAt, UsoImage.WellFormed, InfoOf,
         TableOrNull, RelocTables.AllKnown;
    BuiltIsWellFormed(elf, o);
    BlockIsImage(o.source);
    MapInRange(elf, o);
    forall i | 0 <= i < |o.sections|
      ensures FittingAt(Image(o.source), Expected(o.source), base, i)
      ensures SectionTables(Image(o.source), Expected(o.source), base)[i].AllKnown()
    {
      BuiltFitsAt(elf, o, base, i);
    }
  }

  /** The bytes the loader has for a section before linking are those of the file. */
  lemma BytesAreRead(elf: ElfFile, o: Output, base: U32, i: nat)
    requires elf.Parsed() && Built(elf, o) && FileFits(o.source) && RoomToLoad(o.source, base)
    requires 1 <= i < |o.source.secs| && o.source.secs[i].data.Some? && o.source.secs[i].size > 0
    ensures ReadFromFile(o.source, i, SectionBytes(Image(o.source), Expected(o.source), base)[i])
  {
    hide Encodable, SectionWriter.SectionsFit, ImageEnd, Image, FixedTable, Expected, RoomToLoad, Built, FileOfs,
         InBlock, PlacedAt;
    var x := o.source;
    RoomIsPlaced(x, base);
    LoadedSection(x, base, i);
    InBlockIsSlice(Image(x), FileOfs(x, i), x.secs[i].size);
    assert |FixedTable(Expected(x), base)| == |x.secs| by {
      ExpectedSections(x);
    }
  }

  lemma ExpectedSections(x: Source)
    requires Encodable(x.imports) && Encodable(x.exports)
    ensures |Expected(x).sections| == |x.secs|
  {
    hide Encodable, Image, InfoOf, TableOrNull;
  }

  /** Every relocated word of every section is as it should be. */
  ghost predicate AllMeetAbi(elf: ElfFile, o: Output, base: U32, mods: seq<Module>, global: Option<S.SymbolTable>,
                             after: seq<seq<Byte>>)
  {
    && elf.Parsed() && o.ctx.symbols == elf.symbols
    && Encodable(o.source.imports) && Encodable(o.source.exports)
    && |after| == |o.sections| == |o.source.secs|
    && forall i, k, m, place: U32 ::
      1 <= i < |o.sections| && o.source.secs[i].data.Some? && 0 <= k < |RelocsOf(elf, o, i)|
      && 0 <= m < |RelocsOf(elf, o, i)| && Paired(elf, o, i, k, m)
      ==> MeetsAbi(elf, o, base, mods, global, i, after[i], k, m, place)
  }

  /** A HI16 comes with its LO16; any other relocation needs none. */
  predicate Paired(elf: ElfFile, o: Output, i: nat, k: nat, m: nat)
    requires elf.Parsed() && o.ctx.symbols == elf.symbols && i < |o.sections|
    requires k < |RelocsOf(elf, o, i)| && m < |RelocsOf(elf, o, i)|
  {
    RelocsNameSymbols(elf, o, i);
    RelocsOf(elf, o, i)[k].kind == R_MIPS_HI16 ==> PairsUp(RelocsOf(elf, o, i), o.ctx, k, m)
  }

  lemma SymbolsOfContext(elf: ElfFile, o: Output)
    requires elf.Parsed() && Built(elf, o)
    ensures o.ctx.symbols == elf.symbols
  {
    hide Maps, Rejected, MapsImports, SortByName, SectionBuilt, HeaderSections;
  }

  lemma LoadedMeetsAbi(elf: ElfFile, o: Output, uso: Uso, base: U32, mods: seq<Module>, global: Option<S.SymbolTable>,
                       after: seq<seq<Byte>>)
    requires elf.Parsed() && Built(elf, o) && GoodSections(elf, o) && FileFits(o.source) && RoomToLoad(o.source, base)
    requires LoadedAs(uso, o.source, base, mods, global)
    requires LinkedInto(uso, Expected(o.source), base, SectionBytes(Image(o.source), Expected(o.source), base), after,
                        SectionTables(Image(o.source), Expected(o.source), base))
    ensures AllMeetAbi(elf, o, base, mods, global, after)
  {
    hide Encodable, SectionWriter.SectionsFit, ImageEnd, Image, FixedTable, RoomToLoad, Built, GoodRelocs, TablesFound,
         InBlock, RelocsOf, MeetsAbi, PairsUp, Linked, LinkableWith, ReadFromFile, InfoOf, TableOrNull, Entries;
    MapInRange(elf, o);
    SymbolsOfContext(elf, o);
    var before, tables := SectionBytes(Image(o.source), Expected(o.source), base),
                          SectionTables(Image(o.source), Expected(o.source), base);
    forall i, k, m, place: U32 |
      1 <= i < |o.sections| && o.source.secs[i].data.Some? && 0 <= k < |RelocsOf(elf, o, i)|
      && 0 <= m < |RelocsOf(elf, o, i)| && Paired(elf, o, i, k, m)
      ensures MeetsAbi(elf, o, base, mods, global, i, after[i], k, m, place)
    {
      assert GoodRelocs(elf, o, i);
      InsideSection(elf, o, i, k, m);
      BytesAreRead(elf, o, base, i);
      RelocsNameSymbols(elf, o, i);
      FromFileToMemory(elf, o, uso, base, mods, global, i, before, after, tables, k, m, place);
    }
  }

  // ----- What no relocation touches

  /** Some relocation of the section has its word there. */
  predicate Touched(elf: ElfFile, o: Output, i: nat, p: nat)
    requires i < |o.sections|
  {
    exists k :: 0 <= k < |RelocsOf(elf, o, i)| && RelocsOf(elf, o, i)[k].offset <= p < RelocsOf(elf, o, i)[k].offset + 4
  }

  /** Section s of the ELF file in memory: zeros if it is NOBITS, else its bytes wherever no relocation applies. */
  ghost predicate HeldAsInElf(elf: ElfFile, o: Output, after: seq<seq<Byte>>, s: U16)
    requires s < |elf.sections|
  {
    var sec, i := elf.sections[s], OutputIndex(o.ctx.secMap, s);
    && 1 <= i < |after| == |o.sections| && |after[i]| == sec.size
    && (sec.nobits ==> forall p :: 0 <= p < |after[i]| ==> after[i][p] == 0)
    && (!sec.nobits && sec.size > 0 ==>
          && sec.data.Some? && |sec.data.value| == sec.size
          && forall p :: 0 <= p < |after[i]| && !Touched(elf, o, i, p) ==> after[i][p] == sec.data.value[p])
  }

  lemma FixedSize(sections: seq<Section>, table: U32, noloadBase: U32, i: nat)
    requires i < |sections|
    ensures FixedSection(sections, table, noloadBase, i).size == sections[i].size
  {
    hide Placed, NoloadCursor, FixedUp;
  }

  lemma BytesAtPlace(x: Source, base: U32, i: nat)
    requires FileFits(x) && i < |x.secs|
    ensures |Expected(x).sections| == |x.secs|
    ensures var t := FixedTable(Expected(x), base)[i];
            && t.size == x.secs[i].size
            && SectionBytes(Image(x), Expected(x), base)[i] == InBlock(Image(x), t.data as int - base, t.size)
  {
    hide Encodable, SectionWriter.SectionsFit, ImageEnd, Image, InBlock, InfoOf, FixedSection, TableOrNull,
         SectionWriter.Entry, TableOfs, UsoImage.NoloadBase;
    var image := Expected(x);
    EntrySize(x.secs, TableOfs(x), i);
    FixedSize(Entries(x), image.TableAddr(base), image.NoloadBase(base), i);
  }

  lemma ZerosBehindImage(x: Source, base: U32, i: nat)
    requires FileFits(x) && HasDummy(x) && RoomToLoad(x, base) && 1 <= i < |x.secs| && x.secs[i].data == None
    ensures |Expected(x).sections| == |x.secs|
    ensures forall p :: 0 <= p < |SectionBytes(Image(x), Expected(x), base)[i]| ==>
              SectionBytes(Image(x), Expected(x), base)[i][p] == 0
  {
    hide Encodable, SectionWriter.SectionsFit, ImageEnd, Image, FixedTable, Entries, RoomToLoad, SectionBytes, RoundUp,
         PlacedOfs, NoloadOfs, SectionWriter.MaxAlign, RoomFor, InfoOf, RamSize, NoPadding, Expected;
    BytesAtPlace(x, base, i);
    SectionStartIs(x, base, i);
    LoadedNoload(x, base);
    NoloadBaseIs(x, base);
  }

  /** The bytes in front of linking, for a section with data and for one without. */
  lemma BytesBefore(elf: ElfFile, o: Output, base: U32, i: nat)
    requires elf.Parsed() && Built(elf, o) && FileFits(o.source) && RoomToLoad(o.source, base)
    requires 1 <= i < |o.source.secs|
    ensures |Expected(o.source).sections| == |o.source.secs|
    ensures var b := SectionBytes(Image(o.source), Expected(o.source), base)[i];
            && |b| == o.source.secs[i].size
            && (o.source.secs[i].data == None ==> forall p :: 0 <= p < |b| ==> b[p] == 0)
            && (o.source.secs[i].data.Some? && |b| > 0 ==> b == o.source.secs[i].data.value)
  {
    hide Encodable, SectionWriter.SectionsFit, ImageEnd, Image, FixedTable, Expected, RoomToLoad, Built, FileOfs,
         InBlock, SectionBytes;
    var x := o.source;
    BuiltHasDummy(elf, o);
    BytesAtPlace(x, base, i);
    if x.secs[i].data == None {
      ZerosBehindImage(x, base, i);
    } else if x.secs[i].size > 0 {
      BytesAreRead(elf, o, base, i);
      ReadBytes(x, base, i, SectionBytes(Image(x), Expected(x), base)[i]);
    }
  }

  /** Table entries sit where ELF relocations do. */
  lemma CoveredIsTouched(elf: ElfFile, o: Output, i: nat, external: bool, p: nat)
    requires i < |o.sections| && SymbolsExist(RelocsOf(elf, o, i), o.ctx)
    requires var t := Table(RelocsOf(elf, o, i), o.ctx, external, |RelocsOf(elf, o, i)|); Covered(t, |t|, p)
    ensures Touched(elf, o, i, p)
  {
    hide RelocsOf, Chosen;
    var relocs := RelocsOf(elf, o, i);
    var t := Table(relocs, o.ctx, external, |relocs|);
    var q :| 0 <= q < |t| && t[q].offset <= p < t[q].offset + 4;
    TableEntry(relocs, o.ctx, external, q);
    var k := Chosen(relocs, o.ctx, external, |relocs|)[q];
    assert relocs[k].offset == t[q].offset;
  }

  /** Linking leaves everything else alone. */
  lemma RestOfSection(elf: ElfFile, o: Output, uso: Uso, base: U32, i: nat, after: seq<seq<Byte>>)
    requires elf.Parsed() && Built(elf, o) && GoodSections(elf, o) && FileFits(o.source) && RoomToLoad(o.source, base)
    requires 1 <= i < |o.sections|
    requires LinkedInto(uso, Expected(o.source), base, SectionBytes(Image(o.source), Expected(o.source), base), after,
                        SectionTables(Image(o.source), Expected(o.source), base))
    ensures |after| == |o.sections| == |o.source.secs| && |after[i]| == o.source.secs[i].size
    ensures o.source.secs[i].data == None ==> forall p :: 0 <= p < |after[i]| ==> after[i][p] == 0
    ensures o.source.secs[i].data.Some? && |after[i]| > 0 ==>
              && |o.source.secs[i].data.value| == |after[i]|
              && forall p :: 0 <= p < |after[i]| && !Touched(elf, o, i, p) ==>
                   after[i][p] == o.source.secs[i].data.value[p]
  {
    hide Encodable, SectionWriter.SectionsFit, ImageEnd, Image, FixedTable, Expected, RoomToLoad, Built, GoodSections,
         SectionBytes, SectionTables, RelocsOf, LinkableWith, Table, LinkedWord, Touched, Covered;
    MapInRange(elf, o);
    BuiltHasDummy(elf, o);
    SectionNotNull(o.source, base, i);
    BytesBefore(elf, o, base, i);
    TablesOfBuilt(elf, o, base, i);
    forall p | 0 <= p < |after[i]| && !Touched(elf, o, i, p)
      ensures after[i][p] == SectionBytes(Image(o.source), Expected(o.source), base)[i][p]
    {
      var relocs := RelocsOf(elf, o, i);
      var internal, external := Table(relocs, o.ctx, false, |relocs|), Table(relocs, o.ctx, true, |relocs|);
      if Covered(internal, |internal|, p) {
        CoveredIsTouched(elf, o, i, false, p);
      }
      if Covered(external, |external|, p) {
        CoveredIsTouched(elf, o, i, true, p);
      }
    }
    if o.source.secs[i].data == None {
      NoDataNoRelocs(elf, o, i);
      NeverTouched(elf, o, i);
    }
  }

  lemma NeverTouched(elf: ElfFile, o: Output, i: nat)
    requires i < |o.sections| && RelocsOf(elf, o, i) == []
    ensures forall p :: !Touched(elf, o, i, p)
  {
    hide RelocsOf;
  }

  lemma DataIsPresent(elf: ElfFile, o: Output, s: U16)
    requires GoodSections(elf, o) && s < |elf.sections| && !elf.sections[s].nobits && elf.sections[s].size > 0
    ensures elf.sections[s].data.Some?
  {
    hide GoodRelocs;
  }

  lemma LoadedHolds(elf: ElfFile, o: Output, uso: Uso, base: U32, after: seq<seq<Byte>>, s: U16)
    requires elf.Parsed() && Built(elf, o) && GoodSections(elf, o) && FileFits(o.source) && RoomToLoad(o.source, base)
    requires LinkedInto(uso, Expected(o.source), base, SectionBytes(Image(o.source), Expected(o.source), base), after,
                        SectionTables(Image(o.source), Expected(o.source), base))
    requires 1 <= s < |elf.sections| && elf.sections[s].alloc
    ensures HeldAsInElf(elf, o, after, s)
  {
    hide Encodable, SectionWriter.SectionsFit, ImageEnd, Image, FixedTable, Expected, RoomToLoad, Built, GoodSections,
         SectionBytes, SectionTables, LinkedInto, Touched, OutputIndex;
    BuiltSection(elf, o, s);
    if !elf.sections[s].nobits && elf.sections[s].size > 0 {
      DataIsPresent(elf, o, s);
    }
    RestOfSection(elf, o, uso, base, OutputIndex(o.ctx.secMap, s), after);
  }

  lemma NewIsLast(view: seq<Module>, view': seq<Module>, nextId: nat, global: Option<S.SymbolTable>, name: Name,
                  file: Option<UsoFile>)
    requires view' == OpenStep(view, nextId, global, name, file) && |view'| > |view|
    ensures IndexOfName(view', name) == |view| && |view'| == |view| + 1
  {
    hide ResolveTable, ProvidersOf, Links;
    OpenStepIs(view, nextId, global, name, file);
  }

  /** What the handle of a module just loaded has as its tables. */
  lemma NewHandle(view: seq<Module>, view': seq<Module>, nextId: nat, global: Option<S.SymbolTable>, name: Name,
                  image: UsoImage, base: U32)
    requires image.WellFormed() && view' == OpenStep(view, nextId, global, name, FileAt(Some(image), base))
    requires |view'| > |view|
    ensures view'[|view|].imports == match image.imports
                                     case None => None
                                     case Some(t) => Some(ResolveTable(t, view, global))
    ensures view'[|view|].exports == ExportsAt(image, base)
  {
    hide ResolveTable, ProvidersOf, Links, UsoImage.WellFormed, ExportsAt;
    OpenStepIs(view, nextId, global, name, FileAt(Some(image), base));
  }

  /** elf2uso made o of a good ELF file, it fits 32 bits, and there is room for it at `base`. */
  ghost predicate ReadyToLoad(elf: ElfFile, o: Output, base: U32) {
    && elf.Parsed() && Built(elf, o) && GoodSymbols(elf) && GoodSections(elf, o)
    && FileFits(o.source) && RoomToLoad(o.source, base)
  }

  /** The bytes that uso_write leaves. */
  ghost predicate IsFileOf(file: seq<Byte>, x: Source) {
    Encodable(x.imports) && Encodable(x.exports) && file == FileOf(x)
  }

  lemma ReadyIsLoadable(elf: ElfFile, o: Output, base: U32, file: seq<Byte>)
    requires ReadyToLoad(elf, o, base) && IsFileOf(file, o.source)
    ensures Loadable(file, base) && !StopsOn(file, base)
  {
    hide Encodable, SectionWriter.SectionsFit, ImageEnd, Image, FileOf, ReadImage, Readable, BlockOf, FixedTable,
         RoomToLoad, Built, GoodSections, GoodSymbols, SectionTables, Loadable, InfoOf, TableOrNull, FileAt,
         HasInvalidType, UsoImage.WellFormed;
    BuiltIsLoadable(elf, o, base);
  }

  /**
   A module as it should be in memory: relocated words are the ABI's, NOBITS sections are zero, all else is as in the
   ELF file, every exported symbol is found under its name at its address, and every undefined one is bound.
   */
  ghost predicate AsInElf(elf: ElfFile, o: Output, base: U32, mods: seq<Module>, global: Option<S.SymbolTable>,
                          m: Module, after: seq<seq<Byte>>)
  {
    && AllMeetAbi(elf, o, base, mods, global, after)
    && (forall s: U16 :: 1 <= s < |elf.sections| && elf.sections[s].alloc ==> HeldAsInElf(elf, o, after, s))
    && (forall i :: 0 <= i < |elf.symbols| && Exported(elf.symbols[i]) ==> Found(o, base, m, elf.symbols[i]))
    && forall i :: 0 <= i < |elf.symbols| && Imported(elf.symbols[i]) ==> BoundIn(m, mods, global, elf.symbols[i])
  }

  /** The import table has the name, with what it resolved to; it is weak if the ELF type, of all things, is 2. */
  ghost predicate BoundIn(m: Module, mods: seq<Module>, global: Option<S.SymbolTable>, s: ElfSymbol) {
    exists k :: 0 <= k < |m.Imports()| && m.Imports()[k].name == s.name
                && m.Imports()[k].ptr == Resolve(mods, global, s.name)
                && (m.Imports()[k].IsWeak() <==> s.kind == 2)
  }

  lemma ImportsBound(elf: ElfFile, o: Output, m: Module, mods: seq<Module>, global: Option<S.SymbolTable>, i: nat)
    requires elf.Parsed() && Built(elf, o) && Encodable(o.source.imports)
    requires m.imports == match TableOrNull(o.source.imports)
                          case None => None
                          case Some(t) => Some(ResolveTable(t, mods, global))
    requires i < |elf.symbols| && Imported(elf.symbols[i])
    ensures BoundIn(m, mods, global, elf.symbols[i])
  {
    hide Built, Encodable, Resolve, SortByName, ImportsCollected;
    var k := BuiltImport(elf, o, i);
    WeakMark(o.source.imports, k);
    var t := LoadedForm(o.source.imports);
    assert m.Imports()[k] == t[k].(ptr := Resolve(mods, global, t[k].name));
  }

  ghost predicate Found(o: Output, base: U32, m: Module, s: ElfSymbol) {
    && Encodable(o.source.imports) && Encodable(o.source.exports)
    && OutputIndex(o.ctx.secMap, s.section) < |o.source.secs|
    && S.LookupIn(m.exports, s.name) == ElfAddress(o, base, s) != 0
  }

  lemma ExportsFound(elf: ElfFile, o: Output, base: U32, m: Module, i: nat)
    requires elf.Parsed() && Built(elf, o) && GoodSymbols(elf) && FileFits(o.source) && RoomToLoad(o.source, base)
    requires Expected(o.source).WellFormed() && m.exports == ExportsAt(Expected(o.source), base)
    requires i < |elf.symbols| && Exported(elf.symbols[i])
    ensures Found(o, base, m, elf.symbols[i])
  {
    hide Built, GoodSymbols, SectionWriter.SectionsFit, ImageEnd, ExportsEnd, RoomToLoad, Encodable, S.LookupIn,
         OutputIndex, Exported, Expected, ElfAddress, ExportsAt, UsoImage.WellFormed;
    ExportedAt(elf, o, base, i);
    NotAtNull(elf, o, base, i);
  }

  /** A new handle's memory and exports are what they should be. */
  lemma ReadyIsAsInElf(elf: ElfFile, o: Output, base: U32, file: seq<Byte>, uso: Uso, view: seq<Module>, nextId: nat,
                      global: Option<S.SymbolTable>, name: Name, view': seq<Module>, after: seq<seq<Byte>>)
    requires ReadyToLoad(elf, o, base) && IsFileOf(file, o.source)
    requires view' == OpenStep(view, nextId, global, name, FileIn(Some(file), base)) && |view'| > |view|
    requires view'[|view|].imports == uso.imports && LinkedFrom(file, uso, base, after)
    ensures AsInElf(elf, o, base, view, global, view'[|view|], after)
  {
    hide Encodable, SectionWriter.SectionsFit, ImageEnd, Image, FileOf, ReadImage, Readable, BlockOf, FixedTable,
         RoomToLoad, Built, GoodSections, GoodSymbols, SectionTables, SectionBytes, Loadable, InfoOf, TableOrNull,
         FileAt, HasInvalidType, UsoImage.WellFormed, FileIn, OpenStep, AllMeetAbi, Entries, HeldAsInElf, Found,
         Exported, Imported, BoundIn, ExportsAt;
    BuiltIsLoadable(elf, o, base);
    FileInIs(Some(file), base);
    NewHandle(view, view', nextId, global, name, Expected(o.source), base);
    LoadedMeetsAbi(elf, o, uso, base, view, global, after);
    forall s: U16 | 1 <= s < |elf.sections| && elf.sections[s].alloc
      ensures HeldAsInElf(elf, o, after, s)
    {
      LoadedHolds(elf, o, uso, base, after, s);
    }
    forall i | 0 <= i < |elf.symbols| && Exported(elf.symbols[i])
      ensures Found(o, base, view'[|view|], elf.symbols[i])
    {
      ExportsFound(elf, o, base, view'[|view|], i);
    }
    forall i | 0 <= i < |elf.symbols| && Imported(elf.symbols[i])
      ensures BoundIn(view'[|view|], view, global, elf.symbols[i])
    {
      ImportsBound(elf, o, view'[|view|], view, global, i);
    }
  }

  /**
   Opening a file of elf2uso. The loader never stops on it, and takes the specified step. If the module is new, it is
   in memory as the ELF file has it (AsInElf): relocated, but for a HI16 paired with 0x8000, and at the right addresses.
   */
  method OpenBuilt(list: UsoList, filename: Name, file: seq<Byte>, addr: U32, base: U32, ghost elf: ElfFile,
                   ghost o: Output)
    returns (handle: Handle?, memory: seq<array<Byte>>)
    requires list.Valid() && NulFree(filename)
    requires forall i :: 0 <= i < |list.nodes| ==> list.nodes[i].addr != addr
    requires ReadyToLoad(elf, o, base) && IsFileOf(file, o.source)
    modifies list`head, list`tail, list`nodes, list`nextId, list.nodes`next, list.nodes`refCount
    ensures list.Valid() && list.nextId == old(list.nextId) + 1
    ensures list.View() == OpenStep(old(list.View()), old(list.nextId), list.globalSyms, filename,
                                    FileIn(Some(file), base))
    ensures handle == var i := IndexOfName(list.View(), filename); if i < |list.nodes| then list.nodes[i] else null
    ensures |list.nodes| > |old(list.nodes)| ==>
              handle != null && handle.addr == addr
              && AsInElf(elf, o, base, old(list.View()), list.globalSyms, handle.View(), Contents(memory))
  {
    hide UsoList.Valid, UsoList.View, OpenStep, IndexOfName, Contents, NulFree, Loadable, StopsOn, ReadyToLoad,
         IsFileOf, FileIn, FileLinks, AsInElf, LinkedFrom, RestAsRead;
    ReadyIsLoadable(elf, o, base, file);
    ghost var view := list.View();
    var halted;
    halted, handle, memory := OpenFile(list, filename, Some(file), addr, base);
    assert !halted;
    if |list.nodes| > |view| {
      NewIsLast(view, list.View(), old(list.nextId), list.globalSyms, filename, FileIn(Some(file), base));
      assert list.View()[|view|] == handle.View();
      ReadyIsAsInElf(elf, o, base, file, handle.uso, view, old(list.nextId), list.globalSyms, filename, list.View(),
                     Contents(memory));
    }
  }

  // ----- An example

  const NULL_SECTION := ElfSection([], false, false, 0, 0, None)
  const SMALL_ELF := ElfFile([], [NULL_SECTION, ElfSection([0x78], true, false, 1, 4, Some([0x2a]))], [], [[], []])
  const SMALL_OUTPUT :=
    Output(SMALL, Context([], map[SHN_UNDEF := 0, 1 := 1], map[]), [SectionCollect.DUMMY, OutputSection(0, BYTE)])

  /** An ELF file of one section, and what elf2uso makes of it, meet all that opening it relies on. */
  lemma SmallElfIsBuilt(base: U32)
    requires base % 4 == 0 && base < 0x8000_0000
    ensures ReadyToLoad(SMALL_ELF, SMALL_OUTPUT, base)
  {
    hide FileFits, RoomToLoad, Built, GoodSections;
    SmallUsoFits(base);
    SmallIsBuilt();
    SmallIsGood();
  }

  lemma SmallIsBuilt()
    ensures Built(SMALL_ELF, SMALL_OUTPUT)
  {
    hide Maps, HeaderSections, SectionBuilt, Ascii, FileFits;
    SmallSections();
    SmallHeader();
    SmallTables(0);
    SmallTables(1);
  }

  lemma SmallIsGood()
    ensures GoodSections(SMALL_ELF, SMALL_OUTPUT)
  {
    hide RelocsOf, FileFits;
    SmallTables(0);
    SmallTables(1);
  }

  lemma SmallTables(i: nat)
    requires i < 2
    ensures SectionBuilt(SMALL_ELF, SMALL_OUTPUT, i) && RelocsOf(SMALL_ELF, SMALL_OUTPUT, i) == []
  {
  }

  lemma SmallSections()
    ensures Maps(SMALL_ELF.sections, 2, SMALL_OUTPUT.ctx.secMap, SMALL_OUTPUT.sections)
  {
    var m := SMALL_OUTPUT.ctx.secMap;
    assert m[SHN_UNDEF] == 0 && m[1] == 1;
    assert Hit(m, 0) && Hit(m, 1);
    assert |REL_PREFIX + [0x78]| == 5;
    assert Describes(SMALL_ELF.sections, 1, SMALL_OUTPUT.sections[1]);
  }

  lemma SmallHeader()
    ensures HeaderSections(SMALL_ELF, SMALL_OUTPUT)
  {
    assert |EH_FRAME| == 9 && |CTORS| == 6 && |DTORS| == 6;
    var none: U16 := 0;
    assert FirstNamed(SMALL_ELF.sections, EH_FRAME, none);
    assert FirstNamed(SMALL_ELF.sections, CTORS, none);
    assert FirstNamed(SMALL_ELF.sections, DTORS, none);
  }
}
