/**
 From the ELF file to memory: elf2uso and the loader taken together. What a relocation of the ELF file finally
 refers to is the module that resolved the symbol's name, or the place its section was loaded to.
 */
module Pipeline {
  import opened Words
  import opened MipsAbi
  import opened Relocs
  import opened ElfInput
  import opened SymCollect
  import opened SectionCollect
  import opened RelocBuild
  import opened SymbolCodec
  import opened ImageWriter
  import opened ImageLoader
  import opened LoadedSections
  import opened Elf2Uso
  import opened Fixups
  import S = Symbols
  import L = Loader
  import Lifecycle
  import SectionWriter

  function SectionAddrs(image: UsoImage, base: U32): (r: seq<U32>)
    ensures |r| == |image.sections|
  {
    var table := FixedTable(image, base);
    seq(|table|, i requires 0 <= i < |table| => table[i].data)
  }

  function Pointers(t: S.SymbolTable): (r: seq<U32>)
    ensures |r| == |t|
  {
    seq(|t|, j requires 0 <= j < |t| => t[j].ptr)
  }

  /** What relocations of the USO refer to once it is loaded at `base` into a program with modules `mods`. */
  function ScopeOf(x: Source, base: U32, mods: seq<Lifecycle.Module>, global: Option<S.SymbolTable>): (s: Scope)
    requires Encodable(x.imports) && Encodable(x.exports)
    ensures |s.sections| == |x.secs| && |s.imports| == |x.imports|
  {
    Scope(SectionAddrs(Expected(x), base), Pointers(Lifecycle.ResolveTable(LoadedForm(x.imports), mods, global)))
  }

  /** The import table came from the ELF symbols. */
  ghost predicate ImportsCollected(x: Source, ctx: Context) {
    && x.imports == SortByName(ImportsOf(ctx.symbols, |ctx.symbols|))
    && MapsImports(ctx.importMap, x.imports)
  }

  /** An undefined symbol is found in the import table, under its own name. */
  lemma ImportEntry(x: Source, ctx: Context, y: nat)
    requires ImportsCollected(x, ctx) && y < |ctx.symbols| && IsImport(ctx.symbols[y])
    ensures y in ctx.importMap && ctx.importMap[y] < |x.imports|
    ensures x.imports[ctx.importMap[y]].name == ctx.symbols[y].name
  {
    hide SortByName, IsImport;
    var all := ImportsOf(ctx.symbols, |ctx.symbols|);
    var s := ImportOf(y, ctx.symbols[y]);
    SortKeepsMembers(all, s);
    var j :| 0 <= j < |x.imports| && x.imports[j] == s;
    SortKeepsMembers(all, x.imports[ctx.importMap[y]]);
  }

  /** The run-time address of an undefined symbol is what the loader resolved its name to. */
  lemma UndefinedSymbol(x: Source, ctx: Context, base: U32, mods: seq<Lifecycle.Module>,
                        global: Option<S.SymbolTable>, y: nat)
    requires Encodable(x.imports) && Encodable(x.exports) && ImportsCollected(x, ctx) && 1 <= |x.secs|
    requires y < |ctx.symbols| && IsImport(ctx.symbols[y])
    requires OutputIndex(ctx.secMap, SHN_UNDEF) < |x.secs|
    ensures ImportIndex(ctx, y) < |x.imports|
    ensures RuntimeAddr(ctx, ScopeOf(x, base, mods, global), y)
         == Lifecycle.Resolve(mods, global, ctx.symbols[y].name)
  {
    hide Encodable, ImportsCollected, FixedTable, Expected, OutputIndex, Lifecycle.Resolve, S.Lookup;
    ImportEntry(x, ctx, y);
  }

  /** The run-time address of a defined symbol: where its section starts, and its value. */
  lemma DefinedSymbol(x: Source, ctx: Context, base: U32, mods: seq<Lifecycle.Module>,
                      global: Option<S.SymbolTable>, y: nat)
    requires FileFits(x) && HasDummy(x) && RoomToLoad(x, base) && y < |ctx.symbols|
    requires ctx.symbols[y].section != SHN_UNDEF && OutputIndex(ctx.secMap, ctx.symbols[y].section) < |x.secs|
    ensures var s := ctx.symbols[y];
            RuntimeAddr(ctx, ScopeOf(x, base, mods, global), y)
            == Trunc32(SectionStart(x, base, OutputIndex(ctx.secMap, s.section)) + s.value)
  {
    hide Encodable, Image, FixedTable, Expected, OutputIndex, Lifecycle.ResolveTable, SectionStart, LoadedForm,
         SectionWriter.SectionsFit, ImageEnd, RoomToLoad;
    SectionStartIs(x, base, OutputIndex(ctx.secMap, ctx.symbols[y].section));
  }

  /** The address the ABI calls S, for symbol y of the ELF file. */
  function SymbolAddr(x: Source, ctx: Context, base: U32, mods: seq<Lifecycle.Module>, global: Option<S.SymbolTable>,
                      y: nat): U32
    requires Encodable(x.imports) && Encodable(x.exports) && y < |ctx.symbols|
    requires IsImport(ctx.symbols[y]) || OutputIndex(ctx.secMap, ctx.symbols[y].section) < |x.secs|
  {
    var s := ctx.symbols[y];
    if IsImport(s) then Lifecycle.Resolve(mods, global, s.name)
    else Trunc32(SectionStart(x, base, OutputIndex(ctx.secMap, s.section)) + s.value)
  }

  /** Symbols as ELF files have them: undefined ones are not local, and defined ones lie in an output section. */
  predicate Reachable(x: Source, ctx: Context, y: nat) {
    && y < |ctx.symbols|
    && OutputIndex(ctx.secMap, ctx.symbols[y].section) < |x.secs|
    && (ctx.symbols[y].section == SHN_UNDEF ==> IsImport(ctx.symbols[y]))
  }

  lemma AddressOfSymbol(x: Source, ctx: Context, base: U32, mods: seq<Lifecycle.Module>,
                        global: Option<S.SymbolTable>, y: nat)
    requires FileFits(x) && HasDummy(x) && RoomToLoad(x, base) && ImportsCollected(x, ctx) && Reachable(x, ctx, y)
    ensures ctx.symbols[y].section == SHN_UNDEF ==> ImportIndex(ctx, y) < |x.imports|
    ensures RuntimeAddr(ctx, ScopeOf(x, base, mods, global), y) == SymbolAddr(x, ctx, base, mods, global, y)
  {
    hide Encodable, ImportsCollected, RoomToLoad, ScopeOf, OutputIndex, Lifecycle.Resolve, SectionStart, ImportIndex,
         RuntimeAddr, ImageEnd, SectionWriter.SectionsFit;
    if ctx.symbols[y].section == SHN_UNDEF {
      UndefinedSymbol(x, ctx, base, mods, global, y);
    } else {
      DefinedSymbol(x, ctx, base, mods, global, y);
    }
  }

  // ----- The tables in the file

  /** The relocation table a loaded section's pointer leads to; NULL leads to none. */
  function TableAtPointer(f: seq<Byte>, base: U32, ptr: U32): Option<seq<Reloc>> {
    if ptr == 0 || ptr < base || ptr - base + 4 > |f| || ptr - base + 4 + 12 * Word(f, ptr - base) > |f| then None
    else Some(SectionWriter.RelocTableAt(f, ptr - base))
  }

  lemma TableFound(x: Source, base: U32, ptr: U32, relocs: seq<Reloc>)
    requires Encodable(x.imports) && Encodable(x.exports) && PointsToTable(x, base, ptr, relocs)
    ensures TableOf(TableAtPointer(Image(x), base, ptr)) == relocs
  {
    hide Encodable, Image, Word, SectionWriter.RelocTableAt;
  }

  /** What the loader finds at the relocation pointers of a section. */
  function TablesFound(f: seq<Byte>, base: U32, s: Section): L.RelocTables {
    L.RelocTables(TableAtPointer(f, base, s.internalRelocs), TableAtPointer(f, base, s.externalRelocs))
  }

  /** They are the tables that reloc_build made from the ELF file. */
  lemma TablesAreBuilt(elf: ElfFile, o: Output, base: U32, i: nat)
    requires elf.Parsed() && Built(elf, o) && FileFits(o.source) && RoomToLoad(o.source, base)
    requires 1 <= i < |o.sections| && o.source.secs[i].data.Some?
    ensures
      var t := TablesFound(Image(o.source), base, FixedTable(Expected(o.source), base)[i]);
      var relocs := RelocsOf(elf, o, i);
      && SymbolsExist(relocs, o.ctx)
      && t.Internal() == Table(relocs, o.ctx, false, |relocs|) && t.External() == Table(relocs, o.ctx, true, |relocs|)
  {
    hide Encodable, SectionWriter.SectionsFit, ImageEnd, Image, FixedTable, Entries, TableOrNull, InfoOf, PointsToTable,
         TableAtPointer, Maps, Rejected, MapsImports, ImportsOf, ExportsOf, SortByName, Table, RelocsOf;
    var x, s := o.source, FixedTable(Expected(o.source), base)[i];
    RelocsNameSymbols(elf, o, i);
    assert SectionBuilt(elf, o, i);
    LoadedRelocs(x, base, i);
    TableFound(x, base, s.internalRelocs, x.secs[i].internal);
    TableFound(x, base, s.externalRelocs, x.secs[i].external);
  }

  // ----- From file to memory

  /** What the loader leaves of the USO in its handle (Loader.UsoList.FixupUso). */
  ghost predicate LoadedAs(uso: L.Uso, x: Source, base: U32, mods: seq<Lifecycle.Module>,
                           global: Option<S.SymbolTable>)
    requires Encodable(x.imports) && Encodable(x.exports)
  {
    && uso.sections == FixedTable(Expected(x), base)
    && uso.imports == match Expected(x).imports
                      case None => None
                      case Some(t) => Some(Lifecycle.ResolveTable(t, mods, global))
  }

  /** The loader links against just what the ELF symbols stand for. */
  lemma SameScope(uso: L.Uso, x: Source, base: U32, mods: seq<Lifecycle.Module>, global: Option<S.SymbolTable>)
    requires Encodable(x.imports) && Encodable(x.exports) && LoadedAs(uso, x, base, mods, global)
    ensures L.ScopeOf(uso) == ScopeOf(x, base, mods, global)
  {
    hide Encodable, FixedTable, Entries, InfoOf, TableOfs, Lifecycle.Resolve, LoadedForm;
    if x.imports == [] {
      assert Pointers(Lifecycle.ResolveTable(LoadedForm(x.imports), mods, global)) == [];
    }
  }

  /** R_MIPS_32, R_MIPS_26, R_MIPS_HI16 and R_MIPS_LO16 */
  const TYPES: set<Byte> := {2, 4, 5, 6}

  /**
   Relocations as a compiler leaves them: of the four types, inside the section, not overlapping, and against
   undefined symbols that are not local. Import indices fit the 26 bits of an entry.
   */
  ghost predicate GoodRelocs(elf: ElfFile, o: Output, i: nat)
    requires i < |o.sections| && i < |o.source.secs|
  {
    var relocs := RelocsOf(elf, o, i);
    && |o.source.imports| < 0x400_0000
    && (forall k :: 0 <= k < |relocs| ==>
          && relocs[k].kind in TYPES && relocs[k].offset + 4 <= o.source.secs[i].size
          && (relocs[k].symbol < |elf.symbols| && elf.symbols[relocs[k].symbol].section == SHN_UNDEF ==>
                IsImport(elf.symbols[relocs[k].symbol])))
    && (forall k, m :: 0 <= k < m < |relocs| ==>
          relocs[k].offset + 4 <= relocs[m].offset || relocs[m].offset + 4 <= relocs[k].offset)
  }

  lemma BuiltIsImportsCollected(elf: ElfFile, o: Output)
    requires elf.Parsed() && Built(elf, o)
    ensures ImportsCollected(o.source, o.ctx)
  {
    hide Maps, Rejected, MapsImports, SortByName, SectionBuilt;
  }

  lemma MapInRange(elf: ElfFile, o: Output)
    requires elf.Parsed() && Built(elf, o)
    ensures |o.source.secs| == |o.sections| >= 1
    ensures forall s :: s in o.ctx.secMap ==> o.ctx.secMap[s] < |o.source.secs|
  {
    hide Rejected, MapsImports, SortByName, SectionBuilt, Describes;
  }

  /** The collected file is fit for relocation. */
  lemma BuiltIsGoodInput(elf: ElfFile, o: Output, i: nat, scope: Scope)
    requires elf.Parsed() && Built(elf, o) && i < |o.sections| && i < |o.source.secs| && GoodRelocs(elf, o, i)
    requires |scope.sections| == |o.source.secs| && |scope.imports| == |o.source.imports|
    ensures GoodInput(RelocsOf(elf, o, i), o.ctx, o.source.imports, scope, o.source.secs[i].size)
    ensures forall k :: 0 <= k < |RelocsOf(elf, o, i)| ==> Reachable(o.source, o.ctx, RelocsOf(elf, o, i)[k].symbol)
  {
    hide Maps, Rejected, MapsImports, SortByName, SectionBuilt, ImportsCollected, IsImport, RelocsOf;
    var relocs := RelocsOf(elf, o, i);
    RelocsNameSymbols(elf, o, i);
    BuiltIsImportsCollected(elf, o);
    MapInRange(elf, o);
    CollectedMaps(o.source, o.ctx);
    forall k | 0 <= k < |relocs|
      ensures IsExternal(relocs[k], o.ctx) ==> relocs[k].symbol in o.ctx.importMap
    {
      if IsExternal(relocs[k], o.ctx) {
        ImportEntry(o.source, o.ctx, relocs[k].symbol);
      }
    }
  }

  lemma CollectedMaps(x: Source, ctx: Context)
    requires ImportsCollected(x, ctx)
    ensures MapsImports(ctx.importMap, x.imports)
  {
  }

  /** The place of section i in the file, as the loader read it. */
  ghost predicate ReadFromFile(x: Source, i: nat, bytes: seq<Byte>)
    requires Encodable(x.imports) && Encodable(x.exports) && i < |x.secs|
  {
    && FileOfs(x, i) + x.secs[i].size <= |Image(x)|
    && bytes == Image(x)[FileOfs(x, i)..FileOfs(x, i) + x.secs[i].size]
  }

  lemma ReadBytes(x: Source, base: U32, i: nat, bytes: seq<Byte>)
    requires FileFits(x) && RoomToLoad(x, base) && 1 <= i < |x.secs| && x.secs[i].data.Some?
    requires ReadFromFile(x, i, bytes) && x.secs[i].size > 0
    ensures bytes == x.secs[i].data.value && |bytes| == x.secs[i].size
    ensures FixedTable(Expected(x), base)[i].data != 0
  {
    hide Encodable, SectionWriter.SectionsFit, ImageEnd, Image, FixedTable, Expected, FileOfs, RoomToLoad, PlacedAt;
    RoomIsPlaced(x, base);
    LoadedSection(x, base, i);
    FileOfsPlace(x, i);
  }

  /** Linking with the tables found in the file is relocating with the ELF file's relocations. */
  lemma LinkedIsRelocated(elf: ElfFile, o: Output, uso: L.Uso, base: U32, mods: seq<Lifecycle.Module>,
                          global: Option<S.SymbolTable>, i: nat, before: seq<seq<Byte>>, after: seq<seq<Byte>>,
                          tables: seq<L.RelocTables>)
    requires elf.Parsed() && Built(elf, o) && FileFits(o.source) && RoomToLoad(o.source, base)
    requires 1 <= i < |o.sections| && o.source.secs[i].data.Some? && o.source.secs[i].size > 0
    requires GoodRelocs(elf, o, i)
    requires LoadedAs(uso, o.source, base, mods, global)
    requires L.LinkedInto(uso, Expected(o.source), base, before, after, tables) && i < |before|
    requires ReadFromFile(o.source, i, before[i])
    requires tables[i] == TablesFound(Image(o.source), base, uso.sections[i])
    ensures |after| == |before| && |before[i]| == o.source.secs[i].size
    ensures GoodInput(RelocsOf(elf, o, i), o.ctx, o.source.imports, ScopeOf(o.source, base, mods, global), |before[i]|)
    ensures Relocated(RelocsOf(elf, o, i), o.ctx, o.source.imports, ScopeOf(o.source, base, mods, global),
                      before[i], after[i])
  {
    hide Encodable, SectionWriter.SectionsFit, ImageEnd, Image, FixedTable, Expected, TablesFound, RoomToLoad, Built,
         GoodRelocs, GoodInput, ReadFromFile, Table, RelocsOf, Linked, LinkableWith, ScopeOf, L.ScopeOf;
    MapInRange(elf, o);
    SameScope(uso, o.source, base, mods, global);
    ReadBytes(o.source, base, i, before[i]);
    TablesAreBuilt(elf, o, base, i);
    BuiltIsGoodInput(elf, o, i, ScopeOf(o.source, base, mods, global));
  }

  /**
   What relocation k of section i leaves in `after`: the word that the ABI asks for, with S the address of the export
   the symbol's name resolved to, or of the symbol in its section, loaded or NOLOAD or absolute; the one exception is a
   HI16 whose LO16, at m, has immediate 0x8000.
   */
  ghost predicate MeetsAbi(elf: ElfFile, o: Output, base: U32, mods: seq<Lifecycle.Module>,
                           global: Option<S.SymbolTable>, i: nat, after: seq<Byte>, k: nat, m: nat, place: U32)
    requires Encodable(o.source.imports) && Encodable(o.source.exports)
    requires i < |o.sections| && i < |o.source.secs| && o.source.secs[i].data.Some?
    requires k < |RelocsOf(elf, o, i)| && m < |RelocsOf(elf, o, i)|
  {
    var relocs, bytes := RelocsOf(elf, o, i), o.source.secs[i].data.value;
    var r := relocs[k];
    && |after| == |bytes| && r.offset + 4 <= |bytes| && relocs[m].offset + 4 <= |bytes|
    && Reachable(o.source, o.ctx, r.symbol)
    && var lo := Trunc16(Word(bytes, relocs[m].offset));
       Word(after, r.offset) == AbiWord(r.kind, Word(bytes, r.offset),
                                        SymbolAddr(o.source, o.ctx, base, mods, global, r.symbol),
                                        lo, place, !IsExternal(r, o.ctx))
       <==> !(r.kind == R_MIPS_HI16 && lo == 0x8000)
  }

  /**
   From file to memory. elf2uso turns an ELF file into a USO file. The loader reads a section and its relocation
   tables from that file, resolves the imports and links. Then every word that the ELF file relocates is the one the
   ABI asks for, but for a HI16 whose LO16 immediate is 0x8000.
   */
  lemma FromFileToMemory(elf: ElfFile, o: Output, uso: L.Uso, base: U32, mods: seq<Lifecycle.Module>,
                         global: Option<S.SymbolTable>, i: nat, before: seq<seq<Byte>>, after: seq<seq<Byte>>,
                         tables: seq<L.RelocTables>, k: nat, m: nat, place: U32)
    requires elf.Parsed() && Built(elf, o) && FileFits(o.source) && RoomToLoad(o.source, base)
    requires 1 <= i < |o.sections| && o.source.secs[i].data.Some? && GoodRelocs(elf, o, i)
    requires LoadedAs(uso, o.source, base, mods, global)
    requires L.LinkedInto(uso, Expected(o.source), base, before, after, tables) && i < |before|
    requires ReadFromFile(o.source, i, before[i])
    requires tables[i] == TablesFound(Image(o.source), base, uso.sections[i])
    requires k < |RelocsOf(elf, o, i)| && m < |RelocsOf(elf, o, i)|
    requires RelocsOf(elf, o, i)[k].kind == R_MIPS_HI16 ==>
               SymbolsExist(RelocsOf(elf, o, i), o.ctx) && PairsUp(RelocsOf(elf, o, i), o.ctx, k, m)
    ensures MeetsAbi(elf, o, base, mods, global, i, after[i], k, m, place)
  {
    hide Encodable, SectionWriter.SectionsFit, ImageEnd, Image, FixedTable, Expected, TablesFound, RoomToLoad, Built,
         GoodRelocs, GoodInput, ReadFromFile, RelocsOf, ScopeOf, Relocated, RuntimeAddr, SymbolAddr, AbiWord, Word,
         PairsUp, LoadedAs, L.LinkedInto, ImportIndex, Reachable;
    var relocs, x := RelocsOf(elf, o, i), o.source;
    MapInRange(elf, o);
    InsideSection(elf, o, i, k, m);
    LinkedIsRelocated(elf, o, uso, base, mods, global, i, before, after, tables);
    ReadBytes(x, base, i, before[i]);
    BuiltIsGoodInput(elf, o, i, ScopeOf(x, base, mods, global));
    BuiltHasDummy(elf, o);
    BuiltIsImportsCollected(elf, o);
    AddressOfSymbol(x, o.ctx, base, mods, global, relocs[k].symbol);
    EndToEnd(relocs, o.ctx, x.imports, ScopeOf(x, base, mods, global), before[i], after[i], k, m, place);
  }

  lemma InsideSection(elf: ElfFile, o: Output, i: nat, k: nat, m: nat)
    requires i < |o.sections| && i < |o.source.secs| && GoodRelocs(elf, o, i)
    requires k < |RelocsOf(elf, o, i)| && m < |RelocsOf(elf, o, i)|
    ensures RelocsOf(elf, o, i)[k].offset + 4 <= o.source.secs[i].size
    ensures RelocsOf(elf, o, i)[m].offset + 4 <= o.source.secs[i].size
  {
    hide RelocsOf;
  }
}
