/**
 The symbol closure over the whole tool chain: ELF files through elf2uso, the extern tool on the files it wrote,
 make_global_syms on the main binary, and the loader on the same files.
 */
module Closure {
  import opened Words
  import opened CStrings
  import opened ElfInput
  import opened SymbolCodec
  import opened SectionWriter
  import opened ImageWriter
  import opened ImageLoader
  import opened LoadedSections
  import opened Elf2Uso
  import opened Fixups
  import opened Externs
  import opened UsoReader
  import opened GlobalSyms
  import opened SymCollect
  import S = Symbols
  import Lifecycle

  /** A section other than the absolute one is never at NULL, and does not reach the end of the address space. */
  lemma SectionNotNull(x: Source, base: U32, i: nat)
    requires FileFits(x) && HasDummy(x) && RoomToLoad(x, base) && 1 <= i < |x.secs|
    ensures 0 < FixedTable(Expected(x), base)[i].data
    ensures FixedTable(Expected(x), base)[i].data + x.secs[i].size < 0x1_0000_0000
  {
    hide SectionsFit, Encodable, Image, PlacedAt, HasDummy, SumNoload, NoloadOfs, InfoOf, Entries, FileOfs, RoomFor,
         IsNoload, ImageEnd, FixedSection, TableOrNull;
    RoomIsPlaced(x, base);
    EntryKind(x, i);
    if x.secs[i].data.Some? {
      LoadedEnds(x, base, i);
    } else {
      LoadedNoload(x, base);
      ImageSize(x);
      var image := Expected(x);
      NoloadAt(Entries(x), image.TableAddr(base), image.NoloadBase(base), InfoOf(x).noloadAlign, i);
      NoloadEnds(Entries(x), image.NoloadBase(base), InfoOf(x).noloadAlign, i);
    }
  }

  lemma LoadedEnds(x: Source, base: U32, i: nat)
    requires FileFits(x) && PlacedAt(x, base) && 1 <= i < |x.secs| && x.secs[i].data.Some?
    ensures 0 < FixedTable(Expected(x), base)[i].data
    ensures FixedTable(Expected(x), base)[i].data + x.secs[i].size < 0x1_0000_0000
  {
    hide SectionsFit, Encodable, Image, ImageEnd, FixedTable, FileOfs, Expected;
    LoadedSection(x, base, i);
    FileOfsPlace(x, i);
  }

  lemma NoloadEnds(sections: seq<Section>, base: U32, max: U32, i: nat)
    requires RoomFor(sections, base, max) && 1 <= i < |sections| && IsNoload(sections[i])
    ensures base + PlacedOfs(NoloadOfs(sections, i), sections[i].align) + sections[i].size < 0x1_0000_0000
  {
    hide PlacedOfs;
    OffsetsGrow(sections, i + 1, |sections|);
  }

  /** No export is at NULL: the tool rejected absolute ones at 0, and sections are not at NULL. */
  lemma ExportNotNull(elf: ElfFile, o: Output, base: U32, e: nat)
    requires elf.Parsed() && Built(elf, o) && GoodSymbols(elf)
    requires FileFits(o.source) && RoomToLoad(o.source, base) && e < |o.source.exports|
    ensures var s, t := o.source.exports[e], FixedTable(Expected(o.source), base);
            s.section < |t| && 0 < t[s.section].data + s.addr < 0x1_0000_0000
  {
    hide Built, GoodSymbols, SectionsFit, ImageEnd, RoomToLoad, Encodable, FixedTable, Entries, TableOrNull,
         InfoOf;
    BuiltHasDummy(elf, o);
    BuiltExports(elf, o, e);
    BuiltExportInside(elf, o, e);
    if o.source.exports[e].section != 0 {
      SectionNotNull(o.source, base, o.source.exports[e].section);
    } else {
      AbsoluteSection(o.source, base);
    }
  }

  lemma AbsoluteSection(x: Source, base: U32)
    requires Encodable(x.imports) && Encodable(x.exports) && 1 <= |x.secs|
    ensures FixedTable(Expected(x), base)[0].data == 0
  {
    hide Encodable, Image, Entries, TableOrNull;
  }

  /** The run-time export table of entry e. */
  lemma FixedExport(t: S.SymbolTable, sections: seq<Section>, e: nat)
    requires forall i :: 0 <= i < |t| ==> t[i].section < |sections|
    requires e < |t| && S.Sorted(t) && 0 < sections[t[e].section].data + t[e].ptr < 0x1_0000_0000
    ensures S.Lookup(ExportsFixed(t, sections), t[e].name) != 0
  {
    hide Less;
    var r := ExportsFixed(t, sections);
    assert r[e].name == t[e].name && r[e].ptr != 0;
    assert S.Sorted(r);
    S.LookupOfEntry(r, e);
  }

  /** What the loader finds in a file of elf2uso meets all it asks for. */
  lemma BuiltIsWellFormed(elf: ElfFile, o: Output)
    requires elf.Parsed() && Built(elf, o) && GoodSymbols(elf) && FileFits(o.source)
    ensures Readable(FileOf(o.source)) && ReadImage(FileOf(o.source)) == Expected(o.source)
    ensures Expected(o.source).WellFormed()
  {
    hide Built, GoodSymbols, FileFits, Encodable, StrictlyInOrder, FileOf, ReadImage, Readable, Expected;
    BuiltTables(elf, o);
    forall e | 0 <= e < |o.source.exports|
      ensures o.source.exports[e].section < |o.source.secs|
    {
      BuiltExports(elf, o, e);
    }
    LoadUndoesWrite(o.source);
    ReadImageIsWellFormed(o.source);
  }

  /** A module that was loaded from the file at that address. Being well formed is no condition (BuiltIsWellFormed). */
  ghost predicate LoadedFrom(m: Lifecycle.Module, x: Source, base: U32) {
    && FileFits(x) && RoomToLoad(x, base)
    && Expected(x).WellFormed() && m.exports == ExportsAt(Expected(x), base)
  }

  /** A USO loaded from a written file provides everything the extern tool read in its export table. */
  lemma LoadedUsoProvides(elf: ElfFile, o: Output, base: U32, u: UsoInfo, m: Lifecycle.Module)
    requires elf.Parsed() && Built(elf, o) && GoodSymbols(elf) && LoadedFrom(m, o.source, base)
    requires u.exports == AllRead(o.source.exports, |o.source.exports|)
    ensures Provides(m, u)
  {
    hide Built, GoodSymbols, SectionsFit, ImageEnd, Encodable, RoomToLoad, ExportsFixed, FixedTable, S.Sorted, Entries,
         S.Lookup, InfoOf, StrictlyInOrder;
    var x := o.source;
    BuiltTables(elf, o);
    StillSorted(x.exports);
    var t, sections := LoadedForm(x.exports), FixedTable(Expected(x), base);
    assert x.exports != [] ==> m.exports == Some(ExportsFixed(t, sections));
    forall e | 0 <= e < |u.exports|
      ensures S.LookupIn(m.exports, u.exports[e].name) != 0
    {
      ExportNotNull(elf, o, base, e);
      FixedExport(t, sections, e);
    }
  }

  // ----- The whole tool chain

  /** ELF files, what elf2uso made of each, and what the extern tool then read of its file. */
  ghost predicate Chain(elfs: seq<ElfFile>, outs: seq<Output>, usos: seq<UsoInfo>) {
    && |elfs| == |outs| == |usos|
    && forall k :: 0 <= k < |elfs| ==> Link(elfs[k], outs[k], usos[k])
  }

  ghost predicate Link(elf: ElfFile, o: Output, u: UsoInfo) {
    && elf.Parsed() && Built(elf, o) && GoodSymbols(elf)
    && FileFits(o.source) && ReadUso(FileOf(o.source)) == Some(u)
  }

  predicate ExportsName(x: Source, name: Name) { exists e :: 0 <= e < |x.exports| && x.exports[e].name == name }

  /** Some other USO that exports the name has been loaded. */
  ghost predicate Served(outs: seq<Output>, id: nat, mods: seq<Lifecycle.Module>, name: Name) {
    exists k, p, base :: 0 <= k < |outs| && k != id && 0 <= p < |mods| && ExportsName(outs[k].source, name)
                         && LoadedFrom(mods[p], outs[k].source, base)
  }

  /** The extern tool reads what elf2uso collected. */
  lemma ReadBackIs(elf: ElfFile, o: Output, u: UsoInfo)
    requires Link(elf, o, u)
    ensures u.imports == AllRead(o.source.imports, |o.source.imports|)
    ensures u.exports == AllRead(o.source.exports, |o.source.exports|)
  {
    hide Built, GoodSymbols, FileFits, FileOf, ReadUso, StrictlyInOrder;
    BuiltTables(elf, o);
    ReaderUndoesWriter(o.source);
  }

  lemma SameExportNames(x: Source, u: UsoInfo, name: Name)
    requires u.exports == AllRead(x.exports, |x.exports|)
    ensures HasName(u.exports, name) <==> ExportsName(x, name)
  {
    if ExportsName(x, name) {
      var e :| 0 <= e < |x.exports| && x.exports[e].name == name;
      assert u.exports[e].name == name;
    }
  }

  lemma ServedByUso(elfs: seq<ElfFile>, outs: seq<Output>, usos: seq<UsoInfo>, id: nat,
                    mods: seq<Lifecycle.Module>, name: Name)
    requires Chain(elfs, outs, usos) && Served(outs, id, mods, name)
    ensures ExporterLoaded(usos, id, mods, name)
  {
    hide Built, GoodSymbols, FileFits, FileOf, ReadUso, Provides, HasName, ExportsName, LoadedFrom;
    var k, p, base :| 0 <= k < |outs| && k != id && 0 <= p < |mods| && ExportsName(outs[k].source, name)
                      && LoadedFrom(mods[p], outs[k].source, base);
    assert Link(elfs[k], outs[k], usos[k]);
    ReadBackIs(elfs[k], outs[k], usos[k]);
    SameExportNames(outs[k].source, usos[k], name);
    LoadedUsoProvides(elfs[k], outs[k], base, usos[k], mods[p]);
  }

  /** Whoever is not extern is loaded, in terms of what the extern tool read. */
  ghost predicate OthersServed(outs: seq<Output>, id: nat, mods: seq<Lifecycle.Module>)
    requires id < |outs|
  {
    forall j, k ::
      (0 <= j < |outs[id].source.imports| && 0 <= k < |outs| && k != id
       && ExportsName(outs[k].source, outs[id].source.imports[j].name))
      ==> Served(outs, id, mods, outs[id].source.imports[j].name)
  }

  lemma ExportersLoaded(elfs: seq<ElfFile>, outs: seq<Output>, usos: seq<UsoInfo>, id: nat, mods: seq<Lifecycle.Module>,
                        j: nat)
    requires Chain(elfs, outs, usos) && id < |outs| && OthersServed(outs, id, mods)
    requires j < |outs[id].source.imports| && !IsExtern(usos, id, outs[id].source.imports[j].name)
    ensures ExporterLoaded(usos, id, mods, outs[id].source.imports[j].name)
  {
    hide Built, GoodSymbols, FileFits, FileOf, ReadUso, HasName, ExportsName, Served, ExporterLoaded;
    var name := outs[id].source.imports[j].name;
    var k :| 0 <= k < |usos| && k != id && HasName(usos[k].exports, name);
    assert Link(elfs[k], outs[k], usos[k]);
    ReadBackIs(elfs[k], outs[k], usos[k]);
    SameExportNames(outs[k].source, usos[k], name);
    ServedByUso(elfs, outs, usos, id, mods, name);
  }

  /**
   The extern list suffices: turn ELF files into USOs with elf2uso, list the externs of the written files, supply all
   of them in the global table, and load the other exporters first; then the loader links the USO.
   */
  lemma SuppliedExternsSuffice(elfs: seq<ElfFile>, outs: seq<Output>, usos: seq<UsoInfo>, externs: seq<Name>, id: nat,
                               mods: seq<Lifecycle.Module>, global: Option<S.SymbolTable>)
    requires Chain(elfs, outs, usos) && id < |outs| && OthersServed(outs, id, mods)
    requires forall name :: name in externs <==>
               exists i :: 0 <= i < |usos| && HasName(usos[i].imports, name) && IsExtern(usos, i, name)
    requires forall name :: name in externs ==> S.LookupIn(global, name) != 0
    ensures Encodable(outs[id].source.imports)
    ensures Lifecycle.Links(LoadedForm(outs[id].source.imports), mods, global)
  {
    hide Built, GoodSymbols, SectionsFit, Encodable, FileOf, ReadUso, ImageEnd, HasName, ExportsName, OthersServed,
         ExporterLoaded, S.Lookup, Lifecycle.Links, IsExtern;
    assert Link(elfs[id], outs[id], usos[id]);
    var imports := LoadedForm(outs[id].source.imports);
    ReadBackIs(elfs[id], outs[id], usos[id]);
    forall j | 0 <= j < |imports| && !IsExtern(usos, id, imports[j].name)
      ensures ExporterLoaded(usos, id, mods, imports[j].name)
    {
      ExportersLoaded(elfs, outs, usos, id, mods, j);
    }
    ExternsSuffice(usos, externs, id, imports, mods, global);
  }

  // ----- With the table that make_global_syms makes of the main binary

  /** Every loaded module came from one of the other files. */
  ghost predicate OnlyOthers(outs: seq<Output>, id: nat, mods: seq<Lifecycle.Module>) {
    forall p :: 0 <= p < |mods| ==>
      exists k, base :: 0 <= k < |outs| && k != id && LoadedFrom(mods[p], outs[k].source, base)
  }

  /** A module loaded from a file offers no name but those the extern tool read in it. */
  lemma LoadedComesFrom(x: Source, base: U32, u: UsoInfo, m: Lifecycle.Module)
    requires LoadedFrom(m, x, base) && u.exports == AllRead(x.exports, |x.exports|)
    ensures ComesFrom(m, u)
  {
    hide SectionsFit, ImageEnd, Encodable, RoomToLoad, FixedTable, S.Sorted, Entries, S.Lookup, InfoOf;
    forall name | S.LookupIn(m.exports, name) != 0
      ensures HasName(u.exports, name)
    {
      var e := S.LookupFinds(m.exports.value, name);
      assert LoadedForm(x.exports)[e].name == u.exports[e].name;
    }
  }

  lemma {:induction false} OthersComeFrom(elfs: seq<ElfFile>, outs: seq<Output>, usos: seq<UsoInfo>, id: nat,
                                         mods: seq<Lifecycle.Module>)
    requires Chain(elfs, outs, usos) && OnlyOthers(outs, id, mods)
    ensures OthersLoaded(usos, id, mods)
  {
    hide Built, GoodSymbols, FileFits, FileOf, ReadUso, LoadedFrom;
    forall p | 0 <= p < |mods|
      ensures FromOther(usos, id, mods[p])
    {
      var k, base :| 0 <= k < |outs| && k != id && LoadedFrom(mods[p], outs[k].source, base);
      assert Link(elfs[k], outs[k], usos[k]);
      ReadBackIs(elfs[k], outs[k], usos[k]);
      LoadedComesFrom(outs[k].source, base, usos[k], mods[p]);
    }
  }

  /** The global table as uso_init finds it in the file that make_global_syms wrote. */
  function GlobalTable(syms: seq<SymbolInfo>): S.SymbolTable
    requires Encodable(syms)
  {
    GlobalFileRoundTrip(syms);
    LoadedTable(GlobalFile(syms), 0)
  }

  /**
   What the main binary has to have, exactly: with the other exporters loaded, a USO links if and only if each import
   that is extern and not weak is a symbol of the main binary, and is not one of those make_global_syms leaves out.
   */
  lemma {:induction false} LinksIffMainOffers(elfs: seq<ElfFile>, outs: seq<Output>, usos: seq<UsoInfo>,
                                              main: seq<ElfSymbol>, syms: seq<SymbolInfo>, id: nat,
                                              mods: seq<Lifecycle.Module>)
    requires Chain(elfs, outs, usos) && id < |outs| && OthersServed(outs, id, mods) && OnlyOthers(outs, id, mods)
    requires UniqueNames(GlobalsOf(main, |main|)) && syms == SortByName(GlobalsOf(main, |main|)) && Encodable(syms)
    ensures Encodable(outs[id].source.imports)
    ensures Lifecycle.Links(LoadedForm(outs[id].source.imports), mods, Some(GlobalTable(syms)))
            <==> forall j :: 0 <= j < |outs[id].source.imports| && !LoadedForm(outs[id].source.imports)[j].IsWeak()
                             && IsExtern(usos, id, outs[id].source.imports[j].name) ==>
                   var name := outs[id].source.imports[j].name; Defines(main, name) && name !in UNEXPORTED
  {
    hide Built, GoodSymbols, SectionsFit, Encodable, FileOf, ReadUso, ImageEnd, HasName, ExportsName, OthersServed,
         OnlyOthers, OthersLoaded, ExporterLoaded, S.Lookup, Lifecycle.Links, IsExtern, UniqueNames, GlobalsOf,
         SortByName, Defines, Offers, S.Symbol.IsWeak, Ascii, GlobalFile, LoadedTable;
    assert Link(elfs[id], outs[id], usos[id]);
    var imports, global := LoadedForm(outs[id].source.imports), Some(GlobalTable(syms));
    ReadBackIs(elfs[id], outs[id], usos[id]);
    OthersComeFrom(elfs, outs, usos, id, mods);
    forall j | 0 <= j < |imports| && !IsExtern(usos, id, imports[j].name)
      ensures ExporterLoaded(usos, id, mods, imports[j].name)
    {
      ExportersLoaded(elfs, outs, usos, id, mods, j);
    }
    ClosureIsExact(usos, id, imports, mods, global);
    GlobalFileRoundTrip(syms);
    forall j | 0 <= j < |imports|
      ensures S.LookupIn(global, imports[j].name) != 0
              <==> Defines(main, imports[j].name) && imports[j].name !in UNEXPORTED
    {
      GlobalTableIsExact(main, syms, imports[j].name);
      OffersDefined(main, imports[j].name);
    }
  }

  /**
   The tool chain, whole: ELF files through elf2uso, the extern tool on the files it wrote, a main binary that defines
   every name on the extern list, make_global_syms, and the loader with the other exporters loaded. The USO links if
   and only if no import of it that is extern and not weak is one of the names that make_global_syms leaves out.
   */
  lemma {:induction false} ToolChainCloses(elfs: seq<ElfFile>, outs: seq<Output>, usos: seq<UsoInfo>,
                                           externs: seq<Name>, main: seq<ElfSymbol>, syms: seq<SymbolInfo>, id: nat,
                                           mods: seq<Lifecycle.Module>)
    requires Chain(elfs, outs, usos) && id < |outs| && OthersServed(outs, id, mods) && OnlyOthers(outs, id, mods)
    requires forall name :: name in externs <==>
               exists i :: 0 <= i < |usos| && HasName(usos[i].imports, name) && IsExtern(usos, i, name)
    requires forall name :: name in externs ==> Defines(main, name)
    requires UniqueNames(GlobalsOf(main, |main|)) && syms == SortByName(GlobalsOf(main, |main|)) && Encodable(syms)
    ensures Encodable(outs[id].source.imports)
    ensures Lifecycle.Links(LoadedForm(outs[id].source.imports), mods, Some(GlobalTable(syms)))
            <==> forall j :: 0 <= j < |outs[id].source.imports| && !LoadedForm(outs[id].source.imports)[j].IsWeak()
                             && IsExtern(usos, id, outs[id].source.imports[j].name) ==>
                   outs[id].source.imports[j].name !in UNEXPORTED
  {
    hide Built, GoodSymbols, SectionsFit, Encodable, FileOf, ReadUso, ImageEnd, ExportsName, OthersServed, OnlyOthers,
         Lifecycle.Links, IsExtern, UniqueNames, GlobalsOf, SortByName, Defines, S.Symbol.IsWeak, Ascii, GlobalTable;
    assert Link(elfs[id], outs[id], usos[id]);
    ReadBackIs(elfs[id], outs[id], usos[id]);
    var imports := outs[id].source.imports;
    forall j | 0 <= j < |imports| && IsExtern(usos, id, imports[j].name)
      ensures Defines(main, imports[j].name)
    {
      assert usos[id].imports[j].name == imports[j].name;
      assert HasName(usos[id].imports, imports[j].name);
    }
    LinksIffMainOffers(elfs, outs, usos, main, syms, id, mods);
  }

  // ----- A name that gets lost

  const END: Name := Ascii("end")
  const IMPORT_END := ElfSymbol(END, 0, 1, 0, SHN_UNDEF, STV_DEFAULT)
  const MAIN_WITH_END := [ElfSymbol(END, 0x8000_1000, 1, 0, 1, STV_DEFAULT)]

  /**
   elf2uso lets a USO import `end`, the extern tool lists it, and the main binary defines it, yet it is not in the
   global table, and the USO does not link.
   */
  lemma EndIsLost(secMap: SectionMap)
    ensures IsImport(IMPORT_END) && !Rejected(IMPORT_END, secMap)
    ensures IsExtern([UsoInfo([UsoSymbol(END, 0, 0, false)], [])], 0, END)
    ensures Defines(MAIN_WITH_END, END) && GlobalsOf(MAIN_WITH_END, 1) == []
    ensures !Lifecycle.Links([S.Symbol(END, 0, 0, 3)], [], Some([]))
  {
    LostNames(16);
    assert UNEXPORTED[16] == END;
    assert MAIN_WITH_END[0].name == END;
    assert GlobalsOf(MAIN_WITH_END, 0) == [];
    var t := [S.Symbol(END, 0, 0, 3)];
    assert S.LookupIn(Some([]), t[0].name) == 0 && Lifecycle.FirstExporter([], END) == 0;
    assert !t[0].IsWeak() && Lifecycle.Resolve([], Some([]), t[0].name) == 0;
  }
}
