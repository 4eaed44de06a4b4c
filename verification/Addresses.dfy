/**
 Where names end up: the run-time address of every symbol that an ELF file exports, and of every symbol of the main
 binary, said from the ELF symbols themselves, and what an import bound to one of them points to.
 */
module Addresses {
  import opened Words
  import opened CStrings
  import opened ElfInput
  import opened SymCollect
  import opened SymbolCodec
  import opened ImageWriter
  import opened ImageLoader
  import opened LoadedSections
  import opened Elf2Uso
  import opened Fixups
  import opened GlobalSyms
  import opened Closure
  import S = Symbols
  import Lifecycle
  import SectionWriter

  /** Where a defined symbol of the ELF file is at run time: its value, from the start of its section. */
  function ElfAddress(o: Output, base: U32, s: ElfSymbol): U32
    requires Encodable(o.source.imports) && Encodable(o.source.exports)
    requires OutputIndex(o.ctx.secMap, s.section) < |o.source.secs|
  {
    Trunc32(SectionStart(o.source, base, OutputIndex(o.ctx.secMap, s.section)) + s.value)
  }

  /** In a loaded module every exported symbol is found by its name, at its own address. */
  lemma {:induction false} ExportedAt(elf: ElfFile, o: Output, base: U32, i: nat)
    requires elf.Parsed() && Built(elf, o) && GoodSymbols(elf) && FileFits(o.source) && RoomToLoad(o.source, base)
    requires i < |elf.symbols| && Exported(elf.symbols[i])
    ensures OutputIndex(o.ctx.secMap, elf.symbols[i].section) < |o.source.secs| && Expected(o.source).WellFormed()
    ensures S.LookupIn(ExportsAt(Expected(o.source), base), elf.symbols[i].name)
         == ElfAddress(o, base, elf.symbols[i])
  {
    hide Built, GoodSymbols, SectionWriter.SectionsFit, ImageEnd, ExportsEnd, RoomToLoad, Encodable, S.LookupIn,
         OutputIndex, Exported, Expected, ElfAddress, ExportsAt, UsoImage.WellFormed, StrictlyInOrder, HasDummy;
    var e := BuiltExport(elf, o, i);
    BuiltExports(elf, o, e);
    BuiltIsWellFormed(elf, o);
    BuiltHasDummy(elf, o);
    BuiltTables(elf, o);
    ExportOfSymbol(o, base, elf.symbols[i], e);
  }

  lemma {:induction false} ExportOfSymbol(o: Output, base: U32, s: ElfSymbol, e: nat)
    requires FileFits(o.source) && HasDummy(o.source) && RoomToLoad(o.source, base)
    requires StrictlyInOrder(o.source.exports) && Expected(o.source).WellFormed() && e < |o.source.exports|
    requires var x := o.source.exports[e];
             && x.name == s.name && x.addr == s.value
             && x.section == OutputIndex(o.ctx.secMap, s.section) < |o.source.secs|
    ensures S.LookupIn(ExportsAt(Expected(o.source), base), s.name) == ElfAddress(o, base, s)
  {
    hide SectionWriter.SectionsFit, ImageEnd, ExportsEnd, RoomToLoad, Encodable, S.LookupIn, OutputIndex, Expected,
         ExportsAt, UsoImage.WellFormed, StrictlyInOrder, HasDummy, SectionStart, Trunc32;
    ExportAtStart(o.source, base, e);
  }

  lemma {:induction false} ExportAtStart(x: Source, base: U32, e: nat)
    requires FileFits(x) && HasDummy(x) && RoomToLoad(x, base) && StrictlyInOrder(x.exports)
    requires Expected(x).WellFormed() && e < |x.exports| && x.exports[e].section < |x.secs|
    ensures S.LookupIn(ExportsAt(Expected(x), base), x.exports[e].name)
         == Trunc32(SectionStart(x, base, x.exports[e].section) + x.exports[e].addr)
  {
    hide SectionWriter.SectionsFit, ImageEnd, RoomToLoad, Encodable, FixedTable, Entries, InfoOf, SectionStart,
         S.Lookup, StrictlyInOrder, S.Sorted, HasDummy, ExportsFixed;
    StillSorted(x.exports);
    SectionStartIs(x, base, x.exports[e].section);
    FixedExportAt(LoadedForm(x.exports), FixedTable(Expected(x), base), e);
  }

  /** The run-time export table of entry e. */
  lemma FixedExportAt(t: S.SymbolTable, sections: seq<Section>, e: nat)
    requires forall i :: 0 <= i < |t| ==> t[i].section < |sections|
    requires e < |t| && S.Sorted(t)
    ensures S.Lookup(ExportsFixed(t, sections), t[e].name) == Trunc32(sections[t[e].section].data + t[e].ptr)
  {
    hide Less;
    var r := ExportsFixed(t, sections);
    assert S.Sorted(r) && r[e].name == t[e].name;
    S.LookupOfEntry(r, e);
  }

  /** Every symbol of the main binary that is not local, has an address and is not left out is found at its address. */
  lemma {:induction false} GlobalAt(main: seq<ElfSymbol>, syms: seq<SymbolInfo>, i: nat)
    requires UniqueNames(GlobalsOf(main, |main|)) && syms == SortByName(GlobalsOf(main, |main|)) && Encodable(syms)
    requires i < |main| && main[i].bind != 0 && main[i].value != 0 && main[i].name !in UNEXPORTED
    ensures S.LookupIn(Some(GlobalTable(syms)), main[i].name) == main[i].value
  {
    hide SortByName, Encodable, S.Sorted, S.Lookup, UniqueNames, GlobalsOf, Offers, Ascii, LoadedTable, GlobalFile;
    GlobalTableIsExact(main, syms, main[i].name);
    GlobalFileRoundTrip(syms);
  }

  /** An import that another USO serves is at the address of the ELF symbol that this USO exports under the name. */
  lemma {:induction false} BoundToExport(elf: ElfFile, o: Output, base: U32, i: nat, mods: seq<Lifecycle.Module>,
                      global: Option<S.SymbolTable>, p: nat)
    requires elf.Parsed() && Built(elf, o) && GoodSymbols(elf) && FileFits(o.source) && RoomToLoad(o.source, base)
    requires i < |elf.symbols| && Exported(elf.symbols[i])
    requires p < |mods| && LoadedFrom(mods[p], o.source, base)
    requires forall q :: 0 <= q < p ==> S.LookupIn(mods[q].exports, elf.symbols[i].name) == 0
    ensures OutputIndex(o.ctx.secMap, elf.symbols[i].section) < |o.source.secs|
    ensures Lifecycle.Resolve(mods, global, elf.symbols[i].name) == ElfAddress(o, base, elf.symbols[i])
  {
    hide Built, GoodSymbols, FileFits, RoomToLoad, Encodable, ElfAddress, S.Lookup, ExportsAt, UsoImage.WellFormed,
         Exported, OutputIndex, Expected;
    var name := elf.symbols[i].name;
    ExportedAt(elf, o, base, i);
    NotAtNull(elf, o, base, i);
    Lifecycle.ResolveIsFirstMatch(mods, global, name, p);
  }

  /** No exported symbol is at NULL. */
  lemma NotAtNull(elf: ElfFile, o: Output, base: U32, i: nat)
    requires elf.Parsed() && Built(elf, o) && GoodSymbols(elf) && FileFits(o.source) && RoomToLoad(o.source, base)
    requires i < |elf.symbols| && Exported(elf.symbols[i])
    ensures OutputIndex(o.ctx.secMap, elf.symbols[i].section) < |o.source.secs|
    ensures ElfAddress(o, base, elf.symbols[i]) != 0
  {
    hide Built, GoodSymbols, SectionWriter.SectionsFit, ImageEnd, RoomToLoad, Encodable, FixedTable, Entries, InfoOf,
         SectionStart, OutputIndex, Exported, TableOrNull;
    var e := BuiltExport(elf, o, i);
    BuiltHasDummy(elf, o);
    ExportNotNull(elf, o, base, e);
    SectionStartIs(o.source, base, o.source.exports[e].section);
  }

  /** An import that no USO serves is at the address of the main binary's symbol. */
  lemma {:induction false} BoundToMain(main: seq<ElfSymbol>, syms: seq<SymbolInfo>, i: nat, mods: seq<Lifecycle.Module>)
    requires UniqueNames(GlobalsOf(main, |main|)) && syms == SortByName(GlobalsOf(main, |main|)) && Encodable(syms)
    requires i < |main| && main[i].bind != 0 && main[i].value != 0 && main[i].name !in UNEXPORTED
    requires forall q :: 0 <= q < |mods| ==> S.LookupIn(mods[q].exports, main[i].name) == 0
    ensures Lifecycle.Resolve(mods, Some(GlobalTable(syms)), main[i].name) == main[i].value
  {
    hide SortByName, Encodable, UniqueNames, GlobalsOf, S.Lookup, Ascii, GlobalTable;
    GlobalAt(main, syms, i);
    Lifecycle.ResolveIsFirstMatch(mods, Some(GlobalTable(syms)), main[i].name, |mods|);
  }
}
