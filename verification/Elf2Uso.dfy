/**
 The whole of elf2uso's collecting (tools/elf2uso.cpp, lines 158-327 and 656-665): from a parsed ELF file to
 everything that uso_write writes, and what later stages may rely on because of it.
 */
module Elf2Uso {
  import opened Words
  import opened CStrings
  import opened ElfInput
  import opened SymCollect
  import opened SectionCollect
  import opened RelocBuild
  import opened ImageWriter
  import opened LoadedSections
  import W = SectionWriter

  const EH_FRAME: Name := Ascii(".eh_frame")
  const CTORS: Name := Ascii(".ctors")
  const DTORS: Name := Ascii(".dtors")

  /** A parsed ELF file; `relocs` has the entries of each section that is a relocation section. */
  datatype ElfFile = ElfFile(name: Name, sections: seq<ElfSection>, symbols: seq<ElfSymbol>,
                             relocs: seq<seq<ElfReloc>>)
  {
    /** Section 0 is there, and relocations name symbols of the table. */
    predicate Parsed() {
      && 1 <= |sections| < 0x1_0000 && |relocs| == |sections|
      && forall s, k :: 0 <= s < |relocs| && 0 <= k < |relocs[s]| ==> relocs[s][k].symbol < |symbols|
    }
  }

  /** What uso_write gets, with the maps it came from. */
  datatype Output = Output(source: Source, ctx: Context, sections: seq<OutputSection>)

  /** The relocations that belong to output section i. */
  function RelocsOf(elf: ElfFile, o: Output, i: nat): seq<ElfReloc>
    requires i < |o.sections|
  {
    var s := o.sections[i].relocs;
    if s == 0 || s >= |elf.relocs| then [] else elf.relocs[s]
  }

  lemma RelocsNameSymbols(elf: ElfFile, o: Output, i: nat)
    requires elf.Parsed() && o.ctx.symbols == elf.symbols && i < |o.sections|
    ensures SymbolsExist(RelocsOf(elf, o, i), o.ctx)
  {
  }

  /** Section i of the source is the collected one with its two tables. */
  ghost predicate SectionBuilt(elf: ElfFile, o: Output, i: nat)
    requires elf.Parsed() && o.ctx.symbols == elf.symbols && i < |o.sections| && i < |o.source.secs|
  {
    RelocsNameSymbols(elf, o, i);
    var relocs := RelocsOf(elf, o, i);
    o.source.secs[i] == o.sections[i].section.(internal := Table(relocs, o.ctx, false, |relocs|),
                                               external := Table(relocs, o.ctx, true, |relocs|))
  }

  /** The output section that the first section of that name became; 0 for none, or for one that is not loaded. */
  ghost predicate Identifies(elf: ElfFile, secMap: SectionMap, name: Name, id: U16) {
    exists s: U16 :: FirstNamed(elf.sections, name, s) && id == OutputIndex(secMap, s)
  }

  /** The three sections that the header names. */
  ghost predicate HeaderSections(elf: ElfFile, o: Output) {
    && Identifies(elf, o.ctx.secMap, EH_FRAME, o.source.ehFrame)
    && Identifies(elf, o.ctx.secMap, CTORS, o.source.ctors)
    && Identifies(elf, o.ctx.secMap, DTORS, o.source.dtors)
  }

  /** The tool's result, and that it did not exit. */
  ghost predicate Built(elf: ElfFile, o: Output)
    requires elf.Parsed()
  {
    && o.ctx.symbols == elf.symbols && o.source.elfName == elf.name && HeaderSections(elf, o)
    && Maps(elf.sections, |elf.sections|, o.ctx.secMap, o.sections)
    && (forall i :: 0 <= i < |elf.symbols| ==> !Rejected(elf.symbols[i], o.ctx.secMap))
    && o.source.imports == SortByName(ImportsOf(elf.symbols, |elf.symbols|))
    && o.source.exports == SortByName(ExportsOf(elf.symbols, o.ctx.secMap, |elf.symbols|))
    && MapsImports(o.ctx.importMap, o.source.imports)
    && |o.source.secs| == |o.sections|
    && forall i :: 0 <= i < |o.sections| ==> SectionBuilt(elf, o, i)
  }

  /** Not local, defined, and visible or one of the three names whose visibility does not count. */
  predicate Exported(s: ElfSymbol) {
    && s.bind != 0 && s.section != 0
    && (s.other == 0 || s.name in [Ascii("__dso_handle"), Ascii("_prolog"), Ascii("_epilog")])
  }

  /** Not local, and not defined. */
  predicate Imported(s: ElfSymbol) { s.bind != 0 && s.section == 0 }

  /**
   The symbols that make the tool give up: a name that is too long, an import of a name that is never to be imported, or
   an export at 0 that is in no loaded section.
   */
  predicate Unacceptable(elf: ElfFile, s: ElfSymbol) {
    && s.bind != 0
    && (|| |s.name| >= 32767
        || (s.section == 0 && s.name in [Ascii("__dso_handle"), Ascii("_init"), Ascii("_fini"), Ascii("_prolog"),
                                         Ascii("_epilog")])
        || (Exported(s) && s.value == 0
            && !(1 <= s.section < |elf.sections| && elf.sections[s.section].alloc)))
  }

  lemma RejectedIs(elf: ElfFile, secMap: SectionMap, sections: seq<OutputSection>, s: ElfSymbol)
    requires Maps(elf.sections, |elf.sections|, secMap, sections)
    ensures Rejected(s, secMap) <==> Unacceptable(elf, s)
  {
    hide Ascii, Describes;
  }

  /** Everything main does before uso_write; None when a symbol makes the tool exit. */
  method Collect(elf: ElfFile) returns (result: Option<Output>)
    requires elf.Parsed()
    ensures result.Some? ==> Built(elf, result.value)
    ensures result == None <==> exists i :: 0 <= i < |elf.symbols| && Unacceptable(elf, elf.symbols[i])
  {
    hide Maps, Rejected, MapsImports, ImportsOf, ExportsOf, SortByName, Table, SectionBuilt, Identifies, Ascii,
         Unacceptable;
    var secMap, sections := CollectSections(elf.sections);
    var collection := SymCollect.SymCollect(elf.symbols, secMap);
    forall i | 0 <= i < |elf.symbols|
      ensures Rejected(elf.symbols[i], secMap) <==> Unacceptable(elf, elf.symbols[i])
    {
      RejectedIs(elf, secMap, sections, elf.symbols[i]);
    }
    if collection.Exited? {
      return None;
    }
    var ctx := Context(elf.symbols, secMap, collection.importMap);
    var secs := BuildSections(elf, ctx, sections);
    var ehFrame := SectionId(elf, secMap, EH_FRAME);
    var ctors := SectionId(elf, secMap, CTORS);
    var dtors := SectionId(elf, secMap, DTORS);
    var source := Source(elf.name, collection.imports, collection.exports, secs, ehFrame, ctors, dtors);
    var o := Output(source, ctx, sections);
    forall i | 0 <= i < |sections|
      ensures SectionBuilt(elf, o, i)
    {
      BuiltIs(elf, o, i);
    }
    result := Some(o);
  }

  /** out_section_map[elf_find_section(name)] */
  method SectionId(elf: ElfFile, secMap: SectionMap, name: Name) returns (id: U16)
    requires elf.Parsed()
    ensures Identifies(elf, secMap, name, id)
  {
    hide FirstNamed, OutputIndex;
    var s := ElfFindSection(elf.sections, name);
    id := OutputIndex(secMap, s);
  }

  /** What section i comes out as. */
  ghost predicate TablesBuilt(elf: ElfFile, ctx: Context, s: OutputSection, sec: W.OutSection)
    requires elf.Parsed() && ctx.symbols == elf.symbols
  {
    var relocs := if s.relocs == 0 || s.relocs >= |elf.relocs| then [] else elf.relocs[s.relocs];
    sec == s.section.(internal := Table(relocs, ctx, false, |relocs|), external := Table(relocs, ctx, true, |relocs|))
  }

  /** reloc_build: the loop over output sections (tools/elf2uso.cpp:284-290). */
  method BuildSections(elf: ElfFile, ctx: Context, sections: seq<OutputSection>) returns (secs: seq<W.OutSection>)
    requires elf.Parsed() && ctx.symbols == elf.symbols
    ensures |secs| == |sections| && forall i :: 0 <= i < |secs| ==> TablesBuilt(elf, ctx, sections[i], secs[i])
  {
    hide Table;
    secs := [];
    for i := 0 to |sections|
      invariant |secs| == i && forall k :: 0 <= k < i ==> TablesBuilt(elf, ctx, sections[k], secs[k])
    {
      var s := sections[i];
      var relocs := if s.relocs == 0 || s.relocs as int >= |elf.relocs| then [] else elf.relocs[s.relocs];
      var internal, external := RelocBuild.RelocBuild(relocs, ctx);
      secs := secs + [s.section.(internal := internal, external := external)];
    }
  }

  lemma BuiltIs(elf: ElfFile, o: Output, i: nat)
    requires elf.Parsed() && o.ctx.symbols == elf.symbols && i < |o.sections| && i < |o.source.secs|
    requires TablesBuilt(elf, o.ctx, o.sections[i], o.source.secs[i])
    ensures SectionBuilt(elf, o, i)
  {
    hide Table;
  }

  // ----- What the rest of the tool chain may rely on

  /** Non-local symbols as a linker leaves them: different names, none empty, each inside its section. */
  ghost predicate GoodSymbols(elf: ElfFile) {
    && (forall i :: 0 <= i < |elf.symbols| && elf.symbols[i].bind != STB_LOCAL ==> elf.symbols[i].name != [])
    && (forall i, j ::
          (0 <= i < j < |elf.symbols| && elf.symbols[i].bind != STB_LOCAL && elf.symbols[j].bind != STB_LOCAL)
          ==> elf.symbols[i].name != elf.symbols[j].name)
    && (forall i :: 0 <= i < |elf.symbols| ==>
          var s := elf.symbols[i];
          1 <= s.section < |elf.sections| && elf.sections[s.section].alloc ==>
            s.value <= elf.sections[s.section].size)
  }

  /** The header leads to the first section of that name, if it is loaded, and otherwise to section 0. */
  lemma HeaderSectionIs(elf: ElfFile, o: Output, name: Name, id: U16, s: U16)
    requires elf.Parsed() && Built(elf, o) && Identifies(elf, o.ctx.secMap, name, id)
    requires FirstNamed(elf.sections, name, s)
    ensures id < |o.sections|
    ensures id == 0 <==> s == 0 || !elf.sections[s].alloc
    ensures id > 0 ==> Describes(elf.sections, s, o.sections[id])
  {
    hide Rejected, MapsImports, SortByName, SectionBuilt, HeaderSections, Describes, Ascii;
    var s': U16 :| FirstNamed(elf.sections, name, s') && id == OutputIndex(o.ctx.secMap, s');
    FirstNamedIsUnique(elf.sections, name, s, s');
    if s > 0 {
      MapIsExact(elf.sections, o.ctx.secMap, o.sections, s, s);
    }
  }

  /** The output section that ELF section s becomes. */
  lemma BuiltSection(elf: ElfFile, o: Output, s: U16)
    requires elf.Parsed() && Built(elf, o) && 1 <= s < |elf.sections| && elf.sections[s].alloc
    ensures
      var i, sec := OutputIndex(o.ctx.secMap, s), elf.sections[s];
      && 1 <= i < |o.sections| == |o.source.secs|
      && o.source.secs[i].size == sec.size && o.source.secs[i].align == sec.align
      && (sec.nobits ==> o.source.secs[i].data == None) && (!sec.nobits ==> o.source.secs[i].data == sec.data)
  {
    hide Rejected, MapsImports, ImportsOf, ExportsOf, SortByName, Table, HeaderSections, FirstNamed, OutputIndex;
    MapIsExact(elf.sections, o.ctx.secMap, o.sections, s, s);
    assert SectionBuilt(elf, o, OutputIndex(o.ctx.secMap, s));
  }

  /** Section 0 of the output is the absolute one. */
  lemma BuiltHasDummy(elf: ElfFile, o: Output)
    requires elf.Parsed() && Built(elf, o)
    ensures HasDummy(o.source) && 1 <= |o.source.secs|
  {
    hide Rejected, MapsImports, ImportsOf, ExportsOf, SortByName, Table;
    assert SectionBuilt(elf, o, 0);
  }

  lemma ExportOrigin(elf: ElfFile, o: Output, e: nat) returns (i: nat)
    requires elf.Parsed() && Built(elf, o) && e < |o.source.exports|
    ensures i < |elf.symbols| && IsExport(elf.symbols[i])
    ensures o.source.exports[e] == ExportOf(i, elf.symbols[i], o.ctx.secMap)
  {
    hide Rejected, MapsImports, SortByName, SectionBuilt, Maps, IsExport;
    var all := ExportsOf(elf.symbols, o.ctx.secMap, |elf.symbols|);
    SortKeepsMembers(all, o.source.exports[e]);
    var p :| 0 <= p < |all| && all[p] == o.source.exports[e];
    i := all[p].srcSymbol;
  }

  lemma ImportOrigin(elf: ElfFile, o: Output, e: nat) returns (i: nat)
    requires elf.Parsed() && Built(elf, o) && e < |o.source.imports|
    ensures i < |elf.symbols| && IsImport(elf.symbols[i])
    ensures o.source.imports[e] == ImportOf(i, elf.symbols[i])
  {
    hide Rejected, MapsImports, SortByName, SectionBuilt, Maps, IsImport;
    var all := ImportsOf(elf.symbols, |elf.symbols|);
    SortKeepsMembers(all, o.source.imports[e]);
    var p :| 0 <= p < |all| && all[p] == o.source.imports[e];
    i := all[p].srcSymbol;
  }

  /** An undefined symbol that is not local is in the import table under its name, and weak iff its type is 2. */
  lemma BuiltImport(elf: ElfFile, o: Output, i: nat) returns (k: nat)
    requires elf.Parsed() && Built(elf, o) && i < |elf.symbols|
    requires elf.symbols[i].bind != 0 && elf.symbols[i].section == 0
    ensures k < |o.source.imports| && o.source.imports[k].name == elf.symbols[i].name
    ensures o.source.imports[k].weak <==> elf.symbols[i].kind == 2
    ensures o.source.imports[k].section == 0 && o.source.imports[k].addr == elf.symbols[i].value
  {
    hide Rejected, MapsImports, SortByName, SectionBuilt, Maps, ExportsOf, HeaderSections;
    var x := ImportOf(i, elf.symbols[i]);
    assert IsImport(elf.symbols[i]);
    SortKeepsMembers(ImportsOf(elf.symbols, |elf.symbols|), x);
    k :| 0 <= k < |o.source.imports| && o.source.imports[k] == x;
  }

  /** The import table has the names of the undefined symbols, no more and no less; so has the other of the defined. */
  lemma TablesAreExact(elf: ElfFile, o: Output, name: Name)
    requires elf.Parsed() && Built(elf, o)
    ensures (exists k :: 0 <= k < |o.source.imports| && o.source.imports[k].name == name)
            <==> exists i :: 0 <= i < |elf.symbols| && Imported(elf.symbols[i]) && elf.symbols[i].name == name
    ensures (exists k :: 0 <= k < |o.source.exports| && o.source.exports[k].name == name)
            <==> exists i :: 0 <= i < |elf.symbols| && Exported(elf.symbols[i]) && elf.symbols[i].name == name
  {
    hide Built, Ascii;
    if k :| 0 <= k < |o.source.imports| && o.source.imports[k].name == name {
      var i := ImportOrigin(elf, o, k);
    }
    if i :| 0 <= i < |elf.symbols| && Imported(elf.symbols[i]) && elf.symbols[i].name == name {
      var k := BuiltImport(elf, o, i);
    }
    if k :| 0 <= k < |o.source.exports| && o.source.exports[k].name == name {
      var i := ExportOrigin(elf, o, k);
    }
    if i :| 0 <= i < |elf.symbols| && Exported(elf.symbols[i]) && elf.symbols[i].name == name {
      var k := BuiltExport(elf, o, i);
    }
  }

  /** An exported symbol's entry has its name, its value and the output section of its section. */
  lemma BuiltExport(elf: ElfFile, o: Output, i: nat) returns (e: nat)
    requires elf.Parsed() && Built(elf, o) && i < |elf.symbols| && Exported(elf.symbols[i])
    ensures e < |o.source.exports| && o.source.exports[e].name == elf.symbols[i].name
    ensures o.source.exports[e].section == OutputIndex(o.ctx.secMap, elf.symbols[i].section)
    ensures o.source.exports[e].addr == elf.symbols[i].value && !o.source.exports[e].weak
  {
    hide Maps, Rejected, MapsImports, SortByName, SectionBuilt, HeaderSections, ImportsOf, Ascii;
    var x := ExportOf(i, elf.symbols[i], o.ctx.secMap);
    SortKeepsMembers(ExportsOf(elf.symbols, o.ctx.secMap, |elf.symbols|), x);
    e :| 0 <= e < |o.source.exports| && o.source.exports[e] == x;
  }

  /** The relocations of a loaded section are those in the first section of its name with ".rel" in front. */
  lemma RelocsOfSection(elf: ElfFile, o: Output, s: U16, r: U16)
    requires elf.Parsed() && Built(elf, o)
    requires 1 <= s < |elf.sections| && elf.sections[s].alloc && !elf.sections[s].nobits
    requires FirstNamed(elf.sections, [0x2e, 0x72, 0x65, 0x6c] + elf.sections[s].name, r)
    ensures OutputIndex(o.ctx.secMap, s) < |o.sections|
    ensures RelocsOf(elf, o, OutputIndex(o.ctx.secMap, s)) == if r == 0 then [] else elf.relocs[r]
  {
    hide Rejected, MapsImports, ImportsOf, ExportsOf, SortByName, Table, HeaderSections, SectionBuilt, OutputIndex;
    MapIsExact(elf.sections, o.ctx.secMap, o.sections, s, s);
    assert REL_PREFIX == [0x2e, 0x72, 0x65, 0x6c];
    var c := o.sections[OutputIndex(o.ctx.secMap, s)];
    FirstNamedIsUnique(elf.sections, REL_PREFIX + elf.sections[s].name, r, c.relocs);
  }

  /** Every export is in an output section, and an absolute one is not NULL: the tool rejected those. */
  lemma BuiltExports(elf: ElfFile, o: Output, e: nat)
    requires elf.Parsed() && Built(elf, o) && e < |o.source.exports|
    ensures var s := o.source.exports[e]; s.section < |o.source.secs| && (s.section == 0 ==> s.addr != 0)
  {
    hide MapsImports, ImportsOf, ExportsOf, SortByName, SectionBuilt, Describes, Ascii;
    var i := ExportOrigin(elf, o, e);
    assert !Rejected(elf.symbols[i], o.ctx.secMap);
  }

  /** An export does not point past its section. */
  lemma BuiltExportInside(elf: ElfFile, o: Output, e: nat)
    requires elf.Parsed() && Built(elf, o) && GoodSymbols(elf) && e < |o.source.exports|
    ensures var s := o.source.exports[e];
            s.section < |o.source.secs| && (s.section > 0 ==> s.addr <= o.source.secs[s.section].size)
  {
    hide MapsImports, ImportsOf, ExportsOf, SortByName, Rejected, Ascii, Table, FirstNamed;
    var i := ExportOrigin(elf, o, e);
    BuiltExports(elf, o, e);
    var s := o.source.exports[e];
    if s.section > 0 {
      var k := elf.symbols[i].section;
      assert k in o.ctx.secMap && k != SHN_UNDEF;
      assert Describes(elf.sections, k, o.sections[s.section]);
      assert SectionBuilt(elf, o, s.section);
    }
  }

  lemma UniqueImports(elf: ElfFile)
    requires GoodSymbols(elf)
    ensures UniqueNames(ImportsOf(elf.symbols, |elf.symbols|))
  {
    var r := ImportsOf(elf.symbols, |elf.symbols|);
    forall p, q | 0 <= p < q < |r|
      ensures r[p].name != r[q].name
    {
      assert r[p].srcSymbol < r[q].srcSymbol;
    }
  }

  lemma UniqueExports(elf: ElfFile, secMap: SectionMap)
    requires GoodSymbols(elf)
    ensures UniqueNames(ExportsOf(elf.symbols, secMap, |elf.symbols|))
  {
    hide Ascii;
    var r := ExportsOf(elf.symbols, secMap, |elf.symbols|);
    forall p, q | 0 <= p < q < |r|
      ensures r[p].name != r[q].name
    {
      assert r[p].srcSymbol < r[q].srcSymbol;
    }
  }

  /** Both tables are strictly sorted, and no name in them is empty. */
  lemma BuiltTables(elf: ElfFile, o: Output)
    requires elf.Parsed() && Built(elf, o) && GoodSymbols(elf)
    ensures StrictlyInOrder(o.source.imports) && StrictlyInOrder(o.source.exports)
    ensures forall e :: 0 <= e < |o.source.imports| ==> o.source.imports[e].name != []
    ensures forall e :: 0 <= e < |o.source.exports| ==> o.source.exports[e].name != []
  {
    hide Rejected, MapsImports, SortByName, SectionBuilt, Maps, ImportsOf, ExportsOf, UniqueNames, StrictlyInOrder,
         Ascii;
    UniqueImports(elf);
    UniqueExports(elf, o.ctx.secMap);
    SortedStrictly(ImportsOf(elf.symbols, |elf.symbols|));
    SortedStrictly(ExportsOf(elf.symbols, o.ctx.secMap, |elf.symbols|));
    forall e | 0 <= e < |o.source.imports|
      ensures o.source.imports[e].name != []
    {
      var i := ImportOrigin(elf, o, e);
    }
    forall e | 0 <= e < |o.source.exports|
      ensures o.source.exports[e].name != []
    {
      var i := ExportOrigin(elf, o, e);
    }
  }
}
