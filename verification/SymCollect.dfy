/** Collecting the import and export symbols of an ELF file: sym_collect of tools/elf2uso.cpp. */
module SymCollect {
  import opened Words
  import opened CStrings
  import opened ElfInput

  function Ascii(s: string): Name {
    seq(|s|, i requires 0 <= i < |s| => if s[i] < 0x80 as char then s[i] as int else 0)
  }

  /** One byte per character. */
  lemma AsciiIs(s: string)
    requires forall i :: 0 <= i < |s| ==> s[i] < 0x80 as char
    ensures |Ascii(s)| == |s| && forall i :: 0 <= i < |s| ==> Ascii(s)[i] == s[i] as int
  {
  }

  const PROHIBITED_IMPORTS: seq<Name> :=
    [Ascii("__dso_handle"), Ascii("_init"), Ascii("_fini"), Ascii("_prolog"), Ascii("_epilog")]

  const HIDEABLE: seq<Name> := [Ascii("__dso_handle"), Ascii("_prolog"), Ascii("_epilog")]

  /** out_section_map: ELF section index to output section; anything else falls back to section 0. */
  type SectionMap = map<U16, U16>

  function OutputIndex(secMap: SectionMap, s: U16): U16 { if s in secMap then secMap[s] else 0 }

  predicate IsImport(s: ElfSymbol) { s.bind != STB_LOCAL && s.section == SHN_UNDEF }

  predicate IsExport(s: ElfSymbol) {
    s.bind != STB_LOCAL && s.section != SHN_UNDEF && (s.name in HIDEABLE || s.other == STV_DEFAULT)
  }

  /** The symbols that make the tool give up (tools/elf2uso.cpp:176-206). */
  predicate Rejected(s: ElfSymbol, secMap: SectionMap) {
    s.bind != STB_LOCAL &&
    (|s.name| >= 32767
     || (IsImport(s) && s.name in PROHIBITED_IMPORTS)
     || (IsExport(s) && s.section !in secMap && s.value == 0))
  }

  /** The weak mark compares the symbol's type, not its binding (tools/elf2uso.cpp:190). */
  function ImportOf(i: nat, s: ElfSymbol): SymbolInfo { SymbolInfo(i, s.name, 0, s.kind == STB_WEAK, s.value) }

  function ExportOf(i: nat, s: ElfSymbol, secMap: SectionMap): SymbolInfo {
    SymbolInfo(i, s.name, OutputIndex(secMap, s.section), false, s.value)
  }

  /** The imports among the first n symbols, in ELF order. */
  function ImportsOf(symbols: seq<ElfSymbol>, n: nat): (r: seq<SymbolInfo>)
    requires n <= |symbols|
    ensures forall p :: 0 <= p < |r| ==>
              r[p].srcSymbol < n && IsImport(symbols[r[p].srcSymbol]) &&
              r[p] == ImportOf(r[p].srcSymbol, symbols[r[p].srcSymbol])
    ensures forall p, q :: 0 <= p < q < |r| ==> r[p].srcSymbol < r[q].srcSymbol
    ensures forall i :: 0 <= i < n && IsImport(symbols[i]) ==> ImportOf(i, symbols[i]) in r
  {
    if n == 0 then []
    else
      ImportsOf(symbols, n - 1) + if IsImport(symbols[n - 1]) then [ImportOf(n - 1, symbols[n - 1])] else []
  }

  /** The exports among the first n symbols, in ELF order. */
  function ExportsOf(symbols: seq<ElfSymbol>, secMap: SectionMap, n: nat): (r: seq<SymbolInfo>)
    requires n <= |symbols|
    ensures forall p :: 0 <= p < |r| ==>
              r[p].srcSymbol < n && IsExport(symbols[r[p].srcSymbol]) &&
              r[p] == ExportOf(r[p].srcSymbol, symbols[r[p].srcSymbol], secMap)
    ensures forall p, q :: 0 <= p < q < |r| ==> r[p].srcSymbol < r[q].srcSymbol
    ensures forall i :: 0 <= i < n && IsExport(symbols[i]) ==> ExportOf(i, symbols[i], secMap) in r
  {
    if n == 0 then []
    else
      ExportsOf(symbols, secMap, n - 1) +
      if IsExport(symbols[n - 1]) then [ExportOf(n - 1, symbols[n - 1], secMap)] else []
  }

  /** What the tool has after collecting, or the symbol at which it exits. */
  datatype Collection =
    | Collected(imports: seq<SymbolInfo>, exports: seq<SymbolInfo>, importMap: map<nat, nat>)
    | Exited(symbol: nat)

  /** import_sym_map: each import under its ELF symbol index. */
  ghost predicate MapsImports(importMap: map<nat, nat>, imports: seq<SymbolInfo>) {
    && (forall j :: 0 <= j < |imports| ==> imports[j].srcSymbol in importMap && importMap[imports[j].srcSymbol] == j)
    && (forall y :: y in importMap ==> importMap[y] < |imports| && imports[importMap[y]].srcSymbol == y)
  }

  method SymCollect(symbols: seq<ElfSymbol>, secMap: SectionMap) returns (c: Collection)
    ensures c.Exited? ==> c.symbol < |symbols| && Rejected(symbols[c.symbol], secMap)
                          && forall i :: 0 <= i < c.symbol ==> !Rejected(symbols[i], secMap)
    ensures c.Collected? ==>
              && (forall i :: 0 <= i < |symbols| ==> !Rejected(symbols[i], secMap))
              && c.imports == SortByName(ImportsOf(symbols, |symbols|))
              && c.exports == SortByName(ExportsOf(symbols, secMap, |symbols|))
              && MapsImports(c.importMap, c.imports)
  {
    hide Ascii, SortByName, MapsImports, ImportsOf, ExportsOf, ExportOf;
    NothingCollected(symbols, secMap);
    var imports: seq<SymbolInfo>, exports: seq<SymbolInfo> := [], [];
    for i := 0 to |symbols|
      invariant imports == ImportsOf(symbols, i) && exports == ExportsOf(symbols, secMap, i)
      invariant forall k :: 0 <= k < i ==> !Rejected(symbols[k], secMap)
    {
      OneMoreSymbol(symbols, secMap, i);
      var s := symbols[i];
      if s.bind == STB_LOCAL {
        continue;
      }
      if |s.name| >= 32767 {
        return Exited(i);
      }
      if s.section == SHN_UNDEF {
        if s.name in PROHIBITED_IMPORTS {
          return Exited(i);
        }
        imports := imports + [SymbolInfo(i, s.name, 0, s.kind == STB_WEAK, s.value)];
      } else if s.name in HIDEABLE || s.other == STV_DEFAULT {
        var entry := ExportEntry(s, i, secMap);
        if entry == None {
          return Exited(i);
        }
        exports := exports + [entry.value];
      }
    }
    SourcesStayUnique(imports);
    var importMap := MapImports(SortByName(imports));
    c := Collected(SortByName(imports), SortByName(exports), importMap);
  }

  lemma NothingCollected(symbols: seq<ElfSymbol>, secMap: SectionMap)
    ensures ImportsOf(symbols, 0) == [] && ExportsOf(symbols, secMap, 0) == []
  {
  }

  lemma OneMoreSymbol(symbols: seq<ElfSymbol>, secMap: SectionMap, i: nat)
    requires i < |symbols|
    ensures ImportsOf(symbols, i + 1)
         == ImportsOf(symbols, i) + if IsImport(symbols[i]) then [ImportOf(i, symbols[i])] else []
    ensures ExportsOf(symbols, secMap, i + 1)
         == ExportsOf(symbols, secMap, i) + if IsExport(symbols[i]) then [ExportOf(i, symbols[i], secMap)] else []
  {
    hide IsImport, IsExport, ImportOf, ExportOf;
  }

  /** An export's entry; None for an absolute symbol at NULL (tools/elf2uso.cpp:200-213). */
  method ExportEntry(s: ElfSymbol, i: nat, secMap: SectionMap) returns (entry: Option<SymbolInfo>)
    ensures entry == if s.section !in secMap && s.value == 0 then None else Some(ExportOf(i, s, secMap))
  {
    var section: U16 := 0;
    if s.section !in secMap {
      if s.value == 0 {
        return None;
      }
    } else {
      section := secMap[s.section];
    }
    entry := Some(SymbolInfo(i, s.name, section, false, s.value));
  }

  /** Every source index occurs once. */
  predicate UniqueSources(s: seq<SymbolInfo>) {
    forall p, q :: 0 <= p < q < |s| ==> s[p].srcSymbol != s[q].srcSymbol
  }

  method MapImports(imports: seq<SymbolInfo>) returns (importMap: map<nat, nat>)
    requires UniqueSources(imports)
    ensures MapsImports(importMap, imports)
  {
    importMap := map[];
    for i := 0 to |imports|
      invariant forall j :: 0 <= j < i ==> imports[j].srcSymbol in importMap && importMap[imports[j].srcSymbol] == j
      invariant forall y :: y in importMap ==> importMap[y] < i && imports[importMap[y]].srcSymbol == y
    {
      importMap := importMap[imports[i].srcSymbol := i];
    }
  }

  lemma SortKeepsMembers(s: seq<SymbolInfo>, x: SymbolInfo)
    ensures x in SortByName(s) <==> x in s
  {
    SortPermutes(s);
    hide SortByName;
    assert x in SortByName(s) <==> x in multiset(SortByName(s));
    assert x in s <==> x in multiset(s);
  }

  lemma SourcesStayUnique(s: seq<SymbolInfo>)
    requires UniqueSources(s)
    ensures UniqueSources(SortByName(s))
  {
    hide SortByName;
    var r := SortByName(s);
    SortPermutes(s);
    forall p, q | 0 <= p < q < |r|
      ensures r[p].srcSymbol != r[q].srcSymbol
    {
      SortKeepsMembers(s, r[p]);
      SortKeepsMembers(s, r[q]);
      SameSource(s, r, p, q);
    }
  }

  lemma SameSource(s: seq<SymbolInfo>, r: seq<SymbolInfo>, p: nat, q: nat)
    requires UniqueSources(s) && multiset(r) == multiset(s) && p < q < |r|
    requires r[p] in s && r[q] in s
    ensures r[p].srcSymbol != r[q].srcSymbol
  {
    var a :| 0 <= a < |s| && s[a] == r[p];
    OneSource(s, a);
    if r[p] == r[q] {
      Twice(r, p, q);
    }
  }

  lemma OneSource(s: seq<SymbolInfo>, a: nat)
    requires UniqueSources(s) && a < |s|
    ensures multiset(s)[s[a]] == 1
  {
    assert s == s[..a] + [s[a]] + s[a + 1..];
    assert s[a] !in s[..a] && s[a] !in s[a + 1..];
  }
}
