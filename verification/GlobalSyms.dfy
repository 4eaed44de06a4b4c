/** The main binary's symbol table: sym_collect of tools/make_global_syms.cpp. */
module GlobalSyms {
  import opened Words
  import opened CStrings
  import opened OutFile
  import opened ElfInput
  import opened SymCollect
  import opened SymbolCodec
  import S = Symbols

  const UNEXPORTED: seq<Name> :=
    [Ascii("__dso_handle"), Ascii("_init"), Ascii("_fini"), Ascii("__kseg0_start"), Ascii("__libdragon_text_start"),
     Ascii("__text_start"), Ascii("__text_end"), Ascii("__EH_FRAME_BEGIN__"), Ascii("__CTOR_LIST__"),
     Ascii("__CTOR_END__"), Ascii("__data_start"), Ascii("_gp"), Ascii("__data_end"), Ascii("__bss_start"),
     Ascii("__bss_end"), Ascii("__rom_end"), Ascii("end")]

  /** A defined symbol at address 0 makes the tool exit. */
  predicate Fatal(s: ElfSymbol) { s.bind != STB_LOCAL && s.section != SHN_UNDEF && s.value == 0 }

  /** Undefined symbols with a value are kept; only undefined ones at 0 are skipped. */
  predicate IsGlobal(s: ElfSymbol) { s.bind != STB_LOCAL && s.value != 0 && s.name !in UNEXPORTED }

  function GlobalOf(i: nat, s: ElfSymbol): SymbolInfo { SymbolInfo(i, s.name, 0, false, s.value) }

  function GlobalsOf(symbols: seq<ElfSymbol>, n: nat): (r: seq<SymbolInfo>)
    requires n <= |symbols|
    ensures forall p :: 0 <= p < |r| ==>
              r[p].srcSymbol < n && IsGlobal(symbols[r[p].srcSymbol]) &&
              r[p] == GlobalOf(r[p].srcSymbol, symbols[r[p].srcSymbol])
    ensures forall i :: 0 <= i < n && IsGlobal(symbols[i]) ==> GlobalOf(i, symbols[i]) in r
  {
    if n == 0 then []
    else GlobalsOf(symbols, n - 1) + if IsGlobal(symbols[n - 1]) then [GlobalOf(n - 1, symbols[n - 1])] else []
  }

  /** sym_collect. Names of 32767 bytes and more only draw a message here. */
  method CollectGlobals(symbols: seq<ElfSymbol>) returns (table: Option<seq<SymbolInfo>>)
    ensures table == None <==> exists i :: 0 <= i < |symbols| && Fatal(symbols[i])
    ensures table == None <==>
              exists i :: 0 <= i < |symbols| && symbols[i].bind != 0 && symbols[i].section != 0 && symbols[i].value == 0
    ensures table.Some? ==> table.value == SortByName(GlobalsOf(symbols, |symbols|))
    ensures table.Some? ==> forall j :: 0 <= j < |table.value| ==> FromMain(symbols, table.value[j])
    ensures table.Some? ==> forall i ::
              (0 <= i < |symbols| && symbols[i].bind != 0 && symbols[i].value != 0 && symbols[i].name !in UNEXPORTED)
              ==> HasEntry(table.value, symbols[i])
  {
    hide Ascii, SortByName, FromMain, HasEntry;
    var list: seq<SymbolInfo> := [];
    for i := 0 to |symbols|
      invariant list == GlobalsOf(symbols, i)
      invariant forall k :: 0 <= k < i ==> !Fatal(symbols[k])
    {
      var s := symbols[i];
      if s.bind == STB_LOCAL {
        continue;
      }
      if s.section != SHN_UNDEF && s.value == 0 {
        return None;
      } else if s.value == 0 {
        continue;
      }
      if s.name !in UNEXPORTED {
        list := list + [SymbolInfo(i, s.name, 0, false, s.value)];
      }
    }
    EntriesAreGlobals(symbols);
    GlobalsAreEntries(symbols);
    table := Some(SortByName(list));
  }

  /** The entry has name and address of a symbol that is not local, has an address, and is not left out. */
  predicate FromMain(symbols: seq<ElfSymbol>, e: SymbolInfo) {
    && e.section == 0 && !e.weak
    && exists i :: 0 <= i < |symbols| && symbols[i].bind != 0 && symbols[i].value != 0 && symbols[i].name !in UNEXPORTED
                   && e.name == symbols[i].name && e.addr == symbols[i].value
  }

  /** Name and address of the symbol are in the table. */
  predicate HasEntry(table: seq<SymbolInfo>, s: ElfSymbol) {
    exists j :: 0 <= j < |table| && table[j].name == s.name && table[j].addr == s.value
  }

  lemma {:induction false} GlobalsAreEntries(symbols: seq<ElfSymbol>)
    ensures forall i ::
              (0 <= i < |symbols| && symbols[i].bind != 0 && symbols[i].value != 0 && symbols[i].name !in UNEXPORTED)
              ==> HasEntry(SortByName(GlobalsOf(symbols, |symbols|)), symbols[i])
  {
    hide SortByName, Ascii, GlobalsOf;
    forall i | 0 <= i < |symbols| && symbols[i].bind != 0 && symbols[i].value != 0 && symbols[i].name !in UNEXPORTED
      ensures HasEntry(SortByName(GlobalsOf(symbols, |symbols|)), symbols[i])
    {
      var j := EntryOfSymbol(symbols, SortByName(GlobalsOf(symbols, |symbols|)), i);
    }
  }

  lemma EntriesAreGlobals(symbols: seq<ElfSymbol>)
    ensures forall j :: 0 <= j < |SortByName(GlobalsOf(symbols, |symbols|))| ==>
              FromMain(symbols, SortByName(GlobalsOf(symbols, |symbols|))[j])
  {
    hide SortByName, Ascii;
    var all := GlobalsOf(symbols, |symbols|);
    var syms := SortByName(all);
    forall j | 0 <= j < |syms|
      ensures FromMain(symbols, syms[j])
    {
      SortKeepsMembers(all, syms[j]);
      var p :| 0 <= p < |all| && all[p] == syms[j];
      assert IsGlobal(symbols[all[p].srcSymbol]);
    }
  }

  /** Whether the main binary offers a name. */
  ghost predicate Offers(symbols: seq<ElfSymbol>, name: Name) {
    exists i :: 0 <= i < |symbols| && IsGlobal(symbols[i]) && symbols[i].name == name
  }

  /** An entry of the table is a symbol of the main binary. */
  lemma EntryIsOffered(symbols: seq<ElfSymbol>, syms: seq<SymbolInfo>, j: nat)
    requires syms == SortByName(GlobalsOf(symbols, |symbols|)) && j < |syms|
    ensures Offers(symbols, syms[j].name)
  {
    hide SortByName, IsGlobal;
    var all := GlobalsOf(symbols, |symbols|);
    SortKeepsMembers(all, syms[j]);
    var p :| 0 <= p < |all| && all[p] == syms[j];
    assert symbols[all[p].srcSymbol].name == syms[j].name;
  }

  /** A symbol of the main binary is an entry of the table, with its address. */
  lemma OfferedIsEntry(symbols: seq<ElfSymbol>, syms: seq<SymbolInfo>, name: Name) returns (j: nat)
    requires syms == SortByName(GlobalsOf(symbols, |symbols|)) && Offers(symbols, name)
    ensures j < |syms| && syms[j].name == name && syms[j].addr != 0
  {
    hide SortByName, Ascii;
    var i :| 0 <= i < |symbols| && IsGlobal(symbols[i]) && symbols[i].name == name;
    var g := GlobalOf(i, symbols[i]);
    SortKeepsMembers(GlobalsOf(symbols, |symbols|), g);
    j :| 0 <= j < |syms| && syms[j] == g;
  }

  /**
   The global table as the loader finds it is sorted, finds exactly the names the main binary offers, and finds
   none of them at NULL.
   */
  lemma {:induction false} GlobalTableIsExact(symbols: seq<ElfSymbol>, syms: seq<SymbolInfo>, name: Name)
    requires UniqueNames(GlobalsOf(symbols, |symbols|))
    requires syms == SortByName(GlobalsOf(symbols, |symbols|)) && Encodable(syms)
    ensures S.Sorted(LoadedForm(syms))
    ensures S.LookupIn(Some(LoadedForm(syms)), name) != 0 <==> Offers(symbols, name)
    ensures forall i :: 0 <= i < |symbols| && symbols[i].bind != 0 && symbols[i].value != 0
                        && symbols[i].name == name && name !in UNEXPORTED ==>
              S.LookupIn(Some(LoadedForm(syms)), name) == symbols[i].value
  {
    hide SortByName, Encodable, Offers, S.Sorted, NameLen, GlobalsOf, S.Lookup, StrictlyInOrder, UniqueNames, Ascii;
    SortedStrictly(GlobalsOf(symbols, |symbols|));
    StillSorted(syms);
    var t := LoadedForm(syms);
    if S.Lookup(t, name) != 0 {
      var j := S.LookupFinds(t, name);
      EntryIsOffered(symbols, syms, j);
    }
    if Offers(symbols, name) {
      var j := OfferedIsEntry(symbols, syms, name);
      S.LookupOfEntry(t, j);
    }
    forall i | 0 <= i < |symbols| && symbols[i].bind != 0 && symbols[i].value != 0
               && symbols[i].name == name && name !in UNEXPORTED
      ensures S.Lookup(t, name) == symbols[i].value
    {
      var j := EntryOfSymbol(symbols, syms, i);
      S.LookupOfEntry(t, j);
    }
  }

  lemma {:induction false} EntryOfSymbol(symbols: seq<ElfSymbol>, syms: seq<SymbolInfo>, i: nat) returns (j: nat)
    requires syms == SortByName(GlobalsOf(symbols, |symbols|))
    requires i < |symbols| && symbols[i].bind != 0 && symbols[i].value != 0 && symbols[i].name !in UNEXPORTED
    ensures j < |syms| && syms[j].name == symbols[i].name && syms[j].addr == symbols[i].value
  {
    hide SortByName, Ascii;
    var g := GlobalOf(i, symbols[i]);
    assert IsGlobal(symbols[i]);
    SortKeepsMembers(GlobalsOf(symbols, |symbols|), g);
    j :| 0 <= j < |syms| && syms[j] == g;
  }

  /** A symbol that is not local and has an address. */
  predicate Defines(symbols: seq<ElfSymbol>, name: Name) {
    exists i :: 0 <= i < |symbols| && symbols[i].bind != STB_LOCAL && symbols[i].value != 0 && symbols[i].name == name
  }

  lemma OffersDefined(symbols: seq<ElfSymbol>, name: Name)
    ensures Offers(symbols, name) <==> Defines(symbols, name) && name !in UNEXPORTED
  {
    hide Ascii;
    if Defines(symbols, name) && name !in UNEXPORTED {
      var i :| 0 <= i < |symbols| && symbols[i].bind != STB_LOCAL && symbols[i].value != 0 && symbols[i].name == name;
      assert IsGlobal(symbols[i]);
    }
  }

  /** The file of make_global_syms: the table alone. */
  function GlobalFile(syms: seq<SymbolInfo>): seq<Byte>
    requires Encodable(syms)
  {
    Written([], TableChunks(syms, 0, |syms|))
  }

  /** global_sym_write puts the table at the start of the file, and uso_init finds it there. */
  lemma GlobalFileRoundTrip(syms: seq<SymbolInfo>)
    requires Encodable(syms)
    ensures
      var f := GlobalFile(syms);
      4 <= |f| && 4 + 12 * Word(f, 0) <= |f| && LoadedTable(f, 0) == LoadedForm(syms)
  {
    hide HasTable, TableChunks, Word, LoadedTable, LoadedForm, TableSize, NulFree;
    WrittenHasTable([], 0, syms);
    LoadingRoundTrip(GlobalFile(syms), 0, syms);
  }

  // ----- Names that get lost on the way

  /** elf2uso lets a USO import any of the excluded names but the first three. */
  lemma LostNames(k: nat)
    requires k < |UNEXPORTED|
    ensures UNEXPORTED[k] in PROHIBITED_IMPORTS <==> k < 3
  {
    var name := UNEXPORTED[k];
    if k < 3 {
      assert name == PROHIBITED_IMPORTS[k];
    } else {
      forall p | 0 <= p < |PROHIBITED_IMPORTS|
        ensures name != PROHIBITED_IMPORTS[p]
      {
        LengthsDiffer(k, p);
      }
    }
  }

  /** The lengths tell the names apart, or else the fourth letter does. */
  lemma LengthsDiffer(k: nat, p: nat)
    requires 3 <= k < |UNEXPORTED| && p < |PROHIBITED_IMPORTS|
    ensures |UNEXPORTED[k]| != |PROHIBITED_IMPORTS[p]|
            || (|UNEXPORTED[k]| == 12 && UNEXPORTED[k][3] != PROHIBITED_IMPORTS[p][3])
  {
  }
}
