/**
 Which symbols the main binary must supply: the extern list of tools/make_uso_externs.cpp (lines 169-208), and
 why supplying them lets every USO link.
 */
module Externs {
  import opened Words
  import opened CStrings
  import opened SymbolCodec
  import S = Symbols
  import Lifecycle

  /** uso_info: what the tool read of one USO. */
  datatype UsoInfo = UsoInfo(imports: seq<UsoSymbol>, exports: seq<UsoSymbol>)

  predicate HasName(list: seq<UsoSymbol>, name: Name) {
    exists e :: 0 <= e < |list| && list[e].name == name
  }

  /** Names never decrease, as sym_sort left them. */
  predicate NamesInOrder(list: seq<UsoSymbol>) {
    forall i, j :: 0 <= i < j < |list| ==> !Less(list[j].name, list[i].name)
  }

  // ----- std::binary_search

  lemma AllBelow(list: seq<UsoSymbol>, mid: nat, name: Name)
    requires NamesInOrder(list) && mid < |list| && Less(list[mid].name, name)
    ensures forall i :: 0 <= i <= mid ==> Less(list[i].name, name)
  {
    forall i | 0 <= i < mid
      ensures Less(list[i].name, name)
    {
      LessTotal(list[i].name, list[mid].name);
      if Less(list[i].name, list[mid].name) {
        LessTransitive(list[i].name, list[mid].name, name);
      }
    }
  }

  lemma NoneBelow(list: seq<UsoSymbol>, mid: nat, name: Name)
    requires NamesInOrder(list) && mid < |list| && !Less(list[mid].name, name)
    ensures forall i :: mid <= i < |list| ==> !Less(list[i].name, name)
  {
    forall i | mid < i < |list|
      ensures !Less(list[i].name, name)
    {
      LessTotal(list[mid].name, list[i].name);
      if Less(list[i].name, name) && Less(list[mid].name, list[i].name) {
        LessTransitive(list[mid].name, list[i].name, name);
      }
    }
  }

  /** std::binary_search with uso_sym_compare: lower_bound, then one comparison. */
  method BinarySearch(list: seq<UsoSymbol>, name: Name) returns (found: bool)
    requires NamesInOrder(list)
    ensures found == HasName(list, name)
  {
    var first, count := 0, |list|;
    while count > 0
      invariant 0 <= first <= first + count <= |list|
      invariant forall i :: 0 <= i < first ==> Less(list[i].name, name)
      invariant forall i :: first + count <= i < |list| ==> !Less(list[i].name, name)
    {
      hide Less;
      var half := count / 2;
      var mid := first + half;
      if Less(list[mid].name, name) {
        AllBelow(list, mid, name);
        first, count := mid + 1, count - half - 1;
      } else {
        NoneBelow(list, mid, name);
        count := half;
      }
    }
    found := first < |list| && !Less(name, list[first].name);
    FoundAtBound(list, name, first);
  }

  lemma FoundAtBound(list: seq<UsoSymbol>, name: Name, first: nat)
    requires NamesInOrder(list) && first <= |list|
    requires forall i :: 0 <= i < first ==> Less(list[i].name, name)
    requires forall i :: first <= i < |list| ==> !Less(list[i].name, name)
    ensures HasName(list, name) <==> first < |list| && !Less(name, list[first].name)
  {
    hide Less;
    LessIrreflexive(name);
    if HasName(list, name) {
      var e :| 0 <= e < |list| && list[e].name == name;
      assert first <= e;
    }
    if first < |list| {
      LessTotal(name, list[first].name);
    }
  }

  // ----- The list

  /** No other USO exports the name. */
  predicate IsExtern(usos: seq<UsoInfo>, id: nat, name: Name) {
    forall k :: 0 <= k < |usos| && k != id ==> !HasName(usos[k].exports, name)
  }

  predicate ExportsInOrder(usos: seq<UsoInfo>) {
    forall k :: 0 <= k < |usos| ==> NamesInOrder(usos[k].exports)
  }

  /** uso_sym_is_extern */
  method UsoSymIsExtern(usos: seq<UsoInfo>, id: nat, name: Name) returns (isExtern: bool)
    requires ExportsInOrder(usos)
    ensures isExtern == IsExtern(usos, id, name)
  {
    hide NamesInOrder, HasName;
    for i := 0 to |usos|
      invariant forall k :: 0 <= k < i && k != id ==> !HasName(usos[k].exports, name)
    {
      if i != id {
        var found := BinarySearch(usos[i].exports, name);
        if found {
          return false;
        }
      }
    }
    isExtern := true;
  }

  /** generate_uso_extern_list: imports that no other USO exports, USO by USO. A name may be listed repeatedly. */
  method GenerateUsoExternList(usos: seq<UsoInfo>) returns (externs: seq<Name>)
    requires ExportsInOrder(usos)
    ensures forall name :: name in externs <==>
              exists i :: 0 <= i < |usos| && HasName(usos[i].imports, name) && IsExtern(usos, i, name)
    ensures forall name :: name in externs <==> ImportedOnly(usos, name)
    ensures externs == ListOf(usos, |usos|)
  {
    hide NamesInOrder, ExportsInOrder, HasName, IsExtern, ImportedOnly, Filtered;
    externs := [];
    for i := 0 to |usos|
      invariant externs == ListOf(usos, i)
      invariant forall name :: name in externs <==> NeededBy(usos, i, 0, name)
    {
      var imports := usos[i].imports;
      NothingFiltered(usos, i);
      for j := 0 to |imports|
        invariant externs == ListOf(usos, i) + Filtered(usos, i, j)
        invariant forall name :: name in externs <==> NeededBy(usos, i, j, name)
      {
        NeededStep(usos, i, j);
        OneMoreFiltered(usos, i, j);
        var isExtern := UsoSymIsExtern(usos, i, imports[j].name);
        if isExtern {
          externs := externs + [imports[j].name];
        }
      }
      NeededNext(usos, i);
    }
    NeededAll(usos);
    forall name
      ensures name in externs <==> ImportedOnly(usos, name)
    {
      NeededIs(usos, name);
    }
  }

  /** The extern ones among the first j imports of USO i, in order. */
  function Filtered(usos: seq<UsoInfo>, i: nat, j: nat): seq<Name>
    requires i < |usos| && j <= |usos[i].imports|
  {
    if j == 0 then []
    else
      var name := usos[i].imports[j - 1].name;
      Filtered(usos, i, j - 1) + if NobodyElseExports(usos, i, name) then [name] else []
  }

  /** USO after USO. */
  function ListOf(usos: seq<UsoInfo>, n: nat): seq<Name>
    requires n <= |usos|
  {
    if n == 0 then [] else ListOf(usos, n - 1) + Filtered(usos, n - 1, |usos[n - 1].imports|)
  }

  lemma NothingFiltered(usos: seq<UsoInfo>, i: nat)
    requires i < |usos|
    ensures Filtered(usos, i, 0) == []
  {
  }

  lemma OneMoreFiltered(usos: seq<UsoInfo>, i: nat, j: nat)
    requires i < |usos| && j < |usos[i].imports|
    ensures var name := usos[i].imports[j].name;
            Filtered(usos, i, j + 1) == Filtered(usos, i, j) + if IsExtern(usos, i, name) then [name] else []
  {
  }

  /** No entry of any other USO's export table has the name. */
  predicate NobodyElseExports(usos: seq<UsoInfo>, i: nat, name: Name) {
    forall k, e :: 0 <= k < |usos| && k != i && 0 <= e < |usos[k].exports| ==> usos[k].exports[e].name != name
  }

  /** Some USO has an import entry of that name, and no other USO an export entry. */
  predicate ImportedOnly(usos: seq<UsoInfo>, name: Name) {
    exists i, e :: 0 <= i < |usos| && 0 <= e < |usos[i].imports| && usos[i].imports[e].name == name
                   && NobodyElseExports(usos, i, name)
  }

  lemma NeededIs(usos: seq<UsoInfo>, name: Name)
    ensures (exists i :: 0 <= i < |usos| && HasName(usos[i].imports, name) && IsExtern(usos, i, name))
            <==> ImportedOnly(usos, name)
  {
    forall i | 0 <= i < |usos|
      ensures IsExtern(usos, i, name) <==> NobodyElseExports(usos, i, name)
    {
    }
  }

  /** Wanted by one of the first i USOs, or by one of the first j imports of USO i. */
  ghost predicate NeededBy(usos: seq<UsoInfo>, i: nat, j: nat, name: Name) {
    || (exists k :: 0 <= k < i && k < |usos| && HasName(usos[k].imports, name) && IsExtern(usos, k, name))
    || (i < |usos| && IsExtern(usos, i, name)
        && exists e :: 0 <= e < j && e < |usos[i].imports| && usos[i].imports[e].name == name)
  }

  lemma NeededStep(usos: seq<UsoInfo>, i: nat, j: nat)
    requires i < |usos| && j < |usos[i].imports|
    ensures forall name :: NeededBy(usos, i, j + 1, name) <==>
              NeededBy(usos, i, j, name) || (IsExtern(usos, i, name) && name == usos[i].imports[j].name)
  {
    hide IsExtern, HasName;
  }

  lemma NeededNext(usos: seq<UsoInfo>, i: nat)
    requires i < |usos|
    ensures forall name :: NeededBy(usos, i, |usos[i].imports|, name) <==> NeededBy(usos, i + 1, 0, name)
  {
    hide IsExtern;
  }

  lemma NeededAll(usos: seq<UsoInfo>)
    ensures forall name :: !NeededBy(usos, 0, 0, name)
    ensures forall name :: NeededBy(usos, |usos|, 0, name) <==>
              exists i :: 0 <= i < |usos| && HasName(usos[i].imports, name) && IsExtern(usos, i, name)
  {
    hide IsExtern, HasName;
  }

  // ----- Sufficiency

  /** A loaded module in which every export of the USO is found. */
  ghost predicate Provides(m: Lifecycle.Module, u: UsoInfo) {
    forall e :: 0 <= e < |u.exports| ==> S.LookupIn(m.exports, u.exports[e].name) != 0
  }

  /** A loaded module that offers no name but exports of the USO. */
  ghost predicate ComesFrom(m: Lifecycle.Module, u: UsoInfo) {
    forall name :: S.LookupIn(m.exports, name) != 0 ==> HasName(u.exports, name)
  }

  /** Some USO other than `id` that exports the name is loaded. */
  ghost predicate ExporterLoaded(usos: seq<UsoInfo>, id: nat, mods: seq<Lifecycle.Module>, name: Name) {
    exists k, p :: 0 <= k < |usos| && k != id && 0 <= p < |mods| && HasName(usos[k].exports, name)
                   && Provides(mods[p], usos[k])
  }

  /** The module is one of the other USOs. */
  ghost predicate FromOther(usos: seq<UsoInfo>, id: nat, m: Lifecycle.Module) {
    exists k :: 0 <= k < |usos| && k != id && ComesFrom(m, usos[k])
  }

  /** Every loaded module is one of the other USOs. */
  ghost predicate OthersLoaded(usos: seq<UsoInfo>, id: nat, mods: seq<Lifecycle.Module>) {
    forall p :: 0 <= p < |mods| ==> FromOther(usos, id, mods[p])
  }

  /** With an exporter loaded, a name that is not extern resolves. */
  lemma ExporterResolves(usos: seq<UsoInfo>, id: nat, mods: seq<Lifecycle.Module>, global: Option<S.SymbolTable>,
                         name: Name)
    requires ExporterLoaded(usos, id, mods, name)
    ensures Lifecycle.Resolve(mods, global, name) != 0
  {
    var k, p :| 0 <= k < |usos| && k != id && 0 <= p < |mods| && HasName(usos[k].exports, name)
                && Provides(mods[p], usos[k]);
    var e :| 0 <= e < |usos[k].exports| && usos[k].exports[e].name == name;
    assert S.LookupIn(mods[p].exports, usos[k].exports[e].name) != 0;
  }

  /** An extern name is found nowhere but in the global table. */
  lemma ExternNeedsGlobal(usos: seq<UsoInfo>, id: nat, mods: seq<Lifecycle.Module>, global: Option<S.SymbolTable>,
                          name: Name)
    requires OthersLoaded(usos, id, mods) && IsExtern(usos, id, name)
    ensures Lifecycle.Resolve(mods, global, name) == S.LookupIn(global, name)
  {
    hide HasName, S.Lookup;
    forall p | 0 <= p < |mods|
      ensures S.LookupIn(mods[p].exports, name) == 0
    {
      assert FromOther(usos, id, mods[p]);
      var k :| 0 <= k < |usos| && k != id && ComesFrom(mods[p], usos[k]);
    }
    Lifecycle.ResolveIsFirstMatch(mods, global, name, |mods|);
  }

  /** The import table of USO `id`, entry by entry under the names the tool read. */
  predicate SameNames(imports: S.SymbolTable, list: seq<UsoSymbol>) {
    |imports| == |list| && forall j :: 0 <= j < |list| ==> imports[j].name == list[j].name
  }

  /**
   The closure is exact: with the exporters of its other imports loaded, a USO links if and only if the global
   table has every extern name that it imports and that is not weak.
   */
  lemma ClosureIsExact(usos: seq<UsoInfo>, id: nat, imports: S.SymbolTable, mods: seq<Lifecycle.Module>,
                       global: Option<S.SymbolTable>)
    requires id < |usos| && SameNames(imports, usos[id].imports) && OthersLoaded(usos, id, mods)
    requires forall j :: 0 <= j < |imports| && !IsExtern(usos, id, imports[j].name) ==>
               ExporterLoaded(usos, id, mods, imports[j].name)
    ensures Lifecycle.Links(imports, mods, global) <==>
            forall j :: 0 <= j < |imports| && IsExtern(usos, id, imports[j].name) && !imports[j].IsWeak() ==>
              S.LookupIn(global, imports[j].name) != 0
  {
    hide IsExtern, ExporterLoaded, OthersLoaded, S.Lookup, Lifecycle.Resolve;
    forall j | 0 <= j < |imports|
      ensures if IsExtern(usos, id, imports[j].name)
              then Lifecycle.Resolve(mods, global, imports[j].name) == S.LookupIn(global, imports[j].name)
              else Lifecycle.Resolve(mods, global, imports[j].name) != 0
    {
      if IsExtern(usos, id, imports[j].name) {
        ExternNeedsGlobal(usos, id, mods, global, imports[j].name);
      } else {
        ExporterResolves(usos, id, mods, global, imports[j].name);
      }
    }
  }

  /**
   The closure suffices: a global table with every name on the extern list, and the exporters of the other
   imports loaded, leave no import unresolved, weak or not. More modules may be loaded besides.
   */
  lemma ExternsSuffice(usos: seq<UsoInfo>, externs: seq<Name>, id: nat, imports: S.SymbolTable,
                       mods: seq<Lifecycle.Module>, global: Option<S.SymbolTable>)
    requires forall i, name :: 0 <= i < |usos| && HasName(usos[i].imports, name) && IsExtern(usos, i, name) ==>
               name in externs
    requires forall name :: name in externs ==> S.LookupIn(global, name) != 0
    requires id < |usos| && SameNames(imports, usos[id].imports)
    requires forall j :: 0 <= j < |imports| && !IsExtern(usos, id, imports[j].name) ==>
               ExporterLoaded(usos, id, mods, imports[j].name)
    ensures Lifecycle.Links(imports, mods, global)
    ensures forall j :: 0 <= j < |imports| ==> Lifecycle.Resolve(mods, global, imports[j].name) != 0
  {
    hide IsExtern, ExporterLoaded, S.Lookup, Lifecycle.Resolve;
    forall j | 0 <= j < |imports|
      ensures Lifecycle.Resolve(mods, global, imports[j].name) != 0
    {
      var name := imports[j].name;
      if IsExtern(usos, id, name) {
        assert HasName(usos[id].imports, name);
        GlobalResolves(mods, global, name);
      } else {
        ExporterResolves(usos, id, mods, global, name);
      }
    }
  }

  lemma GlobalResolves(mods: seq<Lifecycle.Module>, global: Option<S.SymbolTable>, name: Name)
    requires S.LookupIn(global, name) != 0
    ensures Lifecycle.Resolve(mods, global, name) != 0
  {
    hide S.Lookup;
  }
}
