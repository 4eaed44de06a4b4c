/**
 The state of the loader and its transitions on values: which modules are loaded, in load order, with their
 reference counts, and where every import was bound (src/uso.c:125-212, 435-456, 522-607).
 */
module Lifecycle {
  import opened Words
  import opened CStrings
  import opened Symbols

  /** Where an import got its pointer when its module was loaded. */
  datatype Provider = Unbound | FromGlobal | FromUso(id: nat)

  /** A loaded USO. Ids number the successful loads; the loader itself only has the handle. */
  datatype Module = Module(id: nat, name: Name, refs: U32, exports: Option<SymbolTable>,
                           imports: Option<SymbolTable>, providers: seq<Provider>) {
    function Imports(): SymbolTable { if imports.Some? then imports.value else [] }
    function Exports(): SymbolTable { if exports.Some? then exports.value else [] }
    predicate WellFormed() {
      Sorted(Imports()) && Sorted(Exports()) && |providers| == |Imports()|
    }
  }

  /** A USO file, with the run-time pointers of its exports. */
  datatype UsoFile = UsoFile(exports: Option<SymbolTable>, imports: Option<SymbolTable>) {
    function Imports(): SymbolTable { if imports.Some? then imports.value else [] }
    predicate WellFormed() {
      (exports.Some? ==> Sorted(exports.value)) && (imports.Some? ==> Sorted(imports.value))
    }
  }

  // ----- Symbol resolution

  /** Index of the first module, in load order, that exports the name at a non-NULL address. */
  function FirstExporter(mods: seq<Module>, name: Name): (k: nat)
    ensures k <= |mods|
    ensures k < |mods| ==> LookupIn(mods[k].exports, name) != 0
    ensures forall i :: 0 <= i < k ==> LookupIn(mods[i].exports, name) == 0
  {
    if mods == [] || LookupIn(mods[0].exports, name) != 0 then 0 else 1 + FirstExporter(mods[1..], name)
  }

  /** search_loaded_symbols with the global table. */
  function Resolve(mods: seq<Module>, global: Option<SymbolTable>, name: Name): U32 {
    var k := FirstExporter(mods, name);
    if k < |mods| then LookupIn(mods[k].exports, name) else LookupIn(global, name)
  }

  function ProviderOf(mods: seq<Module>, global: Option<SymbolTable>, name: Name): Provider {
    var k := FirstExporter(mods, name);
    if k < |mods| then FromUso(mods[k].id)
    else if LookupIn(global, name) != 0 then FromGlobal
    else Unbound
  }

  function ResolveTable(t: SymbolTable, mods: seq<Module>, global: Option<SymbolTable>): (r: SymbolTable)
    ensures |r| == |t|
  {
    seq(|t|, i requires 0 <= i < |t| => t[i].(ptr := Resolve(mods, global, t[i].name)))
  }

  function ProvidersOf(t: SymbolTable, mods: seq<Module>, global: Option<SymbolTable>): (r: seq<Provider>)
    ensures |r| == |t|
  {
    seq(|t|, i requires 0 <= i < |t| => ProviderOf(mods, global, t[i].name))
  }

  /** Whether linking succeeds: every unresolved import is weak. */
  predicate Links(t: SymbolTable, mods: seq<Module>, global: Option<SymbolTable>) {
    forall i :: 0 <= i < |t| ==> t[i].IsWeak() || Resolve(mods, global, t[i].name) != 0
  }

  // ----- Transitions

  /** The loader is up with these modules, or it stopped on a failed assertion or a NULL dereference. */
  datatype Loader = Up(mods: seq<Module>, nextId: nat) | Halted

  /** A call by the program; `file` is what opening the file name yields, None when there is no such file. */
  datatype Event = Open(name: Name, file: Option<UsoFile>) | Close(id: nat)

  function IndexOfName(mods: seq<Module>, name: Name): (i: nat)
    ensures i <= |mods|
    ensures i < |mods| ==> mods[i].name == name
    ensures forall k :: 0 <= k < i ==> mods[k].name != name
  {
    if mods == [] || mods[0].name == name then 0 else 1 + IndexOfName(mods[1..], name)
  }

  function IndexOfId(mods: seq<Module>, id: nat): (i: nat)
    ensures i <= |mods|
    ensures i < |mods| ==> mods[i].id == id
    ensures forall k :: 0 <= k < i ==> mods[k].id != id
  {
    if mods == [] || mods[0].id == id then 0 else 1 + IndexOfId(mods[1..], id)
  }

  function Loaded(file: UsoFile, id: nat, name: Name, mods: seq<Module>, global: Option<SymbolTable>): Module {
    match file.imports
    case None => Module(id, name, 1, file.exports, None, [])
    case Some(t) => Module(id, name, 1, file.exports, Some(ResolveTable(t, mods, global)), ProvidersOf(t, mods, global))
  }

  function OpenStep(mods: seq<Module>, nextId: nat, global: Option<SymbolTable>, name: Name, file: Option<UsoFile>)
    : seq<Module>
  {
    var i := IndexOfName(mods, name);
    if i < |mods| then mods[i := mods[i].(refs := Trunc32(mods[i].refs as int + 1))]
    else if file == None || (file.value.imports.Some? && !Links(file.value.imports.value, mods, global)) then mods
    else mods + [Loaded(file.value, nextId, name, mods, global)]
  }

  /** The three outcomes of an open. */
  lemma OpenStepIs(mods: seq<Module>, nextId: nat, global: Option<SymbolTable>, name: Name, file: Option<UsoFile>)
    ensures
      var mods' := OpenStep(mods, nextId, global, name, file);
      var i := IndexOfName(mods, name);
      && (i < |mods| ==> mods' == mods[i := mods[i].(refs := Trunc32(mods[i].refs as int + 1))])
      && (i == |mods| && file == None ==> mods' == mods)
      && (i == |mods| && file.Some? ==>
            var links := file.value.imports.Some? ==> Links(file.value.imports.value, mods, global);
            mods' == if links then mods + [Loaded(file.value, nextId, name, mods, global)] else mods)
    ensures
      var mods' := OpenStep(mods, nextId, global, name, file);
      IndexOfName(mods', name) == IndexOfName(mods, name)
  {
    hide Links, Loaded;
    var i := IndexOfName(mods, name);
    var mods' := OpenStep(mods, nextId, global, name, file);
    assert forall k :: 0 <= k < |mods| ==> mods'[k].name == mods[k].name;
    assert i == |mods| < |mods'| ==> mods'[i] == Loaded(file.value, nextId, name, mods, global);
    LoadedIs(file, nextId, name, mods, global);
  }

  lemma LoadedIs(file: Option<UsoFile>, id: nat, name: Name, mods: seq<Module>, global: Option<SymbolTable>)
    ensures file.Some? ==> Loaded(file.value, id, name, mods, global).name == name
  {
  }

  /** The unload test: no other module has a bound import named like one of our exports. */
  predicate Closeable(mods: seq<Module>, i: nat)
    requires i < |mods|
  {
    forall j :: 0 <= j < |mods| && j != i ==> !ImportsAnyOf(mods[j], mods[i].Exports())
  }

  predicate ImportsAnyOf(m: Module, exports: SymbolTable) {
    exists e :: 0 <= e < |exports| && LookupIn(m.imports, exports[e].name) != 0
  }

  /** Module j keeps module i from passing the test. */
  predicate Blocks(mods: seq<Module>, j: nat, i: nat)
    requires i < |mods| && j < |mods|
  {
    j != i && ImportsAnyOf(mods[j], mods[i].Exports())
  }

  /** The unload test reads the export table of the handle as soon as another module is loaded. */
  predicate TestFaults(mods: seq<Module>, i: nat)
    requires i < |mods|
  {
    mods[i].exports == None && |mods| > 1
  }

  function Without<T>(s: seq<T>, i: nat): seq<T>
    requires i < |s|
  {
    s[..i] + s[i + 1..]
  }

  function CloseStep(mods: seq<Module>, i: nat): seq<Module>
    requires i < |mods|
  {
    var refs := if mods[i].refs != 0 then mods[i].refs - 1 else 0;
    if refs == 0 && Closeable(mods, i) then Without(mods, i) else mods[i := mods[i].(refs := refs)]
  }

  function Step(l: Loader, global: Option<SymbolTable>, e: Event): Loader {
    match (l, e)
    case (Halted, _) => Halted
    case (Up(mods, n), Open(name, file)) => Up(OpenStep(mods, n, global, name, file), n + 1)
    case (Up(mods, n), Close(id)) =>
      var i := IndexOfId(mods, id);
      if i == |mods| || TestFaults(mods, i) then Halted else Up(CloseStep(mods, i), n)
  }

  function Run(l: Loader, global: Option<SymbolTable>, events: seq<Event>): Loader
    decreases |events|
  {
    if events == [] then l else Run(Step(l, global, events[0]), global, events[1..])
  }

  /** Every file the program opens has tables as elf2uso writes them. */
  predicate Legal(events: seq<Event>) {
    forall k :: 0 <= k < |events| && events[k].Open? && events[k].file.Some? ==> events[k].file.value.WellFormed()
  }

  // ----- The invariant of every run

  /**
   Import k of module j is bound as if its name were resolved now, among the modules before it: nothing that
   happened since it was loaded would have made a difference.
   */
  ghost predicate Current(mods: seq<Module>, global: Option<SymbolTable>, j: nat, k: nat)
    requires j < |mods| && mods[j].WellFormed() && k < |mods[j].Imports()|
  {
    var s := mods[j].Imports()[k];
    s.ptr == Resolve(mods[..j], global, s.name) && mods[j].providers[k] == ProviderOf(mods[..j], global, s.name)
  }

  /** A module before j, of that id, exports the symbol's name at the symbol's address. */
  ghost predicate ProvidedBefore(mods: seq<Module>, j: nat, id: nat, s: Symbol)
    requires j <= |mods|
  {
    exists i :: 0 <= i < j && mods[i].id == id && s.ptr == LookupIn(mods[i].exports, s.name)
  }

  /** Import k of module j points at what it was bound to, and a providing module precedes j. */
  ghost predicate Bound(mods: seq<Module>, global: Option<SymbolTable>, j: nat, k: nat)
    requires j < |mods| && mods[j].WellFormed() && k < |mods[j].Imports()|
  {
    var s := mods[j].Imports()[k];
    match mods[j].providers[k]
    case Unbound => s.ptr == 0
    case FromGlobal => s.ptr != 0 && s.ptr == LookupIn(global, s.name)
    case FromUso(id) => s.ptr != 0 && ProvidedBefore(mods, j, id, s)
  }

  lemma CurrentIsBound(mods: seq<Module>, global: Option<SymbolTable>, j: nat, k: nat)
    requires j < |mods| && mods[j].WellFormed() && k < |mods[j].Imports()| && Current(mods, global, j, k)
    ensures Bound(mods, global, j, k)
  {
    hide Sorted, Lookup;
    var s := mods[j].Imports()[k];
    var p := FirstExporter(mods[..j], s.name);
    if p < j {
      assert mods[..j][p] == mods[p];
    }
  }

  /** Ids grow and file names differ along the list. */
  ghost predicate Shape(mods: seq<Module>, nextId: nat) {
    && (forall i :: 0 <= i < |mods| ==> mods[i].WellFormed() && mods[i].id < nextId)
    && (forall i, j :: 0 <= i < j < |mods| ==> mods[i].id < mods[j].id && mods[i].name != mods[j].name)
  }

  ghost predicate Inv(mods: seq<Module>, nextId: nat, global: Option<SymbolTable>) {
    && Shape(mods, nextId)
    && forall j, k :: 0 <= j < |mods| && 0 <= k < |mods[j].Imports()| ==> Current(mods, global, j, k)
  }

  lemma InvWellFormed(mods: seq<Module>, nextId: nat, global: Option<SymbolTable>)
    requires Inv(mods, nextId, global)
    ensures forall i :: 0 <= i < |mods| ==>
              && (mods[i].exports.Some? ==> Sorted(mods[i].exports.value))
              && (mods[i].imports.Some? ==> Sorted(mods[i].imports.value))
  {
    hide Current, Sorted;
  }

  /** Resolution looks at ids and exports only. */
  lemma SameResolution(mods: seq<Module>, mods': seq<Module>, global: Option<SymbolTable>, name: Name)
    requires |mods| == |mods'|
    requires forall i :: 0 <= i < |mods| ==> mods'[i].id == mods[i].id && mods'[i].exports == mods[i].exports
    ensures Resolve(mods', global, name) == Resolve(mods, global, name)
    ensures ProviderOf(mods', global, name) == ProviderOf(mods, global, name)
  {
    hide Lookup;
    var p := FirstExporter(mods, name);
    ResolveIsFirstMatch(mods', global, name, p);
  }

  lemma BumpKeepsInv(mods: seq<Module>, nextId: nat, global: Option<SymbolTable>, i: nat, refs: U32)
    requires Inv(mods, nextId, global) && i < |mods|
    ensures Inv(mods[i := mods[i].(refs := refs)], nextId, global)
  {
    hide Sorted, Resolve, ProviderOf;
    var mods' := mods[i := mods[i].(refs := refs)];
    assert forall m :: 0 <= m < |mods| ==> mods'[m] == mods[m].(refs := mods'[m].refs);
    forall j, k | 0 <= j < |mods'| && 0 <= k < |mods'[j].Imports()|
      ensures Current(mods', global, j, k)
    {
      assert Current(mods, global, j, k);
      SameResolution(mods[..j], mods'[..j], global, mods[j].Imports()[k].name);
    }
  }

  lemma LoadKeepsInv(mods: seq<Module>, nextId: nat, global: Option<SymbolTable>, name: Name, file: UsoFile)
    requires Inv(mods, nextId, global) && file.WellFormed() && IndexOfName(mods, name) == |mods|
    ensures Inv(mods + [Loaded(file, nextId, name, mods, global)], nextId + 1, global)
  {
    hide FirstExporter, Lookup, Resolve, ProviderOf, Sorted;
    var m := Loaded(file, nextId, name, mods, global);
    var mods' := mods + [m];
    ResolvedIsSorted(file, nextId, name, mods, global);
    forall j, k | 0 <= j < |mods'| && 0 <= k < |mods'[j].Imports()|
      ensures mods'[j].WellFormed() && Current(mods', global, j, k)
    {
      assert mods'[..j] == mods[..j];
      if j < |mods| {
        assert Current(mods, global, j, k);
      } else {
        assert mods'[..j] == mods;
      }
    }
  }

  lemma ResolvedIsSorted(file: UsoFile, id: nat, name: Name, mods: seq<Module>, global: Option<SymbolTable>)
    requires file.WellFormed()
    ensures Loaded(file, id, name, mods, global).WellFormed()
  {
    hide Less, Resolve, ProviderOf;
  }

  /** A module that exports the name of a later module's import blocks on that account, whoever serves the import. */
  lemma NamedExportBlocks(mods: seq<Module>, global: Option<SymbolTable>, i: nat, j: nat, k: nat)
    requires i < j < |mods| && mods[j].WellFormed() && mods[i].WellFormed() && k < |mods[j].Imports()|
    requires Current(mods, global, j, k) && LookupIn(mods[i].exports, mods[j].Imports()[k].name) != 0
    ensures Blocks(mods, j, i)
  {
    hide Sorted;
    var s := mods[j].Imports()[k];
    var e := LookupFinds(mods[i].Exports(), s.name);
    LookupOfEntry(mods[j].Imports(), k);
    assert mods[..j][i] == mods[i];
    assert s.ptr != 0;
  }

  /** A module that passes the test by name has nothing to say about any import that is bound. */
  lemma CloseableIsSilent(mods: seq<Module>, global: Option<SymbolTable>, i: nat, j: nat, k: nat)
    requires i < j < |mods| && mods[j].WellFormed() && mods[i].WellFormed() && k < |mods[j].Imports()|
    requires Current(mods, global, j, k) && Closeable(mods, i)
    ensures LookupIn(mods[i].exports, mods[j].Imports()[k].name) == 0
  {
    hide Sorted, Lookup, ImportsAnyOf, Current;
    if LookupIn(mods[i].exports, mods[j].Imports()[k].name) != 0 {
      NamedExportBlocks(mods, global, i, j, k);
    }
  }

  /** The heart of the matter: a module that passes the test by name provides for nobody else. */
  lemma CloseableProvidesNothing(mods: seq<Module>, nextId: nat, global: Option<SymbolTable>, i: nat, j: nat, k: nat)
    requires Inv(mods, nextId, global) && i < |mods| && j < |mods| && k < |mods[j].Imports()|
    requires mods[j].providers[k] == FromUso(mods[i].id)
    ensures !Closeable(mods, i)
  {
    hide Sorted, Lookup, Closeable;
    assert Current(mods, global, j, k);
    var s := mods[j].Imports()[k];
    var p := FirstExporter(mods[..j], s.name);
    assert p < j && mods[..j][p] == mods[p];
    assert p == i;
    if Closeable(mods, i) {
      CloseableIsSilent(mods, global, i, j, k);
    }
  }

  /** Taking out a module that does not export a name leaves its resolution alone. */
  lemma {:induction false} ResolveWithout(mods: seq<Module>, global: Option<SymbolTable>, i: nat, name: Name)
    requires i < |mods| && LookupIn(mods[i].exports, name) == 0
    ensures Resolve(Without(mods, i), global, name) == Resolve(mods, global, name)
    ensures ProviderOf(Without(mods, i), global, name) == ProviderOf(mods, global, name)
  {
    hide Lookup, FirstExporter;
    var mods' := Without(mods, i);
    assert forall m :: 0 <= m < |mods'| ==> mods'[m] == mods[if m < i then m else m + 1];
    var p := FirstExporter(mods, name);
    ResolveIsFirstMatch(mods', global, name, if p < i then p else p - 1);
  }

  lemma UnloadKeepsInv(mods: seq<Module>, nextId: nat, global: Option<SymbolTable>, i: nat)
    requires Inv(mods, nextId, global) && i < |mods| && Closeable(mods, i)
    ensures Inv(Without(mods, i), nextId, global)
  {
    hide Closeable, Shape, Current;
    var mods' := Without(mods, i);
    ShapeWithout(mods, nextId, i);
    forall j', k | 0 <= j' < |mods'| && 0 <= k < |mods'[j'].Imports()|
      ensures mods'[j'].WellFormed() && Current(mods', global, j', k)
    {
      CurrentAfterUnload(mods, nextId, global, i, if j' < i then j' else j' + 1, j', k);
    }
  }

  lemma ShapeWithout(mods: seq<Module>, nextId: nat, i: nat)
    requires Shape(mods, nextId) && i < |mods|
    ensures Shape(Without(mods, i), nextId)
    ensures forall j :: 0 <= j < |Without(mods, i)| ==> Without(mods, i)[j].WellFormed()
  {
    hide Sorted;
    var mods' := Without(mods, i);
    assert forall m :: 0 <= m < |mods'| ==> mods'[m] == mods[if m < i then m else m + 1];
  }

  lemma CurrentAfterUnload(mods: seq<Module>, nextId: nat, global: Option<SymbolTable>, i: nat, j: nat, j': nat,
                           k: nat)
    requires Inv(mods, nextId, global) && i < |mods| && Closeable(mods, i)
    requires j' < |mods| - 1 && j == (if j' < i then j' else j' + 1)
    requires k < |Without(mods, i)[j'].Imports()|
    ensures Without(mods, i)[j'].WellFormed() && Current(Without(mods, i), global, j', k)
  {
    hide Closeable, Sorted, Resolve, ProviderOf;
    var mods' := Without(mods, i);
    assert mods'[j'] == mods[j];
    assert Current(mods, global, j, k);
    if j < i {
      assert mods'[..j'] == mods[..j];
    } else {
      CloseableIsSilent(mods, global, i, j, k);
      assert mods'[..j'] == Without(mods[..j], i);
      ResolveWithout(mods[..j], global, i, mods[j].Imports()[k].name);
    }
  }

  lemma StepKeepsInv(l: Loader, global: Option<SymbolTable>, e: Event)
    requires l.Up? && Inv(l.mods, l.nextId, global) && Legal([e])
    requires Step(l, global, e).Up?
    ensures var l' := Step(l, global, e); Inv(l'.mods, l'.nextId, global)
  {
    match e
    case Open(name, file) =>
      assert [e][0].Open?;
      OpenKeepsInv(l.mods, l.nextId, global, name, file);
    case Close(id) =>
      CloseKeepsInv(l.mods, l.nextId, global, IndexOfId(l.mods, id));
  }

  lemma OpenKeepsInv(mods: seq<Module>, nextId: nat, global: Option<SymbolTable>, name: Name, file: Option<UsoFile>)
    requires Inv(mods, nextId, global) && (file.Some? ==> file.value.WellFormed())
    ensures Inv(OpenStep(mods, nextId, global, name, file), nextId + 1, global)
  {
    hide Inv, Links;
    MoreIds(mods, nextId, global);
    var i := IndexOfName(mods, name);
    if i < |mods| {
      BumpKeepsInv(mods, nextId + 1, global, i, Trunc32(mods[i].refs as int + 1));
    } else if file.Some? && !(file.value.imports.Some? && !Links(file.value.imports.value, mods, global)) {
      LoadKeepsInv(mods, nextId, global, name, file.value);
    }
  }

  lemma MoreIds(mods: seq<Module>, nextId: nat, global: Option<SymbolTable>)
    requires Inv(mods, nextId, global)
    ensures Inv(mods, nextId + 1, global)
  {
    hide Current;
  }

  lemma CloseKeepsInv(mods: seq<Module>, nextId: nat, global: Option<SymbolTable>, i: nat)
    requires Inv(mods, nextId, global) && i < |mods|
    ensures Inv(CloseStep(mods, i), nextId, global)
  {
    hide Inv, Closeable;
    var refs := if mods[i].refs != 0 then mods[i].refs - 1 else 0;
    BumpKeepsInv(mods, nextId, global, i, refs);
    if refs == 0 && Closeable(mods, i) {
      UnloadKeepsInv(mods, nextId, global, i);
    }
  }

  lemma {:induction false} RunKeepsInv(l: Loader, global: Option<SymbolTable>, events: seq<Event>)
    requires l.Up? ==> Inv(l.mods, l.nextId, global)
    requires Legal(events)
    ensures var l' := Run(l, global, events); l'.Up? ==> Inv(l'.mods, l'.nextId, global)
    decreases |events|
  {
    if events != [] {
      assert Legal([events[0]]);
      assert forall k :: 0 <= k < |events[1..]| ==> events[1..][k] == events[k + 1];
      var l1 := Step(l, global, events[0]);
      if l1.Up? {
        StepKeepsInv(l, global, events[0]);
      }
      RunKeepsInv(l1, global, events[1..]);
    }
  }

  /**
   No dangling import, in any run from the empty loader: a bound import holds the address of a same-named
   export of a module that is still loaded, and was loaded before the importer, or of the global table.
   */
  lemma NoDanglingImport(global: Option<SymbolTable>, events: seq<Event>, j: nat, k: nat)
    requires Legal(events)
    requires Run(Up([], 0), global, events).Up?
    requires var mods := Run(Up([], 0), global, events).mods; j < |mods| && k < |mods[j].Imports()|
    requires Run(Up([], 0), global, events).mods[j].Imports()[k].ptr != 0
    ensures
      var mods := Run(Up([], 0), global, events).mods;
      var s := mods[j].Imports()[k];
      || s.ptr == LookupIn(global, s.name)
      || exists i :: 0 <= i < j && s.ptr == LookupIn(mods[i].exports, s.name)
  {
    RunKeepsInv(Up([], 0), global, events);
    var mods := Run(Up([], 0), global, events).mods;
    assert Current(mods, global, j, k);
    CurrentIsBound(mods, global, j, k);
  }

  /** In any run, every import is bound to what its name means among the modules loaded before it and still there. */
  lemma BindingsStayCurrent(global: Option<SymbolTable>, events: seq<Event>, j: nat, k: nat)
    requires Legal(events)
    requires Run(Up([], 0), global, events).Up?
    requires var mods := Run(Up([], 0), global, events).mods; j < |mods| && k < |mods[j].Imports()|
    ensures
      var mods := Run(Up([], 0), global, events).mods;
      mods[j].Imports()[k].ptr == Resolve(mods[..j], global, mods[j].Imports()[k].name)
  {
    hide Resolve;
    RunKeepsInv(Up([], 0), global, events);
    assert Current(Run(Up([], 0), global, events).mods, global, j, k);
  }

  // ----- Unloading makes progress

  /** No two modules, and no module and the global table, offer the same name. */
  ghost predicate NamesDisjoint(mods: seq<Module>, global: Option<SymbolTable>) {
    && (forall i, j, name :: 0 <= i < |mods| && 0 <= j < |mods| && i != j && Names(mods[i].Exports(), name)
                             ==> !Names(mods[j].Exports(), name))
    && (forall i, name :: 0 <= i < |mods| && Names(mods[i].Exports(), name) ==> LookupIn(global, name) == 0)
  }

  /** Some module's import was bound to module i when it was loaded. */
  ghost predicate InUse(mods: seq<Module>, i: nat)
    requires i < |mods|
  {
    exists j, k :: 0 <= j < |mods| && 0 <= k < |mods[j].providers| && mods[j].providers[k] == FromUso(mods[i].id)
  }

  /** Some import of a later module has a name that i is the first to export: seen from names and load order alone. */
  ghost predicate Serves(mods: seq<Module>, i: nat)
    requires i < |mods|
  {
    exists j, k :: i < j < |mods| && 0 <= k < |mods[j].Imports()|
                   && FirstExporter(mods[..j], mods[j].Imports()[k].name) == i
  }

  lemma InUseIsServing(mods: seq<Module>, nextId: nat, global: Option<SymbolTable>, i: nat)
    requires Inv(mods, nextId, global) && i < |mods|
    ensures InUse(mods, i) <==> Serves(mods, i)
  {
    hide Sorted, Lookup;
    forall j, k | 0 <= j < |mods| && 0 <= k < |mods[j].Imports()|
      ensures mods[j].providers[k] == FromUso(mods[i].id)
              <==> i < j && FirstExporter(mods[..j], mods[j].Imports()[k].name) == i
    {
      assert Current(mods, global, j, k);
      var p := FirstExporter(mods[..j], mods[j].Imports()[k].name);
      if p < j {
        assert mods[..j][p] == mods[p];
      }
    }
    if Serves(mods, i) {
      var j, k :| i < j < |mods| && 0 <= k < |mods[j].Imports()|
                  && FirstExporter(mods[..j], mods[j].Imports()[k].name) == i;
      assert mods[j].providers[k] == FromUso(mods[i].id);
    }
  }

  /** Some other module has a bound import with a name of module i. */
  ghost predicate NamedElsewhere(mods: seq<Module>, i: nat)
    requires i < |mods|
  {
    exists j :: 0 <= j < |mods| && j != i && BoundByName(mods[j], mods[i].Exports())
  }

  ghost predicate BoundByName(m: Module, exports: SymbolTable) {
    exists k :: 0 <= k < |m.Imports()| && m.Imports()[k].ptr != 0 && Names(exports, m.Imports()[k].name)
  }

  lemma BoundIsFound(m: Module, exports: SymbolTable)
    requires Sorted(m.Imports()) && BoundByName(m, exports)
    ensures ImportsAnyOf(m, exports)
  {
    hide Sorted, Lookup;
    var k :| 0 <= k < |m.Imports()| && m.Imports()[k].ptr != 0 && Names(exports, m.Imports()[k].name);
    LookupOfEntry(m.Imports(), k);
    var e :| 0 <= e < |exports| && exports[e].name == m.Imports()[k].name;
    assert LookupIn(m.imports, exports[e].name) != 0;
  }

  lemma FoundIsBound(m: Module, exports: SymbolTable)
    requires ImportsAnyOf(m, exports)
    ensures BoundByName(m, exports)
  {
    hide Lookup;
    var e :| 0 <= e < |exports| && LookupIn(m.imports, exports[e].name) != 0;
    var k := LookupFinds(m.Imports(), exports[e].name);
    assert Names(exports, m.Imports()[k].name);
  }

  lemma NamedIsBlocked(mods: seq<Module>, nextId: nat, global: Option<SymbolTable>, i: nat)
    requires Inv(mods, nextId, global) && i < |mods|
    ensures NamedElsewhere(mods, i) <==> !Closeable(mods, i)
  {
    hide Current, Sorted, BoundByName, ImportsAnyOf;
    forall j | 0 <= j < |mods|
      ensures BoundByName(mods[j], mods[i].Exports()) <==> ImportsAnyOf(mods[j], mods[i].Exports())
    {
      if BoundByName(mods[j], mods[i].Exports()) {
        BoundIsFound(mods[j], mods[i].Exports());
      }
      if ImportsAnyOf(mods[j], mods[i].Exports()) {
        FoundIsBound(mods[j], mods[i].Exports());
      }
    }
  }

  /**
   The test by name is always safe. It is exact, that is true just when nobody is bound to the module, with disjoint
   names. It keeps a module that nobody is bound to if and only if some other module has a bound import with a name of
   it, and yet it is the first exporter of no later import.
   */
  lemma CloseableIsExact(mods: seq<Module>, nextId: nat, global: Option<SymbolTable>, i: nat)
    requires Inv(mods, nextId, global) && i < |mods|
    ensures Closeable(mods, i) ==> !InUse(mods, i)
    ensures NamesDisjoint(mods, global) ==> (Closeable(mods, i) <==> !InUse(mods, i))
    ensures !Closeable(mods, i) && !InUse(mods, i) <==>
            && NamedElsewhere(mods, i)
            && forall j, k :: i < j < |mods| && 0 <= k < |mods[j].Imports()| ==>
                 FirstExporter(mods[..j], mods[j].Imports()[k].name) != i
  {
    hide Current, Sorted, NamesDisjoint, ImportsAnyOf, NamedElsewhere;
    InUseIsServing(mods, nextId, global, i);
    NamedIsBlocked(mods, nextId, global, i);
    if InUse(mods, i) {
      var j, k :| 0 <= j < |mods| && 0 <= k < |mods[j].providers| && mods[j].providers[k] == FromUso(mods[i].id);
      CloseableProvidesNothing(mods, nextId, global, i, j, k);
    } else if NamesDisjoint(mods, global) {
      forall j | 0 <= j < |mods| && j != i
        ensures !ImportsAnyOf(mods[j], mods[i].Exports())
      {
        if ImportsAnyOf(mods[j], mods[i].Exports()) {
          BlockerUses(mods, nextId, global, i, j);
        }
      }
    }
  }

  lemma BlockerUses(mods: seq<Module>, nextId: nat, global: Option<SymbolTable>, i: nat, j: nat)
    requires Inv(mods, nextId, global) && NamesDisjoint(mods, global) && i < |mods| && j < |mods| && i != j
    requires ImportsAnyOf(mods[j], mods[i].Exports())
    ensures InUse(mods, i)
  {
    hide Sorted, Lookup, Current;
    var e :| 0 <= e < |mods[i].Exports()| && LookupIn(mods[j].imports, mods[i].Exports()[e].name) != 0;
    var name := mods[i].Exports()[e].name;
    assert Names(mods[i].Exports(), name);
    var k := LookupFinds(mods[j].Imports(), name);
    assert Current(mods, global, j, k);
    CurrentIsBound(mods, global, j, k);
    assert mods[j].Imports()[k].ptr != 0;
    if mods[j].providers[k].FromUso? {
      var s := mods[j].Imports()[k];
      var p :| 0 <= p < j && mods[p].id == mods[j].providers[k].id && s.ptr == LookupIn(mods[p].exports, s.name);
      var e' := LookupFinds(mods[p].Exports(), name);
      assert Names(mods[p].Exports(), name);
      assert p == i;
    }
  }

  /** With disjoint names the module loaded last can always go. */
  lemma TailIsCloseable(mods: seq<Module>, nextId: nat, global: Option<SymbolTable>)
    requires Inv(mods, nextId, global) && NamesDisjoint(mods, global) && mods != []
    ensures Closeable(mods, |mods| - 1)
  {
    hide Closeable, NamesDisjoint, Sorted;
    var i := |mods| - 1;
    CloseableIsExact(mods, nextId, global, i);
    forall j, k | 0 <= j < |mods| && 0 <= k < |mods[j].providers|
      ensures mods[j].providers[k] != FromUso(mods[i].id)
    {
      assert Current(mods, global, j, k);
      CurrentIsBound(mods, global, j, k);
    }
  }

  /** Closing the last module n times over, each time taking whichever module is last. */
  function CloseTails(l: Loader, global: Option<SymbolTable>, n: nat): Loader
    decreases n
  {
    if n == 0 || l.Halted? || l.mods == [] then l
    else CloseTails(Step(l, global, Close(l.mods[|l.mods| - 1].id)), global, n - 1)
  }

  /** How many closes empty the list from its tail: at least one for each module. */
  function ClosesNeeded(mods: seq<Module>): nat {
    if mods == [] then 0
    else
      var refs := mods[|mods| - 1].refs;
      (if refs == 0 then 1 else refs) + ClosesNeeded(mods[..|mods| - 1])
  }

  /** The list after one close of its last module. */
  function TailClosed(mods: seq<Module>): seq<Module>
    requires mods != []
  {
    var last := |mods| - 1;
    if mods[last].refs <= 1 then mods[..last] else mods[last := mods[last].(refs := mods[last].refs - 1)]
  }

  lemma CloseTailStep(mods: seq<Module>, nextId: nat, global: Option<SymbolTable>)
    requires Inv(mods, nextId, global) && NamesDisjoint(mods, global) && mods != []
    ensures Step(Up(mods, nextId), global, Close(mods[|mods| - 1].id)) ==
            if TestFaults(mods, |mods| - 1) then Halted else Up(TailClosed(mods), nextId)
    ensures Inv(TailClosed(mods), nextId, global) && NamesDisjoint(TailClosed(mods), global)
  {
    hide Closeable, NamesDisjoint, Current, Sorted;
    var last := |mods| - 1;
    TailIsCloseable(mods, nextId, global);
    assert IndexOfId(mods, mods[last].id) == last;
    assert Without(mods, last) == mods[..last];
    assert CloseStep(mods, last) == TailClosed(mods);
    CloseKeepsInv(mods, nextId, global, last);
    StillDisjoint(mods, TailClosed(mods), global);
  }

  lemma StillDisjoint(mods: seq<Module>, mods': seq<Module>, global: Option<SymbolTable>)
    requires NamesDisjoint(mods, global) && |mods'| <= |mods|
    requires forall i :: 0 <= i < |mods'| ==> mods'[i].exports == mods[i].exports
    ensures NamesDisjoint(mods', global)
  {
    hide Names, Lookup;
    forall i, j, name | 0 <= i < |mods'| && 0 <= j < |mods'| && i != j && Names(mods'[i].Exports(), name)
      ensures !Names(mods'[j].Exports(), name)
    {
      assert Names(mods[i].Exports(), name);
    }
    forall i, name | 0 <= i < |mods'| && Names(mods'[i].Exports(), name)
      ensures LookupIn(global, name) == 0
    {
      assert Names(mods[i].Exports(), name);
    }
  }

  /** Every module but the first has an export table. */
  predicate Testable(mods: seq<Module>) { forall i :: 1 <= i < |mods| ==> mods[i].exports.Some? }

  /**
   Closing from the tail empties the list, in exactly ClosesNeeded steps, if and only if every module but
   the first has an export table; otherwise some unload test reads through a NULL pointer.
   */
  lemma {:induction false} DrainFromTail(mods: seq<Module>, nextId: nat, global: Option<SymbolTable>)
    requires Inv(mods, nextId, global) && NamesDisjoint(mods, global)
    ensures CloseTails(Up(mods, nextId), global, ClosesNeeded(mods)) ==
            if Testable(mods) then Up([], nextId) else Halted
    decreases |mods|, if mods == [] then 0 else mods[|mods| - 1].refs
  {
    hide Inv, NamesDisjoint, Step, TailClosed, Testable;
    TestableEnds(mods);
    if mods != [] {
      CloseTailStep(mods, nextId, global);
      TailMeasure(mods);
      if !TestFaults(mods, |mods| - 1) {
        DrainFromTail(TailClosed(mods), nextId, global);
      }
    }
  }

  lemma TestableEnds(mods: seq<Module>)
    ensures mods == [] ==> Testable(mods)
    ensures mods != [] && TestFaults(mods, |mods| - 1) ==> !Testable(mods)
  {
  }

  lemma TailMeasure(mods: seq<Module>)
    requires mods != []
    ensures ClosesNeeded(mods) == 1 + ClosesNeeded(TailClosed(mods))
    ensures !TestFaults(mods, |mods| - 1) ==> Testable(mods) == Testable(TailClosed(mods))
    ensures
      var mods' := TailClosed(mods);
      || |mods'| < |mods|
      || (|mods'| == |mods| && mods'[|mods| - 1].refs < mods[|mods| - 1].refs)
  {
    var last := |mods| - 1;
    if mods[last].refs > 1 {
      assert TailClosed(mods)[..last] == mods[..last];
    }
  }

  lemma {:induction false} HaltedStays(global: Option<SymbolTable>, events: seq<Event>)
    ensures Run(Halted, global, events) == Halted
  {
    if events != [] {
      HaltedStays(global, events[1..]);
    }
  }

  /** The test does not look at reference counts. */
  lemma SameTest(mods: seq<Module>, mods': seq<Module>, i: nat)
    requires i < |mods| == |mods'|
    requires forall j :: 0 <= j < |mods| ==> mods'[j] == mods[j].(refs := mods'[j].refs)
    ensures Closeable(mods, i) == Closeable(mods', i)
  {
    hide ImportsAnyOf;
    forall j | 0 <= j < |mods|
      ensures ImportsAnyOf(mods'[j], mods'[i].Exports()) == ImportsAnyOf(mods[j], mods[i].Exports())
    {
      SameImports(mods[j], mods'[j], mods[i].Exports());
    }
  }

  lemma SameImports(m: Module, m': Module, exports: SymbolTable)
    requires m'.imports == m.imports
    ensures ImportsAnyOf(m', exports) == ImportsAnyOf(m, exports)
  {
  }

  // ----- Reference counts

  /** The calls that concern one load of a module: true for an open of its file name, false for a close of it. */
  function Calls(events: seq<Event>, id: nat, name: Name): seq<bool> {
    if events == [] then []
    else
      (match events[0]
       case Open(n, _) => if n == name then [true] else []
       case Close(i) => if i == id then [false] else [])
      + Calls(events[1..], id, name)
  }

  /** Opens minus closes, never below 0, in a 32-bit counter. */
  function Count(refs: U32, calls: seq<bool>): U32
    decreases |calls|
  {
    if calls == [] then refs
    else Count(if calls[0] then Trunc32(refs as int + 1) else if refs == 0 then 0 else refs - 1, calls[1..])
  }

  /** As long as a module stays loaded its count is exactly what the calls that concern it add up to. */
  lemma {:induction false} RefsCountCalls(l: Loader, global: Option<SymbolTable>, events: seq<Event>, i: nat)
    requires l.Up? && Inv(l.mods, l.nextId, global) && Legal(events) && i < |l.mods|
    requires Run(l, global, events).Up?
    ensures
      var mods' := Run(l, global, events).mods;
      var i' := IndexOfId(mods', l.mods[i].id);
      i' < |mods'| ==>
        && mods'[i'].name == l.mods[i].name
        && mods'[i'].refs == Count(l.mods[i].refs, Calls(events, l.mods[i].id, l.mods[i].name))
    decreases |events|
  {
    hide Inv;
    var m := l.mods[i];
    IdAt(l.mods, l.nextId, global, i);
    if events != [] {
      var e, rest := events[0], events[1..];
      assert Legal([e]) && Legal(rest) by { LegalParts(events); }
      var l1 := Step(l, global, e);
      if l1 == Halted {
        HaltedStays(global, rest);
      } else {
        StepKeepsInv(l, global, e);
        StepCounts(l, global, e, i);
        var i1 := IndexOfId(l1.mods, m.id);
        if i1 < |l1.mods| {
          RefsCountCalls(l1, global, rest, i1);
          CountSplit(m.refs, events, m.id, m.name);
        } else {
          NeverAgain(l1, global, rest, m.id);
        }
      }
    }
  }

  lemma LegalParts(events: seq<Event>)
    requires Legal(events) && events != []
    ensures Legal([events[0]]) && Legal(events[1..])
  {
    assert forall k :: 0 <= k < |events[1..]| ==> events[1..][k] == events[k + 1];
  }

  lemma IdAt(mods: seq<Module>, nextId: nat, global: Option<SymbolTable>, i: nat)
    requires Inv(mods, nextId, global) && i < |mods|
    ensures IndexOfId(mods, mods[i].id) == i && mods[i].id < nextId
    ensures forall j :: 0 <= j < |mods| && mods[j].name == mods[i].name ==> j == i
    ensures forall j :: 0 <= j < |mods| && mods[j].id == mods[i].id ==> j == i
  {
    hide Current;
  }

  lemma CountSplit(refs: U32, events: seq<Event>, id: nat, name: Name)
    requires events != []
    ensures Count(refs, Calls(events, id, name)) ==
            Count(Count(refs, Calls([events[0]], id, name)), Calls(events[1..], id, name))
  {
    var first, rest := Calls([events[0]], id, name), Calls(events[1..], id, name);
    assert [events[0]][1..] == [] && Calls([], id, name) == [];
    if first != [] {
      assert (first + rest)[1..] == rest;
    } else {
      assert first + rest == rest;
    }
  }

  /** One step: the module keeps its place in the count, or is gone. */
  lemma StepCounts(l: Loader, global: Option<SymbolTable>, e: Event, i: nat)
    requires l.Up? && Inv(l.mods, l.nextId, global) && Legal([e]) && i < |l.mods| && Step(l, global, e).Up?
    ensures
      var m := l.mods[i];
      var l1 := Step(l, global, e);
      var i1 := IndexOfId(l1.mods, m.id);
      && m.id < l1.nextId
      && (i1 < |l1.mods| ==>
            l1.mods[i1].name == m.name && l1.mods[i1].refs == Count(m.refs, Calls([e], m.id, m.name)))
  {
    match e
    case Open(name, file) => OpenCounts(l.mods, l.nextId, global, name, file, i);
    case Close(id) => CloseCounts(l.mods, l.nextId, global, IndexOfId(l.mods, id), i);
  }

  lemma OpenCounts(mods: seq<Module>, nextId: nat, global: Option<SymbolTable>, name: Name, file: Option<UsoFile>,
                   i: nat)
    requires Inv(mods, nextId, global) && i < |mods|
    ensures
      var mods' := OpenStep(mods, nextId, global, name, file);
      && mods[i].id < nextId
      && IndexOfId(mods', mods[i].id) == i && mods'[i].name == mods[i].name
      && mods'[i].refs == Count(mods[i].refs, Calls([Open(name, file)], mods[i].id, mods[i].name))
  {
    hide Inv, Links, Loaded;
    IdAt(mods, nextId, global, i);
    var mods' := OpenStep(mods, nextId, global, name, file);
    assert forall j :: 0 <= j < |mods| ==> mods'[j].id == mods[j].id;
    assert IndexOfId(mods', mods[i].id) == i;
    assert [Open(name, file)][1..] == [];
    assert Calls([Open(name, file)], mods[i].id, mods[i].name) == if name == mods[i].name then [true] else [];
  }

  lemma CloseCounts(mods: seq<Module>, nextId: nat, global: Option<SymbolTable>, c: nat, i: nat)
    requires Inv(mods, nextId, global) && i < |mods| && c < |mods|
    ensures
      var mods' := CloseStep(mods, c);
      var i' := IndexOfId(mods', mods[i].id);
      && mods[i].id < nextId
      && (i' < |mods'| ==>
            && mods'[i'].name == mods[i].name
            && mods'[i'].refs == Count(mods[i].refs, Calls([Close(mods[c].id)], mods[i].id, mods[i].name)))
  {
    hide Inv, Closeable;
    IdAt(mods, nextId, global, i);
    var mods' := CloseStep(mods, c);
    if |mods'| < |mods| {
      assert forall j :: 0 <= j < |mods'| ==> mods'[j] == mods[if j < c then j else j + 1];
    }
    assert [Close(mods[c].id)][1..] == [];
    assert Calls([Close(mods[c].id)], mods[i].id, mods[i].name) == if c == i then [false] else [];
  }

  /** An id that is not loaded is never loaded again. */
  lemma {:induction false} NeverAgain(l: Loader, global: Option<SymbolTable>, events: seq<Event>, id: nat)
    requires l.Up? && id < l.nextId && IndexOfId(l.mods, id) == |l.mods|
    ensures var l' := Run(l, global, events); l'.Up? ==> IndexOfId(l'.mods, id) == |l'.mods|
    decreases |events|
  {
    if events != [] {
      hide Closeable, Links;
      var l1 := Step(l, global, events[0]);
      if l1 == Halted {
        HaltedStays(global, events[1..]);
      } else {
        NotLoadedStep(l, global, events[0], id);
        NeverAgain(l1, global, events[1..], id);
      }
    }
  }

  lemma NotLoadedStep(l: Loader, global: Option<SymbolTable>, e: Event, id: nat)
    requires l.Up? && id < l.nextId && IndexOfId(l.mods, id) == |l.mods| && Step(l, global, e).Up?
    ensures var l1 := Step(l, global, e); IndexOfId(l1.mods, id) == |l1.mods| && id < l1.nextId
  {
    hide OpenStep, CloseStep, IndexOfId, TestFaults;
    match e
    case Open(name, file) =>
      NotLoadedOpen(l.mods, l.nextId, global, name, file, id);
    case Close(c) =>
      NotLoadedClose(l.mods, IndexOfId(l.mods, c), id);
  }

  lemma NotLoadedOpen(mods: seq<Module>, nextId: nat, global: Option<SymbolTable>, name: Name, file: Option<UsoFile>,
                      id: nat)
    requires id < nextId && IndexOfId(mods, id) == |mods|
    ensures var mods' := OpenStep(mods, nextId, global, name, file); IndexOfId(mods', id) == |mods'|
  {
    hide Links, ResolveTable, ProvidersOf;
  }

  lemma NotLoadedClose(mods: seq<Module>, i: nat, id: nat)
    requires i < |mods| && IndexOfId(mods, id) == |mods|
    ensures IndexOfId(CloseStep(mods, i), id) == |CloseStep(mods, i)|
  {
    hide Closeable;
    var mods' := CloseStep(mods, i);
    assert forall j :: 0 <= j < |mods'| ==> mods'[j].id == mods[if |mods'| == |mods| || j < i then j else j + 1].id;
  }

  // ----- Resolution and opening

  /** Resolution takes the first exporter in load order, and the global table only when there is none. */
  lemma ResolveIsFirstMatch(mods: seq<Module>, global: Option<SymbolTable>, name: Name, k: nat)
    requires k <= |mods|
    requires forall i :: 0 <= i < k ==> LookupIn(mods[i].exports, name) == 0
    requires k < |mods| ==> LookupIn(mods[k].exports, name) != 0
    ensures Resolve(mods, global, name)
         == if k < |mods| then LookupIn(mods[k].exports, name) else LookupIn(global, name)
    ensures FirstExporter(mods, name) == k
  {
    assert FirstExporter(mods, name) == k;
  }

  /** Some loaded module, or the main binary, has the name at a non-NULL address. */
  ghost predicate Offered(mods: seq<Module>, global: Option<SymbolTable>, name: Name) {
    LookupIn(global, name) != 0 || exists i :: 0 <= i < |mods| && LookupIn(mods[i].exports, name) != 0
  }

  lemma OfferedResolves(mods: seq<Module>, global: Option<SymbolTable>, name: Name)
    ensures Resolve(mods, global, name) != 0 <==> Offered(mods, global, name)
  {
    hide Lookup;
  }

  /**
   After an open the name is loaded just when it was before, or there is a file whose imports are all weak or
   offered by somebody. Modules of other names stay as they are, with every binding; one of that name at most
   changes its count.
   */
  lemma OpenOutcome(mods: seq<Module>, nextId: nat, global: Option<SymbolTable>, name: Name, file: Option<UsoFile>)
    ensures
      var mods' := OpenStep(mods, nextId, global, name, file);
      && ((exists i :: 0 <= i < |mods'| && mods'[i].name == name)
          <==> (exists i :: 0 <= i < |mods| && mods[i].name == name)
               || (file.Some? && (file.value.imports.Some? ==>
                     forall k :: 0 <= k < |file.value.imports.value| && !file.value.imports.value[k].IsWeak() ==>
                       Offered(mods, global, file.value.imports.value[k].name))))
      && |mods| <= |mods'| && forall i :: 0 <= i < |mods| ==>
           mods'[i] == if mods[i].name == name then mods[i].(refs := mods'[i].refs) else mods[i]
  {
    hide Offered, Resolve, Loaded;
    OpenStepIs(mods, nextId, global, name, file);
    LoadedIs(file, nextId, name, mods, global);
    var mods' := OpenStep(mods, nextId, global, name, file);
    assert IndexOfName(mods', name) < |mods'| <==> exists i :: 0 <= i < |mods'| && mods'[i].name == name;
    assert IndexOfName(mods, name) < |mods| <==> exists i :: 0 <= i < |mods| && mods[i].name == name;
    if file.Some? && file.value.imports.Some? {
      var t := file.value.imports.value;
      forall k | 0 <= k < |t|
        ensures Resolve(mods, global, t[k].name) != 0 <==> Offered(mods, global, t[k].name)
      {
        OfferedResolves(mods, global, t[k].name);
      }
    }
  }

  /** An open adds one reference, modulo 2^32, or one module at the end, which has one reference and is bound. */
  lemma OpenedIs(mods: seq<Module>, nextId: nat, global: Option<SymbolTable>, name: Name, file: Option<UsoFile>)
    ensures
      var mods', i := OpenStep(mods, nextId, global, name, file), IndexOfName(mods, name);
      i < |mods| ==> |mods'| == |mods| && mods'[i].refs == (mods[i].refs + 1) % 0x1_0000_0000
    ensures
      var mods' := OpenStep(mods, nextId, global, name, file);
      |mods'| > |mods| ==>
        && |mods'| == |mods| + 1 && file.Some?
        && var m := mods'[|mods|];
           && m.id == nextId && m.name == name && m.refs == 1 && m.exports == file.value.exports
           && (m.imports.Some? <==> file.value.imports.Some?) && |m.Imports()| == |file.value.Imports()|
           && forall k :: 0 <= k < |m.Imports()| ==>
                m.Imports()[k] == file.value.Imports()[k].(ptr := Resolve(mods, global, file.value.Imports()[k].name))
  {
    hide Resolve, ResolveTable, ProvidersOf, Links;
    OpenStepIs(mods, nextId, global, name, file);
    if file.Some? {
      NewModuleIs(mods, nextId, global, name, file.value);
    }
  }

  lemma NewModuleIs(mods: seq<Module>, nextId: nat, global: Option<SymbolTable>, name: Name, file: UsoFile)
    ensures
      var m := Loaded(file, nextId, name, mods, global);
      && m.id == nextId && m.name == name && m.refs == 1 && m.exports == file.exports
      && (m.imports.Some? <==> file.imports.Some?) && |m.Imports()| == |file.Imports()|
      && forall k :: 0 <= k < |m.Imports()| ==>
           m.Imports()[k] == file.Imports()[k].(ptr := Resolve(mods, global, file.Imports()[k].name))
  {
    hide Resolve, ProvidersOf;
  }

  /**
   After a close that is not the last of its references, or that fails the test, the module is there with one reference
   less; otherwise it is gone. Everything else stays as it is, in order.
   */
  lemma {:induction false} CloseOutcomeIs(mods: seq<Module>, nextId: nat, global: Option<SymbolTable>, i: nat)
    requires Inv(mods, nextId, global) && i < |mods|
    ensures
      var mods' := CloseStep(mods, i);
      if mods[i].refs > 1 || NamedElsewhere(mods, i) then
        && |mods'| == |mods| && (forall j :: 0 <= j < |mods| && j != i ==> mods'[j] == mods[j])
        && mods'[i] == mods[i].(refs := if mods[i].refs == 0 then 0 else mods[i].refs - 1)
      else
        && |mods'| == |mods| - 1
        && (forall j :: 0 <= j < i ==> mods'[j] == mods[j])
        && (forall j :: i <= j < |mods'| ==> mods'[j] == mods[j + 1])
  {
    hide Inv, Closeable, NamedElsewhere;
    NamedIsBlocked(mods, nextId, global, i);
  }

  /** Closing a handle that is not loaded stops the program, and so does the NULL read of the unload test. */
  lemma CloseHalts(l: Loader, global: Option<SymbolTable>, id: nat)
    requires l.Up?
    ensures Step(l, global, Close(id)) == Halted <==>
            || (forall i :: 0 <= i < |l.mods| ==> l.mods[i].id != id)
            || (exists i :: 0 <= i < |l.mods| && l.mods[i].id == id && (forall k :: 0 <= k < i ==> l.mods[k].id != id)
                            && l.mods[i].exports == None && |l.mods| > 1)
  {
    hide CloseStep;
  }

  /** A file that is missing, or has an unresolved import that is not weak, changes nothing at all. */
  lemma FailedOpenIsAtomic(mods: seq<Module>, nextId: nat, global: Option<SymbolTable>, name: Name,
                           file: Option<UsoFile>, k: nat)
    requires forall i :: 0 <= i < |mods| ==> mods[i].name != name
    requires file.Some? && file.value.imports.Some? && k < |file.value.imports.value|
    requires !file.value.imports.value[k].IsWeak()
    requires forall i :: 0 <= i < |mods| ==> LookupIn(mods[i].exports, file.value.imports.value[k].name) == 0
    requires LookupIn(global, file.value.imports.value[k].name) == 0
    ensures OpenStep(mods, nextId, global, name, file) == OpenStep(mods, nextId, global, name, None) == mods
  {
    ResolveIsFirstMatch(mods, global, file.value.imports.value[k].name, |mods|);
  }
}
