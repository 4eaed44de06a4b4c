/**
 When can everything be unloaded? The exact condition, on import and export names alone, and the deadlock that
 arises without it (src/uso.c:435-456, 589-607).
 */
module UnloadProgress {
  import opened Words
  import opened CStrings
  import opened Symbols
  import opened Lifecycle

  // ----- Traps

  /** A module apart from its reference count. */
  function Core(m: Module): Module { m.(refs := 0) }

  ghost predicate Present(mods: seq<Module>, c: Module) {
    exists i :: 0 <= i < |mods| && Core(mods[i]) == c
  }

  /** As long as d is loaded, c cannot go: d imports a name of it, or c has no export table to test. */
  predicate Pins(d: Module, c: Module) {
    d != c && (c.exports == None || ImportsAnyOf(d, c.Exports()))
  }

  ghost predicate Pinned(c: Module, cs: set<Module>) {
    exists d :: d in cs && Pins(d, c)
  }

  /** Loaded modules that hold one another. */
  ghost predicate Trap(mods: seq<Module>, cs: set<Module>) {
    forall c :: c in cs ==> Present(mods, c) && Pinned(c, cs)
  }

  ghost predicate HasTrap(mods: seq<Module>) {
    exists cs :: cs != {} && Trap(mods, cs)
  }

  // ----- A trap is for good

  lemma PresentAfterOpen(mods: seq<Module>, nextId: nat, global: Option<SymbolTable>, name: Name,
                         file: Option<UsoFile>, c: Module)
    requires Present(mods, c)
    ensures Present(OpenStep(mods, nextId, global, name, file), c)
  {
    hide Links, Loaded;
    var i :| 0 <= i < |mods| && Core(mods[i]) == c;
    assert Core(OpenStep(mods, nextId, global, name, file)[i]) == c;
  }

  /** A pinned module does not go when it is closed, nor when another one is. */
  lemma PresentAfterClose(mods: seq<Module>, k: nat, c: Module, d: Module)
    requires k < |mods| && Present(mods, c) && Present(mods, d) && Pins(d, c) && !TestFaults(mods, k)
    ensures Present(CloseStep(mods, k), c)
  {
    hide Pins, Closeable, TestFaults;
    var i :| 0 <= i < |mods| && Core(mods[i]) == c;
    var mods' := CloseStep(mods, k);
    if k == i {
      NotRemoved(mods, i, d);
      assert Core(mods'[i]) == c;
    } else {
      assert Core(mods'[if |mods'| < |mods| && i > k then i - 1 else i]) == c;
    }
  }

  lemma NotRemoved(mods: seq<Module>, i: nat, d: Module)
    requires i < |mods| && Present(mods, d) && Pins(d, Core(mods[i])) && !TestFaults(mods, i)
    ensures !Closeable(mods, i)
  {
    hide ImportsAnyOf;
    var j :| 0 <= j < |mods| && Core(mods[j]) == d;
    assert j != i;
    SameImports(mods[j], d, mods[i].Exports());
  }

  lemma TrapAfterStep(l: Loader, global: Option<SymbolTable>, e: Event, cs: set<Module>)
    requires l.Up? && Step(l, global, e).Up? && Trap(l.mods, cs)
    ensures Trap(Step(l, global, e).mods, cs)
  {
    hide Pins, Present, OpenStep, CloseStep, TestFaults;
    forall c | c in cs
      ensures Present(Step(l, global, e).mods, c)
    {
      assert Pinned(c, cs);
      var d :| d in cs && Pins(d, c);
      match e
      case Open(name, file) => PresentAfterOpen(l.mods, l.nextId, global, name, file, c);
      case Close(id) => PresentAfterClose(l.mods, IndexOfId(l.mods, id), c, d);
    }
  }

  /** Whatever is opened and closed, in any order: as long as the program runs, the modules of a trap stay loaded. */
  lemma {:induction false} TrapIsForGood(l: Loader, global: Option<SymbolTable>, events: seq<Event>, cs: set<Module>)
    requires l.Up? && Trap(l.mods, cs) && Run(l, global, events).Up?
    ensures Trap(Run(l, global, events).mods, cs)
    decreases |events|
  {
    hide Trap, Step;
    if events != [] {
      var l1 := Step(l, global, events[0]);
      if l1 == Halted {
        HaltedStays(global, events[1..]);
      } else {
        TrapAfterStep(l, global, events[0], cs);
        TrapIsForGood(l1, global, events[1..], cs);
      }
    }
  }

  /** Two modules that import from each other keep each other loaded, after any opens and closes. */
  lemma StuckForever(l: Loader, global: Option<SymbolTable>, events: seq<Event>, i: nat, j: nat)
    requires l.Up? && i < |l.mods| && j < |l.mods| && l.mods[i].id != l.mods[j].id
    requires Blocks(l.mods, i, j) && Blocks(l.mods, j, i)
    requires Run(l, global, events).Up?
    ensures var mods' := Run(l, global, events).mods;
            && IndexOfId(mods', l.mods[i].id) < |mods'|
            && IndexOfId(mods', l.mods[j].id) < |mods'|
  {
    hide ImportsAnyOf, Run, Trap;
    var a, b := Core(l.mods[i]), Core(l.mods[j]);
    SameImports(l.mods[i], a, l.mods[j].Exports());
    SameImports(l.mods[j], b, l.mods[i].Exports());
    TwoAreTrap(l.mods, i, j);
    TrapIsForGood(l, global, events, {a, b});
    var mods' := Run(l, global, events).mods;
    MembersStay(mods', {a, b}, a);
    MembersStay(mods', {a, b}, b);
  }

  lemma MembersStay(mods: seq<Module>, cs: set<Module>, c: Module)
    requires Trap(mods, cs) && c in cs
    ensures IndexOfId(mods, c.id) < |mods|
  {
    hide Pinned;
    assert Present(mods, c);
  }

  // ----- Without a trap everything can be unloaded

  predicate OnlyCloses(events: seq<Event>) {
    forall k :: 0 <= k < |events| ==> events[k].Close?
  }

  /** Some sequence of closes empties the list. */
  ghost predicate CanEmpty(mods: seq<Module>, nextId: nat, global: Option<SymbolTable>) {
    exists closes :: OnlyCloses(closes) && Run(Up(mods, nextId), global, closes) == Up([], nextId)
  }

  lemma {:induction false} RunAppend(l: Loader, global: Option<SymbolTable>, a: seq<Event>, b: seq<Event>)
    ensures Run(l, global, a + b) == Run(Run(l, global, a), global, b)
    decreases |a|
  {
    hide Step;
    if a == [] {
      assert a + b == b;
    } else {
      assert (a + b)[1..] == a[1..] + b;
      RunAppend(Step(l, global, a[0]), global, a[1..], b);
    }
  }

  lemma RunOne(l: Loader, global: Option<SymbolTable>, e: Event)
    ensures Run(l, global, [e]) == Step(l, global, e)
  {
    hide Step;
    assert [e][1..] == [];
    assert Run(Step(l, global, e), global, []) == Step(l, global, e);
  }

  ghost function Cores(mods: seq<Module>): (cs: set<Module>)
    ensures forall c :: c in cs <==> Present(mods, c)
  {
    set k | 0 <= k < |mods| :: Core(mods[k])
  }

  lemma Unpinned(mods: seq<Module>, cs: set<Module>) returns (c: Module)
    requires !Trap(mods, cs)
    ensures c in cs && !(Present(mods, c) && Pinned(c, cs))
  {
    hide Present, Pinned;
    c :| c in cs && !(Present(mods, c) && Pinned(c, cs));
  }

  /** Some module can go now: it has an export table, or is alone, and nobody imports from it. */
  lemma SomeCanGo(mods: seq<Module>, nextId: nat, global: Option<SymbolTable>) returns (i: nat)
    requires Inv(mods, nextId, global) && mods != [] && !HasTrap(mods)
    ensures i < |mods| && Closeable(mods, i) && !TestFaults(mods, i)
  {
    hide Inv, Pinned, Trap, ImportsAnyOf;
    if |mods| == 1 {
      i := 0;
    } else {
      var cs := Cores(mods);
      assert Present(mods, Core(mods[0]));
      var c := Unpinned(mods, cs);
      i :| 0 <= i < |mods| && Core(mods[i]) == c;
      NotPinned(mods, nextId, global, i);
    }
  }

  lemma NotPinned(mods: seq<Module>, nextId: nat, global: Option<SymbolTable>, i: nat)
    requires Inv(mods, nextId, global) && i < |mods| && |mods| > 1
    requires !Pinned(Core(mods[i]), Cores(mods))
    ensures Closeable(mods, i) && !TestFaults(mods, i)
  {
    hide Inv, Pinned, Cores, ImportsAnyOf;
    NotPinnedBy(mods, nextId, global, i, if i == 0 then 1 else 0);
    forall j | 0 <= j < |mods| && j != i
      ensures !ImportsAnyOf(mods[j], mods[i].Exports())
    {
      NotPinnedBy(mods, nextId, global, i, j);
    }
  }

  lemma NotPinnedBy(mods: seq<Module>, nextId: nat, global: Option<SymbolTable>, i: nat, j: nat)
    requires Inv(mods, nextId, global) && i < |mods| && j < |mods| && i != j
    requires !Pinned(Core(mods[i]), Cores(mods))
    ensures !ImportsAnyOf(mods[j], mods[i].Exports()) && mods[i].exports.Some?
  {
    hide Inv, Cores, ImportsAnyOf;
    IdAt(mods, nextId, global, i);
    var c, d := Core(mods[i]), Core(mods[j]);
    assert Present(mods, d);
    assert !Pins(d, c);
    SameImports(mods[j], d, mods[i].Exports());
  }

  lemma CloseOnce(mods: seq<Module>, nextId: nat, global: Option<SymbolTable>, i: nat)
    requires Inv(mods, nextId, global) && i < |mods| && Closeable(mods, i) && !TestFaults(mods, i)
    ensures Run(Up(mods, nextId), global, [Close(mods[i].id)])
         == Up(if mods[i].refs <= 1 then Without(mods, i) else mods[i := mods[i].(refs := mods[i].refs - 1)], nextId)
  {
    hide Inv, Closeable, Run, Without;
    IdAt(mods, nextId, global, i);
    RunOne(Up(mods, nextId), global, Close(mods[i].id));
  }

  /** Closing a module that can go as often as it was opened takes it out. */
  lemma {:induction false} CloseOut(mods: seq<Module>, nextId: nat, global: Option<SymbolTable>, i: nat)
    returns (closes: seq<Event>)
    requires Inv(mods, nextId, global) && i < |mods| && Closeable(mods, i) && !TestFaults(mods, i)
    ensures OnlyCloses(closes) && Run(Up(mods, nextId), global, closes) == Up(Without(mods, i), nextId)
    decreases mods[i].refs
  {
    hide Inv, Closeable, Run, Step;
    closes := [Close(mods[i].id)];
    CloseOnce(mods, nextId, global, i);
    if mods[i].refs > 1 {
      var refs := mods[i].refs - 1;
      var mods1 := mods[i := mods[i].(refs := refs)];
      BumpKeepsInv(mods, nextId, global, i, refs);
      SameTest(mods, mods1, i);
      var rest := CloseOut(mods1, nextId, global, i);
      RunAppend(Up(mods, nextId), global, closes, rest);
      assert Without(mods1, i) == Without(mods, i);
      closes := closes + rest;
    }
  }

  lemma TrapAmongMore(mods: seq<Module>, i: nat, cs: set<Module>)
    requires i < |mods| && Trap(Without(mods, i), cs)
    ensures Trap(mods, cs)
  {
    hide Pinned;
    var mods' := Without(mods, i);
    forall c | c in cs
      ensures Present(mods, c)
    {
      var k :| 0 <= k < |mods'| && Core(mods'[k]) == c;
      assert Core(mods[if k < i then k else k + 1]) == c;
    }
  }

  lemma StillNoTrap(mods: seq<Module>, i: nat)
    requires i < |mods| && !HasTrap(mods)
    ensures !HasTrap(Without(mods, i))
  {
    hide Trap;
    if HasTrap(Without(mods, i)) {
      var cs :| cs != {} && Trap(Without(mods, i), cs);
      TrapAmongMore(mods, i, cs);
    }
  }

  lemma {:induction false} EmptyOut(mods: seq<Module>, nextId: nat, global: Option<SymbolTable>)
    returns (closes: seq<Event>)
    requires Inv(mods, nextId, global) && !HasTrap(mods)
    ensures OnlyCloses(closes) && Run(Up(mods, nextId), global, closes) == Up([], nextId)
    decreases |mods|
  {
    hide Inv, HasTrap, Closeable, TestFaults, Step;
    if mods == [] {
      closes := [];
    } else {
      var i := SomeCanGo(mods, nextId, global);
      var first := CloseOut(mods, nextId, global, i);
      UnloadKeepsInv(mods, nextId, global, i);
      StillNoTrap(mods, i);
      var rest := EmptyOut(Without(mods, i), nextId, global);
      closes := first + rest;
      RunAppend(Up(mods, nextId), global, first, rest);
    }
  }

  // ----- The same condition, spelled out

  /** Modules each of which has a name that another of them imports. */
  ghost predicate BlockedSet(mods: seq<Module>, cs: set<Module>) {
    forall c :: c in cs ==> Present(mods, c) && Blocked(c, cs)
  }

  ghost predicate Blocked(c: Module, cs: set<Module>) {
    exists d :: d in cs && d != c && ImportsAnyOf(d, c.Exports())
  }

  /**
   No set of modules blocks itself, and at most one module has no export table, and that one blocks nobody: it has
   to go last, since testing it while another is loaded reads a NULL table.
   */
  ghost predicate Unloadable(mods: seq<Module>) {
    && (forall cs :: cs != {} ==> !BlockedSet(mods, cs))
    && (forall i, j :: 0 <= i < |mods| && 0 <= j < |mods| && i != j && mods[i].exports == None ==>
          mods[j].exports.Some? && !Blocks(mods, i, j))
  }

  lemma TrapMember(mods: seq<Module>, cs: set<Module>, c: Module) returns (i: nat, d: Module)
    requires Trap(mods, cs) && c in cs
    ensures i < |mods| && Core(mods[i]) == c && d in cs && Pins(d, c)
  {
    hide Pins;
    assert Present(mods, c) && Pinned(c, cs);
    i :| 0 <= i < |mods| && Core(mods[i]) == c;
    d :| d in cs && Pins(d, c);
  }

  lemma NotUnloadable(mods: seq<Module>, i: nat, j: nat)
    requires i < |mods| && j < |mods| && i != j && mods[i].exports == None
    requires mods[j].exports == None || Blocks(mods, i, j)
    ensures !Unloadable(mods)
  {
    hide BlockedSet, Blocks;
  }

  lemma Unblocked(mods: seq<Module>, cs: set<Module>) returns (c: Module)
    requires !BlockedSet(mods, cs) && forall c :: c in cs ==> Present(mods, c)
    ensures c in cs && !Blocked(c, cs)
  {
    hide Blocked, Present;
    c :| c in cs && !Blocked(c, cs);
  }

  /** A trap that does not block itself hangs on a module without an export table. */
  lemma TrapSpelledOut(mods: seq<Module>, cs: set<Module>)
    requires cs != {} && Trap(mods, cs)
    ensures !Unloadable(mods)
  {
    hide Pinned, Blocked, Present, BlockedSet, Pins, Blocks;
    if !BlockedSet(mods, cs) {
      var t := Unblocked(mods, cs);
      var i, d := TrapMember(mods, cs, t);
      NoTable(cs, t, d);
      var rest := cs - {t};
      assert d in rest;
      if !BlockedSet(mods, rest) {
        var c := Unblocked(mods, rest);
        LastOneBlocks(mods, cs, i, c);
      }
    }
  }

  lemma NoTable(cs: set<Module>, t: Module, d: Module)
    requires d in cs && Pins(d, t) && !Blocked(t, cs)
    ensures d != t && t.exports == None
  {
    hide ImportsAnyOf;
  }

  lemma LastOneBlocks(mods: seq<Module>, cs: set<Module>, i: nat, c: Module)
    requires Trap(mods, cs) && i < |mods| && mods[i].exports == None
    requires c in cs && c != Core(mods[i]) && !Blocked(c, cs - {Core(mods[i])})
    ensures !Unloadable(mods)
  {
    hide Trap, ImportsAnyOf, Unloadable;
    var j, e := TrapMember(mods, cs, c);
    if mods[j].exports.Some? {
      assert e == Core(mods[i]);
      SameImports(mods[i], e, mods[j].Exports());
    }
    NotUnloadable(mods, i, j);
  }

  lemma UnloadableHasNoTrap(mods: seq<Module>, nextId: nat, global: Option<SymbolTable>)
    requires Inv(mods, nextId, global)
    ensures Unloadable(mods) <==> !HasTrap(mods)
  {
    hide Inv, Trap, BlockedSet, ImportsAnyOf;
    if HasTrap(mods) {
      var cs :| cs != {} && Trap(mods, cs);
      TrapSpelledOut(mods, cs);
    } else {
      forall cs | cs != {}
        ensures !BlockedSet(mods, cs)
      {
        if BlockedSet(mods, cs) {
          BlockedSetIsTrap(mods, cs);
        }
      }
      forall i, j | 0 <= i < |mods| && 0 <= j < |mods| && i != j && mods[i].exports == None
        ensures mods[j].exports.Some? && !Blocks(mods, i, j)
      {
        if mods[j].exports == None || Blocks(mods, i, j) {
          PairIsTrap(mods, nextId, global, i, j);
        }
      }
    }
  }

  lemma BlockedSetIsTrap(mods: seq<Module>, cs: set<Module>)
    requires BlockedSet(mods, cs)
    ensures Trap(mods, cs)
  {
    hide Blocked, Pinned, Present;
    forall c | c in cs
      ensures Pinned(c, cs)
    {
      BlockedIsPinned(c, cs);
    }
  }

  lemma BlockedIsPinned(c: Module, cs: set<Module>)
    requires Blocked(c, cs)
    ensures Pinned(c, cs)
  {
    hide ImportsAnyOf;
    var d :| d in cs && d != c && ImportsAnyOf(d, c.Exports());
    assert Pins(d, c);
  }

  lemma PairIsTrap(mods: seq<Module>, nextId: nat, global: Option<SymbolTable>, i: nat, j: nat)
    requires Inv(mods, nextId, global) && i < |mods| && j < |mods| && i != j && mods[i].exports == None
    requires mods[j].exports == None || Blocks(mods, i, j)
    ensures HasTrap(mods)
  {
    hide Inv, ImportsAnyOf, Trap;
    IdAt(mods, nextId, global, i);
    SameImports(mods[i], Core(mods[i]), mods[j].Exports());
    TwoAreTrap(mods, i, j);
    assert {Core(mods[i]), Core(mods[j])} != {};
  }

  lemma TwoAreTrap(mods: seq<Module>, i: nat, j: nat)
    requires i < |mods| && j < |mods| && Pins(Core(mods[i]), Core(mods[j])) && Pins(Core(mods[j]), Core(mods[i]))
    ensures Trap(mods, {Core(mods[i]), Core(mods[j])})
  {
    hide Pins;
    var a, b := Core(mods[i]), Core(mods[j]);
    assert Present(mods, a) && Present(mods, b);
    assert Pinned(a, {a, b}) && Pinned(b, {a, b});
  }

  /**
   Everything can be unloaded if and only if no set of modules blocks itself, and at most one module lacks an export
   table, and that one blocks nobody. It is a condition on names and tables. Where it fails, no run at all, opens
   included, ends with an empty list.
   */
  lemma EmptiesIff(mods: seq<Module>, nextId: nat, global: Option<SymbolTable>)
    requires Inv(mods, nextId, global)
    ensures CanEmpty(mods, nextId, global) <==> Unloadable(mods)
    ensures !Unloadable(mods) ==>
      forall events :: Run(Up(mods, nextId), global, events).Up? ==> Run(Up(mods, nextId), global, events).mods != []
  {
    hide Inv, Pinned, Run, Pins, Unloadable;
    UnloadableHasNoTrap(mods, nextId, global);
    if HasTrap(mods) {
      var cs :| cs != {} && Trap(mods, cs);
      var c :| c in cs;
      forall events | Run(Up(mods, nextId), global, events).Up?
        ensures Run(Up(mods, nextId), global, events).mods != []
      {
        TrapIsForGood(Up(mods, nextId), global, events, cs);
        assert Present(Run(Up(mods, nextId), global, events).mods, c);
      }
    } else {
      var closes := EmptyOut(mods, nextId, global);
    }
  }

  // ----- Two modules that block each other

  const X: Name := [0x78]
  const Y: Name := [0x79]
  const MAIN_BINARY := Some([Symbol(Y, 0x8000_1000, 0, 1)])
  const FILE_A := UsoFile(Some([Symbol(X, 0x8010_0000, 1, 1)]), Some([Symbol(Y, 0, 0, 1)]))
  const FILE_B := UsoFile(Some([Symbol(Y, 0x8020_0000, 1, 1)]), Some([Symbol(X, 0, 0, 1)]))

  /**
   Without disjointness two modules can keep each other loaded for good. A imports y from the main binary and
   exports x; B imports x from A and exports another y. Whatever is opened and closed afterwards, in any order, both
   stay as long as the program runs, though nobody is bound to B: the test by name fails for no good reason.
   */
  lemma MutualBlock(events: seq<Event>)
    ensures Legal([Open(X, Some(FILE_A)), Open(Y, Some(FILE_B))])
    ensures
      var l := Run(Up([], 0), MAIN_BINARY, [Open(X, Some(FILE_A)), Open(Y, Some(FILE_B))]);
      && l.Up? && |l.mods| == 2 && l.mods[0].id == 0 && l.mods[1].id == 1
      && !InUse(l.mods, 1) && !Closeable(l.mods, 1)
      && var l' := Run(l, MAIN_BINARY, events);
         l'.Up? ==> IndexOfId(l'.mods, 0) < |l'.mods| && IndexOfId(l'.mods, 1) < |l'.mods|
  {
    var a := Module(0, X, 1, FILE_A.exports, Some([Symbol(Y, 0x8000_1000, 0, 1)]), [FromGlobal]);
    var b := Module(1, Y, 1, FILE_B.exports, Some([Symbol(X, 0x8010_0000, 0, 1)]), [FromUso(0)]);
    FirstLoad(a);
    SecondLoad(a, b);
    TwoOpens(a, b);
    BothBlocked(a, b);
    NobodyUsesSecond(a, b);
    hide OpenStep, Closeable, Run;
    if Run(Up([a, b], 2), MAIN_BINARY, events).Up? {
      StuckForever(Up([a, b], 2), MAIN_BINARY, events, 0, 1);
    }
  }

  lemma NobodyUsesSecond(a: Module, b: Module)
    requires a.id == 0 && b.id == 1 && a.providers == [FromGlobal] && b.providers == [FromUso(0)]
    requires Blocks([a, b], 0, 1)
    ensures !InUse([a, b], 1) && !Closeable([a, b], 1)
  {
    hide ImportsAnyOf;
    assert ImportsAnyOf([a, b][0], [a, b][1].Exports());
  }

  lemma TwoOpens(a: Module, b: Module)
    requires OpenStep([], 0, MAIN_BINARY, X, Some(FILE_A)) == [a]
    requires OpenStep([a], 1, MAIN_BINARY, Y, Some(FILE_B)) == [a, b]
    ensures Run(Up([], 0), MAIN_BINARY, [Open(X, Some(FILE_A)), Open(Y, Some(FILE_B))]) == Up([a, b], 2)
  {
    hide OpenStep;
    var e, f := Open(X, Some(FILE_A)), Open(Y, Some(FILE_B));
    var events := [e, f];
    assert events[1..] == [f] && [f][1..] == [];
    assert Run(Up([], 0), MAIN_BINARY, events) == Run(Up([a], 1), MAIN_BINARY, [f]);
    assert Run(Up([a], 1), MAIN_BINARY, [f]) == Run(Up([a, b], 2), MAIN_BINARY, []);
  }

  lemma FirstLoad(a: Module)
    requires a == Module(0, X, 1, FILE_A.exports, Some([Symbol(Y, 0x8000_1000, 0, 1)]), [FromGlobal])
    ensures OpenStep([], 0, MAIN_BINARY, X, Some(FILE_A)) == [a]
  {
    var t := FILE_A.imports.value;
    assert Lookup(MAIN_BINARY.value, Y) == 0x8000_1000;
    assert Resolve([], MAIN_BINARY, Y) == 0x8000_1000 && ProviderOf([], MAIN_BINARY, Y) == FromGlobal;
    assert ResolveTable(t, [], MAIN_BINARY) == a.imports.value;
    assert ProvidersOf(t, [], MAIN_BINARY) == a.providers;
  }

  lemma SecondLoad(a: Module, b: Module)
    requires a == Module(0, X, 1, FILE_A.exports, Some([Symbol(Y, 0x8000_1000, 0, 1)]), [FromGlobal])
    requires b == Module(1, Y, 1, FILE_B.exports, Some([Symbol(X, 0x8010_0000, 0, 1)]), [FromUso(0)])
    ensures OpenStep([a], 1, MAIN_BINARY, Y, Some(FILE_B)) == [a, b]
  {
    var t := FILE_B.imports.value;
    assert X[0] != Y[0];
    assert Lookup(FILE_A.exports.value, X) == 0x8010_0000;
    assert FirstExporter([a], X) == 0;
    assert Resolve([a], MAIN_BINARY, X) == 0x8010_0000 && ProviderOf([a], MAIN_BINARY, X) == FromUso(0);
    assert ResolveTable(t, [a], MAIN_BINARY) == b.imports.value;
    assert ProvidersOf(t, [a], MAIN_BINARY) == b.providers;
    assert IndexOfName([a], Y) == 1;
  }

  lemma BothBlocked(a: Module, b: Module)
    requires a.exports == FILE_A.exports && a.imports == Some([Symbol(Y, 0x8000_1000, 0, 1)])
    requires b.exports == FILE_B.exports && b.imports == Some([Symbol(X, 0x8010_0000, 0, 1)])
    ensures Blocks([a, b], 0, 1) && Blocks([a, b], 1, 0)
  {
    assert LookupIn(b.imports, a.Exports()[0].name) != 0;
    assert LookupIn(a.imports, b.Exports()[0].name) != 0;
    assert ImportsAnyOf([a, b][1], [a, b][0].Exports());
    assert ImportsAnyOf([a, b][0], [a, b][1].Exports());
  }

  // ----- Two modules without exports

  const BARE := UsoFile(None, None)

  /** The unload test reads a NULL export table as soon as another module is loaded; alone, the module goes. */
  lemma BareModuleHalts()
    ensures Legal([Open(X, Some(BARE)), Open(Y, Some(BARE)), Close(0)])
    ensures Run(Up([], 0), None, [Open(X, Some(BARE)), Open(Y, Some(BARE)), Close(0)]) == Halted
    ensures Run(Up([], 0), None, [Open(X, Some(BARE)), Close(0)]) == Up([], 1)
  {
    hide Step;
    var a, b := Module(0, X, 1, None, None, []), Module(1, Y, 1, None, None, []);
    var e, f := Open(X, Some(BARE)), Open(Y, Some(BARE));
    BareSteps(a, b);
    RunTwo(Up([], 0), e, Close(0));
    RunTwo(Up([a], 1), f, Close(0));
    assert [e, f, Close(0)][1..] == [f, Close(0)];
  }

  lemma BareSteps(a: Module, b: Module)
    requires a == Module(0, X, 1, None, None, []) && b == Module(1, Y, 1, None, None, [])
    ensures Step(Up([], 0), None, Open(X, Some(BARE))) == Up([a], 1)
    ensures Step(Up([a], 1), None, Open(Y, Some(BARE))) == Up([a, b], 2)
    ensures Step(Up([a, b], 2), None, Close(0)) == Halted && Step(Up([a], 1), None, Close(0)) == Up([], 1)
  {
    assert X[0] != Y[0] && IndexOfName([a], Y) == 1;
    assert IndexOfId([a, b], 0) == 0 && TestFaults([a, b], 0);
    assert CloseStep([a], 0) == [];
  }

  lemma RunTwo(l: Loader, e: Event, f: Event)
    ensures Run(l, None, [e, f]) == Step(Step(l, None, e), None, f)
  {
    hide Step;
    assert [e, f][1..] == [f] && [f][1..] == [];
    assert Run(Step(l, None, e), None, [f]) == Run(Step(Step(l, None, e), None, f), None, []);
  }
}
