/**
 The run-time loader on the heap: the doubly linked list of handles and the calls that change it
 (src/uso.c:67-143, 191-212, 331-350, 435-456, 478-607). Each call is proved to take the step that
 module Lifecycle specifies.
 */
module Loader {
  import opened Words
  import opened CStrings
  import opened Symbols
  import opened Fixups
  import opened Lifecycle
  import R = Relocs
  import MipsAbi
  import opened SymbolCodec

  /** The header and tables of a USO after loading; nothing writes to them any more. */
  datatype Uso = Uso(sections: seq<Section>, imports: Option<SymbolTable>, exports: Option<SymbolTable>)

  /** (uso_handle_t *)(-1), src/uso.h:8 */
  const USO_HANDLE_ANY: U32 := 0xffff_ffff

  /** struct uso_handle_data; `addr` is where malloc put it, which is the handle the program gets. */
  class Handle {
    const addr: U32
    var next: Handle?
    var prev: Handle?
    const uso: Uso
    var refCount: U32
    const name: Name
    ghost const id: nat
    ghost const providers: seq<Provider>

    constructor (addr: U32, name: Name, uso: Uso, ghost id: nat, ghost providers: seq<Provider>)
      ensures this.addr == addr && this.name == name && this.uso == uso && this.id == id
      ensures this.providers == providers && refCount == 1
    {
      this.addr, this.name, this.uso, this.refCount := addr, name, uso, 1;
      this.next, this.prev := null, null;
      this.id, this.providers := id, providers;
    }

    ghost function View(): Module
      reads this`refCount
    {
      Module(id, name, refCount, uso.exports, uso.imports, providers)
    }
  }

  ghost function Views(nodes: seq<Handle>): (r: seq<Module>)
    reads nodes
    ensures |r| == |nodes| && forall i :: 0 <= i < |nodes| ==> r[i] == nodes[i].View()
    decreases |nodes|
  {
    if nodes == [] then [] else [nodes[0].View()] + Views(nodes[1..])
  }

  /** Names are C strings, and live handles have different addresses. */
  ghost predicate Identified(nodes: seq<Handle>) {
    && (forall i :: 0 <= i < |nodes| ==> NulFree(nodes[i].name))
    && forall i, j :: 0 <= i < j < |nodes| ==> nodes[i].addr != nodes[j].addr
  }

  lemma IdentifiedAppend(nodes: seq<Handle>, handle: Handle)
    requires Identified(nodes) && NulFree(handle.name)
    requires forall i :: 0 <= i < |nodes| ==> nodes[i].addr != handle.addr
    ensures Identified(nodes + [handle])
  {
    hide NulFree;
  }

  lemma IdentifiedWithout(nodes: seq<Handle>, i: nat)
    requires Identified(nodes) && i < |nodes|
    ensures Identified(Without(nodes, i))
  {
    hide NulFree;
    var rest := Without(nodes, i);
    assert forall k :: 0 <= k < |rest| ==> rest[k] == nodes[if k < i then k else k + 1];
  }

  /** The loader's global variables. */
  class UsoList {
    var head: Handle?
    var tail: Handle?
    const globalSyms: Option<SymbolTable>
    ghost var nodes: seq<Handle>
    ghost var nextId: nat

    /** The links spell out `nodes`, forwards and backwards. */
    ghost predicate Linked()
      reads this`head, this`tail, this`nodes, nodes
    {
      && head == (if nodes == [] then null else nodes[0])
      && tail == (if nodes == [] then null else nodes[|nodes| - 1])
      && (forall i {:trigger nodes[i].prev} :: 0 <= i < |nodes| ==>
            nodes[i].prev == if i == 0 then null else nodes[i - 1])
      && (forall i {:trigger nodes[i].next} :: 0 <= i < |nodes| ==>
            nodes[i].next == if i == |nodes| - 1 then null else nodes[i + 1])
      && (forall i, j :: 0 <= i < j < |nodes| ==> nodes[i] != nodes[j])
    }

    ghost function View(): (r: seq<Module>)
      reads this`nodes, nodes
      ensures |r| == |nodes| && forall i :: 0 <= i < |nodes| ==> r[i] == nodes[i].View()
    {
      Views(nodes)
    }

    ghost predicate Valid()
      reads this, nodes
    {
      && Linked()
      && Inv(View(), nextId, globalSyms)
      && (globalSyms.Some? ==> Sorted(globalSyms.value))
      && Identified(nodes)
    }

    /** An empty list and the main binary's symbols. */
    constructor (globals: SymbolTable)
      requires Sorted(globals)
      ensures Valid() && nodes == [] && nextId == 0 && globalSyms == Some(globals)
    {
      head, tail := null, null;
      globalSyms := Some(globals);
      nodes, nextId := [], 0;
    }

    /**
     uso_init: copies the global symbol file to the block at `block` and fixes up its name pointers. Without a file the
     assertion fails, and there is no list.
     */
    static method UsoInit(file: Option<seq<Byte>>, block: U32) returns (list: UsoList?)
      requires file.Some? ==> var f := file.value;
                 4 <= |f| && 4 + 12 * Word(f, 0) <= |f| && Sorted(LoadedTable(f, 0))
      ensures list == null <==> file == None
      ensures list != null ==>
                fresh(list) && list.Valid() && list.nodes == [] && list.nextId == 0
                && list.globalSyms == Some(LoadedTable(file.value, 0))
    {
      hide Sorted, Word, LoadedTable;
      list := null;
      if file.Some? {
        var table := NamedTable(file.value, block, 0);
        list := new UsoList(table);
      }
    }

    method InsertUso(handle: Handle)
      requires Linked() && handle !in nodes
      modifies this`head, this`tail, this`nodes, nodes`next, handle`next, handle`prev
      ensures Linked() && nodes == old(nodes) + [handle]
    {
      var prev := tail;
      if prev == null {
        head := handle;
      } else {
        prev.next := handle;
      }
      handle.prev := prev;
      handle.next := null;
      tail := handle;
      nodes := nodes + [handle];
    }

    method RemoveUso(handle: Handle, ghost i: nat)
      requires Linked() && i < |nodes| && nodes[i] == handle
      modifies this`head, this`tail, this`nodes, nodes`next, nodes`prev
      ensures Linked() && nodes == Without(old(nodes), i)
    {
      ghost var was := nodes;
      assert 0 < i ==> was[i - 1].next == handle;
      assert i + 1 < |was| ==> was[i + 1].prev == handle;
      var next := handle.next;
      var prev := handle.prev;
      if next == null {
        tail := prev;
      } else {
        next.prev := prev;
      }
      if prev == null {
        head := next;
      } else {
        prev.next := next;
      }
      nodes := Without(was, i);
      assert forall k :: 0 <= k < i ==> nodes[k] == was[k];
      assert forall k :: i <= k < |nodes| ==> nodes[k] == was[k + 1];
    }

    /** uso_is_handle_valid, with the structure the pointer leads to if it is valid. */
    method IsHandleValid(ptr: U32) returns (valid: bool, handle: Handle?)
      requires Linked()
      ensures valid <==> exists i :: 0 <= i < |nodes| && nodes[i].addr == ptr
      ensures if valid then handle != null && handle in nodes && handle.addr == ptr else handle == null
    {
      handle := head;
      ghost var i := 0;
      while handle != null
        invariant 0 <= i <= |nodes|
        invariant handle == if i < |nodes| then nodes[i] else null
        invariant forall k :: 0 <= k < i ==> nodes[k].addr != ptr
        decreases |nodes| - i
      {
        if handle.addr == ptr {
          return true, handle;
        }
        handle := handle.next;
        i := i + 1;
      }
      valid := false;
    }

    /** uso_get_handle: strcmp against every loaded name. */
    method UsoGetHandle(filename: Name) returns (handle: Handle?)
      requires Valid() && NulFree(filename)
      ensures handle == var i := IndexOfName(View(), filename); if i < |nodes| then nodes[i] else null
    {
      hide Inv, StrCmp, View;
      ghost var view := View();
      var curr := head;
      ghost var i := 0;
      while curr != null
        invariant 0 <= i <= |nodes|
        invariant curr == if i < |nodes| then nodes[i] else null
        invariant forall k :: 0 <= k < i ==> view[k].name != filename
        decreases |nodes| - i
      {
        StrCmpIsStringOrder(curr.name, filename, [], []);
        if SymbolCompare(curr.name, filename) == 0 {
          assert view[i].name == filename;
          return curr;
        }
        curr := curr.next;
        i := i + 1;
      }
      handle := null;
    }

    /** uso_get_handle_ptr: the first loaded USO, in load order, with a section around the pointer. */
    method UsoGetHandlePtr(ptr: U32) returns (handle: Handle?)
      requires Linked()
      ensures handle == null ==> forall k :: 0 <= k < |nodes| ==> !Inside(nodes[k].uso, ptr)
      ensures handle != null ==> exists i :: 0 <= i < |nodes| && nodes[i] == handle && Inside(nodes[i].uso, ptr)
                                             && forall k :: 0 <= k < i ==> !Inside(nodes[k].uso, ptr)
      ensures ptr == 0 ==> handle == null
    {
      hide Inside;
      handle := head;
      ghost var i := 0;
      while handle != null
        invariant 0 <= i <= |nodes|
        invariant handle == if i < |nodes| then nodes[i] else null
        invariant forall k :: 0 <= k < i ==> !Inside(nodes[k].uso, ptr)
        decreases |nodes| - i
      {
        var inside := IsPtrInsideUso(handle.uso, ptr);
        if inside {
          return;
        }
        handle := handle.next;
        i := i + 1;
      }
    }

    /** search_loaded_symbols: every export table in load order, then the main binary if asked for. */
    method SearchLoadedSymbols(name: Name, searchGlobal: bool) returns (ptr: U32)
      requires Valid() && NulFree(name)
      ensures ptr == Resolve(View(), if searchGlobal then globalSyms else None, name)
    {
      ghost var view := View();
      ghost var global := if searchGlobal then globalSyms else None;
      hide Inv, Sorted, Lookup, Resolve, View;
      InvWellFormed(view, nextId, globalSyms);
      var curr := head;
      ghost var i := 0;
      while curr != null
        invariant 0 <= i <= |nodes|
        invariant curr == if i < |nodes| then nodes[i] else null
        invariant forall k :: 0 <= k < i ==> LookupIn(view[k].exports, name) == 0
        decreases |nodes| - i
      {
        assert view[i] == nodes[i].View();
        ptr := SearchSymbolTable(curr.uso.exports, name);
        if ptr != 0 {
          ResolveIsFirstMatch(view, global, name, i);
          return;
        }
        curr := curr.next;
        i := i + 1;
      }
      ResolveIsFirstMatch(view, global, name, i);
      if searchGlobal {
        ptr := SearchSymbolTable(globalSyms, name);
      } else {
        ptr := 0;
      }
    }

    /** The body of the loop in fixup_import_syms (src/uso.c:198-208). */
    method ResolveImport(symTable: array<Symbol>, i: nat) returns (linked: bool)
      requires Valid() && i < symTable.Length && NulFree(symTable[i].name)
      modifies symTable
      ensures Valid() && View() == old(View())
      ensures var s := old(symTable[i]);
              && symTable[..] == old(symTable[..])[i := s.(ptr := Resolve(View(), globalSyms, s.name))]
              && linked == (s.IsWeak() || Resolve(View(), globalSyms, s.name) != 0)
    {
      hide *;
      var ptr := SearchLoadedSymbols(symTable[i].name, true);
      assert (if true then globalSyms else None) == globalSyms;
      linked := symTable[i].IsWeak() || ptr != 0;
      symTable[i] := symTable[i].(ptr := ptr);
    }

    /** fixup_import_syms: writes the resolved pointers, in place, and says whether linking may go on. */
    method FixupImportSyms(symTable: array<Symbol>) returns (result: bool)
      requires Valid() && Sorted(symTable[..])
      modifies symTable
      ensures Valid() && View() == old(View())
      ensures symTable[..] == ResolveTable(old(symTable[..]), View(), globalSyms)
      ensures result == Links(old(symTable[..]), View(), globalSyms)
    {
      ghost var was, view, global := symTable[..], View(), globalSyms;
      NamesAreNulFree(was);
      ResolvingStarts(was, view, global);
      hide *;
      result := true;
      for i := 0 to symTable.Length
        invariant Valid() && View() == view
        invariant Resolving(was, symTable[..], view, global, i)
        invariant result == Links(was[..i], view, global)
      {
        ResolvingAt(was, symTable[..], view, global, i);
        OneMoreLink(was, view, global, i);
        var linked := ResolveImport(symTable, i);
        result := result && linked;
      }
      assert was[..symTable.Length] == was;
      ResolvedAll(was, symTable[..], view, global);
    }

    /** fixup_uso on a new block: sections first, then exports, then imports (src/uso.c:331-350). */
    method LoadUso(image: UsoImage, base: U32) returns (uso: Uso, ok: bool)
      requires Valid() && image.WellFormed()
      ensures Valid() && View() == old(View())
      ensures uso.exports == ExportsAt(image, base) && uso.sections == FixedTable(image, base)
      ensures ok == (image.imports.Some? ==> Links(image.imports.value, View(), globalSyms))
      ensures uso.imports == if image.imports == None then None
                             else Some(ResolveTable(image.imports.value, View(), globalSyms))
    {
      hide Valid, View, Links, ResolveTable, ExportsAt, FixedTable, Sorted;
      var sections, exports := FixedParts(image, base);
      uso, ok := Uso(sections, None, exports), true;
      if image.imports.Some? {
        var t := image.imports.value;
        var imports := new Symbol[|t|](i requires 0 <= i < |t| => t[i]);
        assert imports[..] == t;
        ok := FixupImportSyms(imports);
        uso := uso.(imports := Some(imports[..]));
      }
    }

    /**
     fixup_uso: the fixups, and the link if no import is missing. `memory` is the data of the sections, and
     `relocs` their relocation tables; every section is linked against the sections' run-time addresses and
     the pointers just resolved. `halted` is the assertion on an invalid relocation type.
     */
    method FixupUso(image: UsoImage, base: U32, memory: seq<array<Byte>>, relocs: seq<RelocTables>)
      returns (halted: bool, uso: Uso, ok: bool)
      requires Valid() && image.WellFormed() && Linkable(image, memory, relocs)
      modifies memory
      ensures Valid() && View() == old(View())
      ensures uso.exports == ExportsAt(image, base) && uso.sections == FixedTable(image, base)
      ensures ok == (image.imports.Some? ==> Links(image.imports.value, View(), globalSyms))
      ensures uso.imports == if image.imports == None then None
                             else Some(ResolveTable(image.imports.value, View(), globalSyms))
      ensures halted <==> ok && HasInvalidType(FixedTable(image, base), relocs)
      ensures ok && !halted ==> LinkedInto(uso, image, base, old(Contents(memory)), Contents(memory), relocs)
      ensures !ok ==> Contents(memory) == old(Contents(memory))
    {
      hide Valid, View, Links, ResolveTable, ExportsAt, FixedTable, R.LinkableWith, R.Linked, R.TableOf;
      uso, ok := LoadUso(image, base);
      halted := false;
      if ok {
        var units := seq(|relocs|, i requires 0 <= i < |relocs| =>
          R.LinkUnit(uso.sections[i].data, relocs[i].internal, relocs[i].external));
        UnitsLinkable(image, memory, relocs, units, uso);
        var linked := R.LinkUso(memory, units, ScopeOf(uso));
        halted := !linked;
      }
    }

    method SetRefCount(handle: Handle, ghost i: nat, refs: U32)
      requires Valid() && i < |nodes| && nodes[i] == handle
      modifies handle`refCount
      ensures Valid() && View() == old(View())[i := old(View())[i].(refs := refs)]
    {
      hide Inv, View;
      ghost var view := View();
      BumpKeepsInv(view, nextId, globalSyms, i, refs);
      handle.refCount := refs;
      assert View() == view[i := view[i].(refs := refs)];
    }

    /** The end of uso_open: a new handle at the end of the list. */
    method AddHandle(addr: U32, filename: Name, uso: Uso, ghost m: Module, ghost view: seq<Module>)
      returns (handle: Handle)
      requires Valid() && NulFree(filename) && view == View()
      requires m == Module(nextId, filename, 1, uso.exports, uso.imports, m.providers)
      requires Inv(view + [m], nextId + 1, globalSyms)
      requires forall i :: 0 <= i < |nodes| ==> nodes[i].addr != addr
      modifies this`head, this`tail, this`nodes, this`nextId, nodes`next
      ensures Valid() && nextId == old(nextId) + 1
      ensures View() == view + [m] && nodes == old(nodes) + [handle]
      ensures handle.uso == uso && handle.addr == addr
    {
      hide Inv, View, NulFree, Linked, Identified;
      handle := new Handle(addr, filename, uso, nextId, m.providers);
      IdentifiedAppend(nodes, handle);
      AppendHandle(handle, m);
      nextId := nextId + 1;
    }

    method AppendHandle(handle: Handle, ghost m: Module)
      requires Linked() && handle !in nodes && handle.View() == m
      modifies this`head, this`tail, this`nodes, nodes`next, handle`next, handle`prev
      ensures Linked() && nodes == old(nodes) + [handle] && View() == old(View()) + [m]
    {
      hide View, Linked;
      ghost var view := View();
      InsertUso(handle);
      assert View() == view + [m];
    }

    method DropHandle(handle: Handle, ghost i: nat)
      requires Linked() && i < |nodes| && nodes[i] == handle
      modifies this`head, this`tail, this`nodes, nodes`next, nodes`prev
      ensures Linked() && nodes == Without(old(nodes), i) && View() == Without(old(View()), i)
    {
      hide View, Linked;
      ghost var view := View();
      RemoveUso(handle, i);
      assert View() == Without(view, i);
    }

    /**
     uso_open. `file` is the file of that name, if there is one; `addr` and `base` are the blocks that malloc and
     memalign return for it; `memory` and `relocs` are what the file has for each section. `halted` is the assertion
     on an invalid relocation type. Otherwise the step is the specified one: an open handle gains a reference, a
     failed load changes nothing, and a successful one is appended with its imports resolved and its sections
     linked. `nextId` is ghost and merely numbers the calls.
     */
    method UsoOpen(filename: Name, file: Option<UsoImage>, addr: U32, base: U32, memory: seq<array<Byte>>,
                   relocs: seq<RelocTables>)
      returns (halted: bool, handle: Handle?)
      requires Valid() && NulFree(filename)
      requires forall i :: 0 <= i < |nodes| ==> nodes[i].addr != addr
      requires file.Some? ==> file.value.WellFormed() && Linkable(file.value, memory, relocs)
      modifies this`head, this`tail, this`nodes, this`nextId, nodes`next, nodes`refCount, memory
      ensures halted <==>
                && IndexOfName(old(View()), filename) == |old(nodes)| && file.Some?
                && (file.value.imports.Some? ==> Links(file.value.imports.value, old(View()), globalSyms))
                && HasInvalidType(FixedTable(file.value, base), relocs)
      ensures !halted ==> Valid() && nextId == old(nextId) + 1
      ensures !halted ==> View() == OpenStep(old(View()), old(nextId), globalSyms, filename, FileAt(file, base))
      ensures !halted ==> handle == var i := IndexOfName(View(), filename); if i < |nodes| then nodes[i] else null
      ensures !halted ==>
                if |nodes| > |old(nodes)| then
                  file.Some? && handle != null && handle.addr == addr
                  && LinkedInto(handle.uso, file.value, base, old(Contents(memory)), Contents(memory), relocs)
                else Contents(memory) == old(Contents(memory))
    {
      hide Valid, View, OpenStep, IndexOfName, Linkable, LinkedInto, Contents, HasInvalidType, Links, FixedTable;
      halted := false;
      handle := UsoGetHandle(filename);
      if handle != null {
        Reopen(filename, file, base, handle);
      } else if file == None {
        assert FileAt(file, base) == None;
        OpenStepIs(View(), nextId, globalSyms, filename, None);
        BumpId(View());
      } else {
        halted, handle := LoadNew(filename, file.value, addr, base, memory, relocs);
      }
    }

    /** Every call is numbered, whatever it does. */
    ghost method BumpId(view: seq<Module>)
      requires Valid() && View() == view
      modifies this`nextId
      ensures Valid() && View() == view && nextId == old(nextId) + 1
    {
      hide Inv, Linked, View;
      MoreIds(view, nextId, globalSyms);
      nextId := nextId + 1;
    }

    method Reopen(filename: Name, ghost file: Option<UsoImage>, ghost base: U32, handle: Handle)
      requires Valid() && (file.Some? ==> file.value.WellFormed())
      requires var i := IndexOfName(View(), filename); i < |nodes| && nodes[i] == handle
      modifies this`nextId, handle`refCount
      ensures Valid() && nextId == old(nextId) + 1
      ensures View() == OpenStep(old(View()), old(nextId), globalSyms, filename, FileAt(file, base))
      ensures var i := IndexOfName(View(), filename); i < |nodes| && nodes[i] == handle
    {
      hide Valid, View, OpenStep, IndexOfName, FileAt, Trunc32;
      ghost var view := View();
      OpenStepIs(view, nextId, globalSyms, filename, FileAt(file, base));
      ghost var i := IndexOfName(view, filename);
      BumpId(view);
      SetRefCount(handle, i, Trunc32(handle.refCount as int + 1));
    }

    method LoadNew(filename: Name, image: UsoImage, addr: U32, base: U32, memory: seq<array<Byte>>,
                   relocs: seq<RelocTables>)
      returns (halted: bool, handle: Handle?)
      requires Valid() && NulFree(filename) && image.WellFormed() && Linkable(image, memory, relocs)
      requires forall i :: 0 <= i < |nodes| ==> nodes[i].addr != addr
      requires IndexOfName(View(), filename) == |nodes|
      modifies this`head, this`tail, this`nodes, this`nextId, nodes`next, memory
      ensures halted <==>
                && (image.imports.Some? ==> Links(image.imports.value, old(View()), globalSyms))
                && HasInvalidType(FixedTable(image, base), relocs)
      ensures !halted ==> Valid() && nextId == old(nextId) + 1
      ensures !halted ==>
                View() == OpenStep(old(View()), old(nextId), globalSyms, filename, FileAt(Some(image), base))
      ensures !halted ==> handle == var i := IndexOfName(View(), filename); if i < |nodes| then nodes[i] else null
      ensures !halted ==>
                if |nodes| > |old(nodes)| then
                  handle != null && handle.addr == addr
                  && LinkedInto(handle.uso, image, base, old(Contents(memory)), Contents(memory), relocs)
                else Contents(memory) == old(Contents(memory))
    {
      hide Inv, OpenStep, View, Linked, Links, NulFree, ResolveTable, ProvidersOf, ExportsAt, Linkable, FixedTable,
           LinkedInto, Contents, HasInvalidType;
      ghost var view := View();
      ghost var file := FileAt(Some(image), base);
      OpenKeepsInv(view, nextId, globalSyms, filename, file);
      OpenStepIs(view, nextId, globalSyms, filename, file);
      var uso, ok;
      halted, uso, ok := FixupUso(image, base, memory, relocs);
      handle := null;
      if halted {
        return;
      }
      if ok {
        handle := AddHandle(addr, filename, uso, Loaded(file.value, nextId, filename, view, globalSyms), view);
      } else {
        BumpId(view);
      }
    }

    /** The inner loop of is_uso_closeable (src/uso.c:447-451). */
    method ImportsSome(imports: Option<SymbolTable>, exports: SymbolTable, ghost m: Module) returns (found: bool)
      requires imports == m.imports && (imports.Some? ==> Sorted(imports.value)) && Sorted(exports)
      ensures found == ImportsAnyOf(m, exports)
    {
      NamesAreNulFree(exports);
      hide Sorted, Lookup, NulFree;
      for i := 0 to |exports|
        invariant forall e :: 0 <= e < i ==> LookupIn(m.imports, exports[e].name) == 0
      {
        var ptr := SearchSymbolTable(imports, exports[i].name);
        if ptr != 0 {
          return true;
        }
      }
      found := false;
    }

    /**
     is_uso_closeable. `fault` is the read through a NULL export table (src/uso.c:447), which happens at the
     first other module.
     */
    method IsUsoCloseable(handle: Handle, ghost i: nat) returns (fault: bool, closeable: bool)
      requires Valid() && i < |nodes| && nodes[i] == handle
      ensures fault == TestFaults(View(), i)
      ensures !fault ==> closeable == Closeable(View(), i)
    {
      hide Inv, View, Sorted, ImportsAnyOf;
      ghost var view := View();
      InvWellFormed(view, nextId, globalSyms);
      var exports := handle.uso.exports;
      var curr := head;
      ghost var j := 0;
      while curr != null
        invariant 0 <= j <= |nodes|
        invariant curr == if j < |nodes| then nodes[j] else null
        invariant exports == None ==> j == 0 || (j == 1 && i == 0)
        invariant exports.Some? ==> forall k :: 0 <= k < j && k != i ==> !ImportsAnyOf(view[k], exports.value)
        decreases |nodes| - j
      {
        if curr != handle {
          if exports == None {
            assert i != j;
            return true, false;
          }
          assert view[j] == nodes[j].View();
          var found := ImportsSome(curr.uso.imports, exports.value, view[j]);
          if found {
            return false, false;
          }
        }
        curr := curr.next;
        j := j + 1;
      }
      fault, closeable := false, true;
    }

    /**
     uso_close. `halted` is a failed assertion on an unknown handle, or the NULL read of the unload test.
     Otherwise the step is the specified one: one reference less, and unloading exactly when none is left
     and no other module imports by name.
     */
    method UsoClose(ptr: U32) returns (halted: bool)
      requires Valid()
      modifies this`head, this`tail, this`nodes, nodes`next, nodes`prev, nodes`refCount
      ensures (forall i :: 0 <= i < |old(nodes)| ==> old(nodes)[i].addr != ptr) ==> halted
      ensures forall i :: 0 <= i < |old(nodes)| && old(nodes)[i].addr == ptr ==>
                && halted == TestFaults(old(View()), i)
                && (!halted ==> Valid() && View() == CloseStep(old(View()), i))
    {
      hide Inv, View, CloseStep;
      var valid, handle := IsHandleValid(ptr);
      if !valid {
        return true;
      }
      ghost var i :| 0 <= i < |nodes| && nodes[i] == handle;
      halted := CloseAt(handle, i);
    }

    method CloseAt(handle: Handle, ghost i: nat) returns (halted: bool)
      requires Valid() && i < |nodes| && nodes[i] == handle
      modifies this`head, this`tail, this`nodes, nodes`next, nodes`prev, nodes`refCount
      ensures halted == TestFaults(old(View()), i)
      ensures !halted ==> Valid() && View() == CloseStep(old(View()), i)
    {
      hide Inv, View, Closeable, Linked, CloseStep, TestFaults, Identified, Without;
      ghost var view := View();
      CloseKeepsInv(view, nextId, globalSyms, i);
      var refs: U32 := if handle.refCount != 0 then handle.refCount - 1 else 0;
      SetRefCount(handle, i, refs);
      CloseOutcome(view, i, refs);
      var fault, closeable := IsUsoCloseable(handle, i);
      if fault {
        return true;
      }
      if closeable && handle.refCount == 0 {
        IdentifiedWithout(nodes, i);
        DropHandle(handle, i);
      }
      halted := false;
    }

    method SymIn(handle: Handle, name: Name) returns (ptr: U32)
      requires Valid() && NulFree(name) && handle in nodes
      ensures ptr == LookupIn(handle.uso.exports, name)
    {
      hide Inv, Linked, Sorted, Identified, View, Lookup;
      ghost var view := View();
      InvWellFormed(view, nextId, globalSyms);
      ghost var i :| 0 <= i < |nodes| && nodes[i] == handle;
      assert view[i] == handle.View();
      ptr := SearchSymbolTable(handle.uso.exports, name);
    }

    /** uso_sym with a handle, or with USO_HANDLE_ANY; an unknown handle fails the assertion. */
    method UsoSym(handlePtr: U32, name: Name) returns (halted: bool, ptr: U32)
      requires Valid() && NulFree(name)
      ensures handlePtr == USO_HANDLE_ANY ==> !halted && ptr == Resolve(View(), None, name)
      ensures handlePtr != USO_HANDLE_ANY ==> (halted <==> forall i :: 0 <= i < |nodes| ==> nodes[i].addr != handlePtr)
      ensures handlePtr != USO_HANDLE_ANY && !halted ==>
                forall i :: 0 <= i < |nodes| && nodes[i].addr == handlePtr ==>
                  ptr == LookupIn(nodes[i].uso.exports, name)
    {
      hide Inv, Linked, View, Resolve, NulFree, Lookup;
      halted, ptr := false, 0;
      if handlePtr == USO_HANDLE_ANY {
        ptr := SearchLoadedSymbols(name, false);
      } else {
        var valid, handle := IsHandleValid(handlePtr);
        if valid {
          ptr := SymIn(handle, name);
        } else {
          halted := true;
        }
      }
    }
  }

  /** Some section that is not at NULL has the pointer between its start and its end. */
  predicate Inside(uso: Uso, ptr: U32) {
    exists i :: 0 <= i < |uso.sections| && InSection(uso.sections[i], ptr)
  }

  predicate InSection(s: Section, ptr: U32) { s.data != 0 && s.data <= ptr < Trunc32(s.data + s.size) }

  /** From the first byte of a section to its last, and not beyond; an empty section has no inside. */
  lemma SectionEnds(s: Section)
    requires 0 < s.data && s.data + s.size < 0x1_0000_0000
    ensures forall p: U32 :: InSection(s, p) <==> s.data <= p < s.data + s.size
    ensures s.size > 0 ==> InSection(s, s.data) && InSection(s, s.data + s.size - 1)
    ensures !InSection(s, s.data + s.size) && !InSection(s, s.data - 1)
  {
  }

  /** is_ptr_inside_uso */
  method IsPtrInsideUso(uso: Uso, ptr: U32) returns (inside: bool)
    ensures inside == Inside(uso, ptr)
    ensures ptr == 0 ==> !inside
  {
    for i := 0 to |uso.sections|
      invariant forall k :: 0 <= k < i ==> !InSection(uso.sections[k], ptr)
    {
      var section := uso.sections[i];
      if section.data != 0 {
        var ptrMin, ptrMax := section.data, Trunc32(section.data + section.size);
        if ptr >= ptrMin && ptr < ptrMax {
          return true;
        }
      }
    }
    inside := false;
  }

  /** The relocation tables of a section. */
  datatype RelocTables = RelocTables(internal: Option<seq<R.Reloc>>, external: Option<seq<R.Reloc>>) {
    function Internal(): seq<R.Reloc> { R.TableOf(internal) }
    function External(): seq<R.Reloc> { R.TableOf(external) }
    predicate AllKnown() {
      && (forall i :: 0 <= i < |Internal()| ==> MipsAbi.KnownType(Internal()[i].Type()))
      && (forall i :: 0 <= i < |External()| ==> MipsAbi.KnownType(External()[i].Type()))
    }
  }

  /** What the relocations of a fixed-up USO refer to. */
  function ScopeOf(uso: Uso): R.Scope {
    R.Scope(seq(|uso.sections|, i requires 0 <= i < |uso.sections| => uso.sections[i].data),
            if uso.imports == None then []
            else seq(|uso.imports.value|, i requires 0 <= i < |uso.imports.value| => uso.imports.value[i].ptr))
  }

  /** The bytes of all sections. */
  ghost function Contents(memory: seq<array<Byte>>): (c: seq<seq<Byte>>)
    reads memory
    ensures |c| == |memory| && forall i :: 0 <= i < |c| ==> c[i] == memory[i][..]
  {
    if memory == [] then [] else Contents(memory[..|memory| - 1]) + [memory[|memory| - 1][..]]
  }

  /** The sections are at their place, and their bytes are linked with what the imports resolved to. */
  ghost predicate LinkedInto(uso: Uso, image: UsoImage, base: U32, before: seq<seq<Byte>>, after: seq<seq<Byte>>,
                             relocs: seq<RelocTables>)
  {
    && uso.sections == FixedTable(image, base)
    && |before| == |after| == |relocs| == |uso.sections|
    && forall i :: 1 <= i < |after| && uso.sections[i].data != 0 ==>
         R.LinkableWith(relocs[i].Internal(), relocs[i].External(), ScopeOf(uso), |before[i]|)
         && R.Linked(before[i], after[i], relocs[i].Internal(), relocs[i].External(), ScopeOf(uso))
  }

  /** A scope of the right size for the image. */
  function AnyScope(image: UsoImage): R.Scope {
    R.Scope(seq(|image.sections|, _ => 0), if image.imports == None then [] else seq(|image.imports.value|, _ => 0))
  }

  /** Each section has its own memory, and its tables fit it. */
  ghost predicate Linkable(image: UsoImage, memory: seq<array<Byte>>, relocs: seq<RelocTables>) {
    && |memory| == |relocs| == |image.sections|
    && (forall i, j :: 0 <= i < j < |memory| ==> memory[i] != memory[j])
    && forall i :: 0 <= i < |memory| ==>
         R.LinkableWith(relocs[i].Internal(), relocs[i].External(), AnyScope(image), memory[i].Length)
  }

  /** A relocation of a type the loader does not know, in a section that is linked. */
  predicate HasInvalidType(sections: seq<Section>, relocs: seq<RelocTables>) {
    exists i :: 1 <= i < |sections| && i < |relocs| && sections[i].data != 0 && !relocs[i].AllKnown()
  }

  /** The entry of some table of a section that is not at NULL has none of the types 2, 4, 5 and 6. */
  lemma InvalidTypeIs(sections: seq<Section>, relocs: seq<RelocTables>)
    ensures HasInvalidType(sections, relocs) <==>
            exists i, q :: 1 <= i < |sections| && i < |relocs| && sections[i].data != 0
                           && (|| (0 <= q < |relocs[i].Internal()| && !R.KnownNumber(relocs[i].Internal()[q].info))
                               || (0 <= q < |relocs[i].External()| && !R.KnownNumber(relocs[i].External()[q].info)))
  {
    hide R.TableOf;
    forall i | 0 <= i < |relocs|
      ensures relocs[i].AllKnown() <==>
                && (forall q :: 0 <= q < |relocs[i].Internal()| ==> R.KnownNumber(relocs[i].Internal()[q].info))
                && (forall q :: 0 <= q < |relocs[i].External()| ==> R.KnownNumber(relocs[i].External()[q].info))
    {
      R.KnownNumbers(relocs[i].Internal());
      R.KnownNumbers(relocs[i].External());
    }
  }

  lemma UnitsLinkable(image: UsoImage, memory: seq<array<Byte>>, relocs: seq<RelocTables>, units: seq<R.LinkUnit>,
                      uso: Uso)
    requires Linkable(image, memory, relocs) && |units| == |relocs|
    requires |uso.sections| == |image.sections| && (uso.imports.Some? <==> image.imports.Some?)
    requires uso.imports.Some? ==> |uso.imports.value| == |image.imports.value|
    requires forall i :: 0 <= i < |units| ==>
               units[i] == R.LinkUnit(uso.sections[i].data, relocs[i].internal, relocs[i].external)
    ensures forall i :: 0 <= i < |units| ==>
              (units[i].AllKnown() <==> uso.sections[i].data == 0 || relocs[i].AllKnown())
              && R.LinkableWith(relocs[i].Internal(), relocs[i].External(), ScopeOf(uso), memory[i].Length)
  {
  }

  /** Testing after the reference is dropped gives the specified step. */
  lemma CloseOutcome(view: seq<Module>, i: nat, refs: U32)
    requires i < |view| && refs == if view[i].refs != 0 then view[i].refs - 1 else 0
    ensures var now := view[i := view[i].(refs := refs)];
            && TestFaults(now, i) == TestFaults(view, i)
            && CloseStep(view, i) == if refs == 0 && Closeable(now, i) then Without(now, i) else now
  {
    hide Closeable;
    var now := view[i := view[i].(refs := refs)];
    SameTest(view, now, i);
    assert Without(now, i) == Without(view, i);
  }

  /** The file as module Lifecycle sees it, loaded at `base`. */
  function FileAt(file: Option<UsoImage>, base: U32): (f: Option<UsoFile>)
    requires file.Some? ==> file.value.WellFormed()
    ensures f.Some? ==> f.value.WellFormed()
  {
    if file == None then None
    else
      FixedExportsSorted(file.value, base);
      Some(UsoFile(ExportsAt(file.value, base), file.value.imports))
  }

  lemma FixedExportsSorted(image: UsoImage, base: U32)
    requires image.WellFormed()
    ensures ExportsAt(image, base).Some? ==> Sorted(ExportsAt(image, base).value)
  {
    hide Less, FixedSection;
  }

  method FixedParts(image: UsoImage, base: U32) returns (sections: seq<Section>, exports: Option<SymbolTable>)
    requires image.WellFormed()
    ensures sections == FixedTable(image, base) && exports == ExportsAt(image, base)
  {
    hide FixedSection, Sorted;
    var table := new Section[|image.sections|](i requires 0 <= i < |image.sections| => image.sections[i]);
    assert table[..] == image.sections;
    FixupSectionTable(table, image.TableAddr(base), image.NoloadBase(base));
    assert table[..] == FixedTable(image, base);
    sections, exports := table[..], None;
    if image.exports.Some? {
      var t := image.exports.value;
      var symTable := new Symbol[|t|](i requires 0 <= i < |t| => t[i]);
      assert symTable[..] == t;
      FixupExportSyms(symTable, table);
      exports := Some(symTable[..]);
    }
  }

  /** The first n imports are resolved, the others untouched. */
  ghost predicate Resolving(was: SymbolTable, t: SymbolTable, view: seq<Module>, global: Option<SymbolTable>, n: nat) {
    && |t| == |was|
    && (forall k :: 0 <= k < n <= |was| ==> t[k] == was[k].(ptr := Resolve(view, global, was[k].name)))
    && (forall k :: n <= k < |was| ==> t[k] == was[k])
  }

  lemma ResolvingStarts(was: SymbolTable, view: seq<Module>, global: Option<SymbolTable>)
    ensures Resolving(was, was, view, global, 0) && Links(was[..0], view, global)
  {
  }

  lemma ResolvingAt(was: SymbolTable, t: SymbolTable, view: seq<Module>, global: Option<SymbolTable>, i: nat)
    requires Resolving(was, t, view, global, i) && i < |was|
    ensures |t| == |was| && t[i] == was[i]
    ensures var s := was[i].(ptr := Resolve(view, global, was[i].name));
            Resolving(was, t[i := s], view, global, i + 1)
  {
    hide Resolve;
  }

  lemma OneMoreLink(t: SymbolTable, view: seq<Module>, global: Option<SymbolTable>, i: nat)
    requires i < |t|
    ensures Links(t[..i + 1], view, global) <==>
            Links(t[..i], view, global) && (t[i].IsWeak() || Resolve(view, global, t[i].name) != 0)
  {
    hide Resolve;
    assert t[..i + 1] == t[..i] + [t[i]];
  }

  lemma ResolvedAll(was: SymbolTable, t: SymbolTable, view: seq<Module>, global: Option<SymbolTable>)
    requires Resolving(was, t, view, global, |was|)
    ensures t == ResolveTable(was, view, global)
  {
    hide Resolve;
  }
}
