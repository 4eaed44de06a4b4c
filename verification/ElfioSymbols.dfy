/**
 Moving local symbols to the front of an ELF symbol table while relocations follow them
 (tools/elfio/elfio_symbols.hpp:501-546, tools/elfio/elfio_relocation.hpp:295-310), for 32-bit files.
 */
module ElfioSymbols {
  import opened Words
  import opened Sequences
  import opened ElfInput

  /** Elf32_Sym; the binding is the upper half of the info byte. */
  datatype SymbolEntry = SymbolEntry(name: U32, value: U32, size: U32, info: Byte, other: Byte, section: U16) {
    predicate IsLocal() { info / 16 == STB_LOCAL }
  }

  /** Elf32_Rel and Elf32_Rela. */
  datatype RelEntry = RelEntry(offset: U32, info: U32, addend: int) {
    /** ELF32_R_SYM */
    function Symbol(): nat { info / 0x100 }
    /** ELF32_R_TYPE */
    function Type(): Byte { info % 0x100 }
  }

  /** ELF32_R_INFO, cut to the 32 bits of the field. */
  function RelInfo(symbol: nat, kind: Byte): U32 { Trunc32(0x100 * symbol + kind) }

  /** Packing and unpacking are inverse for 24-bit symbol indices. */
  lemma RelInfoRoundTrip(symbol: nat, kind: Byte, r: RelEntry)
    requires symbol < 0x100_0000
    ensures var p := r.(info := RelInfo(symbol, kind)); p.Symbol() == symbol && p.Type() == kind
    ensures RelInfo(r.Symbol(), r.Type()) == r.info
  {
  }

  /** The symbol a reference means after two entries have changed places. */
  function Transposed(first: nat, second: nat, y: nat): nat {
    if y == first then second else if y == second then first else y
  }

  /** A relocation that still names the same record after the swap. */
  predicate Follows(r: RelEntry, was: RelEntry, first: nat, second: nat) {
    r.offset == was.offset && r.addend == was.addend && r.Type() == was.Type()
    && r.Symbol() == Transposed(first, second, was.Symbol())
  }

  /** swap_symbols: both tests look at the index that was read, so nothing is swapped back. */
  method SwapSymbols(rels: array<RelEntry>, first: nat, second: nat)
    requires first < 0x100_0000 && second < 0x100_0000
    modifies rels
    ensures forall k :: 0 <= k < rels.Length ==> Follows(rels[k], old(rels[k]), first, second)
    ensures forall k :: 0 <= k < rels.Length ==>
              var y := old(rels[k]).info / 0x100;
              && rels[k].info % 0x100 == old(rels[k]).info % 0x100
              && rels[k].info / 0x100 == if y == first then second else if y == second then first else y
  {
    for i := 0 to rels.Length
      invariant forall k :: 0 <= k < i ==> Follows(rels[k], old(rels[k]), first, second)
      invariant forall k :: i <= k < rels.Length ==> rels[k] == old(rels[k])
    {
      hide RelInfo;
      var r := rels[i];
      var symbol, kind := r.Symbol(), r.Type();
      RelInfoRoundTrip(first, kind, r);
      RelInfoRoundTrip(second, kind, r);
      if symbol == first {
        rels[i] := r.(info := RelInfo(second, kind));
      }
      if symbol == second {
        rels[i] := r.(info := RelInfo(first, kind));
      }
    }
  }

  // ----- A rearranged table

  /** `perm` says where each entry came from. */
  ghost predicate IsPermutation(perm: seq<nat>) {
    && (forall i :: 0 <= i < |perm| ==> perm[i] < |perm|)
    && (forall i, j :: 0 <= i < j < |perm| ==> perm[i] != perm[j])
  }

  ghost predicate Rearranged(now: seq<SymbolEntry>, was: seq<SymbolEntry>, perm: seq<nat>) {
    && |now| == |was| == |perm| && IsPermutation(perm) && multiset(now) == multiset(was)
    && (perm != [] ==> perm[0] == 0)
    && forall i :: 0 <= i < |perm| ==> now[i] == was[perm[i]]
  }

  /** The relocation means the entry it meant before, and is otherwise as it was. */
  ghost predicate Refers(r: RelEntry, was: RelEntry, perm: seq<nat>) {
    && r.offset == was.offset && r.addend == was.addend && r.Type() == was.Type()
    && if was.Symbol() < |perm| then r.Symbol() < |perm| && perm[r.Symbol()] == was.Symbol()
       else r.Symbol() == was.Symbol()
  }

  ghost predicate AllRefer(now: seq<RelEntry>, was: seq<RelEntry>, perm: seq<nat>) {
    |now| == |was| && forall k :: 0 <= k < |now| ==> Refers(now[k], was[k], perm)
  }

  lemma SwapRearranges(now: seq<SymbolEntry>, was: seq<SymbolEntry>, perm: seq<nat>, i: nat, j: nat)
    requires Rearranged(now, was, perm) && 1 <= i < j < |perm|
    ensures Rearranged(Swapped(now, i, j), was, Swapped(perm, i, j))
  {
  }

  lemma SwapRefers(before: seq<RelEntry>, now: seq<RelEntry>, was: seq<RelEntry>, perm: seq<nat>, i: nat, j: nat)
    requires AllRefer(before, was, perm) && i < j < |perm| && |now| == |before|
    requires forall k :: 0 <= k < |now| ==> Follows(now[k], before[k], i, j)
    ensures AllRefer(now, was, Swapped(perm, i, j))
  {
  }

  lemma NothingMoved(syms: seq<SymbolEntry>, rels: seq<RelEntry>) returns (perm: seq<nat>)
    ensures |perm| == |syms| && Rearranged(syms, syms, perm) && AllRefer(rels, rels, perm)
  {
    perm := seq(|syms|, i requires 0 <= i < |syms| => i);
    hide SymbolEntry.IsLocal;
    forall k | 0 <= k < |rels|
      ensures Refers(rels[k], rels[k], perm)
    {
    }
  }

  /** The callback and the swap itself (elfio_symbols.hpp:533-536). */
  method SwapEntries(syms: array<SymbolEntry>, rels: array<RelEntry>, i: nat, j: nat, ghost wasSyms: seq<SymbolEntry>,
                     ghost wasRels: seq<RelEntry>, ghost perm: seq<nat>)
    requires 1 <= i < j < syms.Length <= 0x100_0000
    requires Rearranged(syms[..], wasSyms, perm) && AllRefer(rels[..], wasRels, perm) && |perm| == syms.Length
    modifies syms, rels
    ensures syms[..] == Swapped(old(syms[..]), i, j)
    ensures Rearranged(syms[..], wasSyms, Swapped(perm, i, j)) && AllRefer(rels[..], wasRels, Swapped(perm, i, j))
  {
    hide Rearranged, AllRefer, Follows;
    ghost var before, entries := rels[..], syms[..];
    SwapSymbols(rels, i, j);
    SwapRefers(before, rels[..], wasRels, perm, i, j);
    SwapRearranges(entries, wasSyms, perm, i, j);
    syms[i], syms[j] := syms[j], syms[i];
    assert syms[..] == Swapped(entries, i, j);
  }

  /**
   generic_arrange_local_symbols with swap_symbols as the callback: it ends; entry 0 stays; the entries are
   permuted so that locals come first; the result is one past the last local; and every relocation still means
   the symbol it meant.
   */
  method ArrangeLocalSymbols(syms: array<SymbolEntry>, rels: array<RelEntry>)
    returns (firstNotLocal: nat, ghost perm: seq<nat>)
    requires syms.Length <= 0x100_0000
    modifies syms, rels
    ensures Rearranged(syms[..], old(syms[..]), perm) && AllRefer(rels[..], old(rels[..]), perm)
    ensures 1 <= firstNotLocal && (firstNotLocal == 1 || firstNotLocal <= syms.Length)
    ensures forall k :: 1 <= k < syms.Length ==> (syms[k].info < 16 <==> k < firstNotLocal)
  {
    hide Rearranged, AllRefer, Swapped, SymbolEntry.IsLocal;
    var count := syms.Length;
    ghost var wasSyms, wasRels := syms[..], rels[..];
    firstNotLocal := 1;
    perm := NothingMoved(wasSyms, wasRels);
    while true
      invariant 1 <= firstNotLocal && (firstNotLocal == 1 || firstNotLocal <= count)
      invariant forall k :: 1 <= k < firstNotLocal && k < count ==> syms[k].IsLocal()
      invariant |perm| == count && Rearranged(syms[..], wasSyms, perm) && AllRefer(rels[..], wasRels, perm)
      decreases count - firstNotLocal, firstNotLocal < count && !syms[firstNotLocal].IsLocal()
    {
      while firstNotLocal < count
        invariant 1 <= firstNotLocal && (firstNotLocal == 1 || firstNotLocal <= count)
        invariant forall k :: 1 <= k < firstNotLocal && k < count ==> syms[k].IsLocal()
      {
        if !syms[firstNotLocal].IsLocal() {
          break;
        }
        firstNotLocal := firstNotLocal + 1;
      }
      var current := firstNotLocal + 1;
      while current < count
        invariant firstNotLocal < current
        invariant forall k :: firstNotLocal < k < current && k < count ==> !syms[k].IsLocal()
      {
        if syms[current].IsLocal() {
          break;
        }
        current := current + 1;
      }
      if firstNotLocal < count && current < count {
        SwapEntries(syms, rels, firstNotLocal, current, wasSyms, wasRels, perm);
        perm := Swapped(perm, firstNotLocal, current);
      } else {
        break;
      }
    }
    LocalByInfo(syms[..]);
  }

  /** The binding is in the upper half of the info byte, and local is 0. */
  lemma LocalByInfo(syms: seq<SymbolEntry>)
    ensures forall k :: 0 <= k < |syms| ==> (syms[k].IsLocal() <==> syms[k].info < 16)
  {
  }

  /** What a rearrangement means for a relocation: the record behind its symbol index is the same. */
  lemma SameRecord(syms: seq<SymbolEntry>, wasSyms: seq<SymbolEntry>, rels: seq<RelEntry>, wasRels: seq<RelEntry>,
                   perm: seq<nat>, k: nat)
    requires Rearranged(syms, wasSyms, perm) && AllRefer(rels, wasRels, perm) && k < |rels|
    requires wasRels[k].info / 0x100 < |wasSyms|
    ensures rels[k].info / 0x100 < |syms| && syms[rels[k].info / 0x100] == wasSyms[wasRels[k].info / 0x100]
    ensures rels[k].info % 0x100 == wasRels[k].info % 0x100 && rels[k].offset == wasRels[k].offset
    ensures rels[k].addend == wasRels[k].addend
  {
    assert Refers(rels[k], wasRels[k], perm);
  }

  function CountLocal(s: seq<SymbolEntry>): nat {
    if s == [] then 0 else CountLocal(s[..|s| - 1]) + if s[|s| - 1].IsLocal() then 1 else 0
  }

  /** In a partitioned table the border is the number of locals. */
  lemma {:induction false} BorderIsCount(s: seq<SymbolEntry>, border: nat)
    requires border <= |s| && forall k :: 0 <= k < |s| ==> (s[k].IsLocal() <==> k < border)
    ensures CountLocal(s) == border
  {
    if s != [] {
      BorderIsCount(s[..|s| - 1], if border == |s| then border - 1 else border);
    }
  }

  lemma {:induction false} CountAppend(a: seq<SymbolEntry>, b: seq<SymbolEntry>)
    ensures CountLocal(a + b) == CountLocal(a) + CountLocal(b)
  {
    if b == [] {
      assert a + b == a;
    } else {
      CountAppend(a, b[..|b| - 1]);
      assert (a + b)[..|a + b| - 1] == a + b[..|b| - 1];
    }
  }

  lemma TakeOut(l: seq<SymbolEntry>, x: SymbolEntry, r: seq<SymbolEntry>)
    ensures multiset(l + r) == multiset(l + [x] + r) - multiset{x}
    ensures CountLocal(l + [x] + r) == CountLocal(l + r) + CountLocal([x])
  {
    hide CountLocal, SymbolEntry.IsLocal;
    CountAppend(l, r);
    CountAppend(l + [x], r);
    CountAppend(l, [x]);
    assert multiset(l + [x] + r) == multiset(l) + multiset{x} + multiset(r);
  }

  lemma {:induction false} CountPermutes(a: seq<SymbolEntry>, b: seq<SymbolEntry>)
    requires multiset(a) == multiset(b)
    ensures CountLocal(a) == CountLocal(b)
    decreases |a|
  {
    hide CountLocal, SymbolEntry.IsLocal;
    if a == [] {
      assert |multiset(b)| == 0;
    } else {
      var x := a[0];
      assert a == [] + [x] + a[1..];
      var j := FindIn(b, x);
      assert b == b[..j] + [x] + b[j + 1..];
      TakeOut([], x, a[1..]);
      TakeOut(b[..j], x, b[j + 1..]);
      assert [] + a[1..] == a[1..];
      CountPermutes(a[1..], b[..j] + b[j + 1..]);
    }
  }

  lemma FindIn(b: seq<SymbolEntry>, x: SymbolEntry) returns (j: nat)
    requires x in multiset(b)
    ensures j < |b| && b[j] == x
  {
    j :| 0 <= j < |b| && b[j] == x;
  }

  /** The result of arranging is determined by the table alone: 1 plus the number of local entries behind entry 0. */
  lemma BorderIsDetermined(now: seq<SymbolEntry>, was: seq<SymbolEntry>, perm: seq<nat>, border: nat)
    requires Rearranged(now, was, perm) && 1 <= border <= |was|
    requires forall k :: 1 <= k < |now| ==> (now[k].IsLocal() <==> k < border)
    ensures border == 1 + CountLocal(was[1..])
  {
    hide Rearranged, SymbolEntry.IsLocal, CountLocal;
    TailsPermuted(now, was, perm);
    CountPermutes(now[1..], was[1..]);
    BorderIsCount(now[1..], border - 1);
  }

  lemma TailsPermuted(now: seq<SymbolEntry>, was: seq<SymbolEntry>, perm: seq<nat>)
    requires Rearranged(now, was, perm) && was != []
    ensures |now| == |was| && multiset(now[1..]) == multiset(was[1..])
  {
    hide IsPermutation, CountLocal;
    assert now[0] == was[perm[0]];
    HeadOut(now);
    HeadOut(was);
  }

  lemma HeadOut(s: seq<SymbolEntry>)
    requires s != []
    ensures multiset(s[1..]) == multiset(s) - multiset{s[0]}
  {
    assert s == [s[0]] + s[1..];
  }
}
