/** Symbol tables in memory and the binary search over them (src/uso.c:100-123, src/uso_internal.h:13-28). */
module Symbols {
  import opened Words
  import opened CStrings

  /** uso_symbol_t once its name pointer is fixed up; the top bit of nameLen is the weak mark. */
  datatype Symbol = Symbol(name: Name, ptr: U32, section: U16, nameLen: U16) {
    predicate IsWeak() { nameLen / 0x8000 == 1 }
  }

  type SymbolTable = seq<Symbol>

  /** Strictly increasing, NUL-free names: what sym_sort leaves when names are unique. */
  predicate Sorted(t: SymbolTable) {
    && (forall i :: 0 <= i < |t| ==> NulFree(t[i].name))
    && (forall i, j :: 0 <= i < j < |t| ==> Less(t[i].name, t[j].name))
  }

  lemma NamesAreNulFree(t: SymbolTable)
    requires Sorted(t)
    ensures forall i :: 0 <= i < |t| ==> NulFree(t[i].name)
  {
  }

  /** Whether a table has an entry of that name. */
  predicate Names(t: SymbolTable, name: Name) {
    exists i :: 0 <= i < |t| && t[i].name == name
  }

  /** Linear search: the pointer of the first entry with that name, NULL without one. */
  function Lookup(t: SymbolTable, name: Name): U32 {
    if t == [] then 0 else if t[0].name == name then t[0].ptr else Lookup(t[1..], name)
  }

  /** A NULL table finds nothing. */
  function LookupIn(t: Option<SymbolTable>, name: Name): U32 {
    if t.Some? then Lookup(t.value, name) else 0
  }

  /** symbol_compare: strcmp on the two name pointers. */
  function SymbolCompare(a: Name, b: Name): int
    requires NulFree(a) && NulFree(b)
  {
    StrCmpIsStringOrder(a, b, [], []);
    StrCmp(a + [0] + [], b + [0] + [])
  }

  /**
   search_symbol_table: bsearch over the table. On every sorted table it agrees with linear search, so it
   finds the one entry with the name whenever there is one.
   */
  method SearchSymbolTable(table: Option<SymbolTable>, name: Name) returns (ptr: U32)
    requires table.Some? ==> Sorted(table.value)
    requires NulFree(name)
    ensures ptr == LookupIn(table, name)
  {
    if table == None || |table.value| == 0 {
      return 0;
    }
    var t := table.value;
    var lo, hi := 0, |t|;
    while lo < hi
      invariant 0 <= lo <= hi <= |t|
      invariant forall i :: 0 <= i < lo ==> Less(t[i].name, name)
      invariant forall i :: hi <= i < |t| ==> Less(name, t[i].name)
    {
      var mid := (lo + hi) / 2;
      var c := SymbolCompare(name, t[mid].name);
      StrCmpIsStringOrder(name, t[mid].name, [], []);
      if c == 0 {
        LookupOfEntry(t, mid);
        return t[mid].ptr;
      } else if c < 0 {
        AllAfter(t, mid, name);
        hi := mid;
      } else {
        AllBefore(t, mid, name);
        lo := mid + 1;
      }
    }
    LookupAbsent(t, name);
    ptr := 0;
  }

  lemma AllAfter(t: SymbolTable, mid: nat, name: Name)
    requires Sorted(t) && mid < |t| && Less(name, t[mid].name)
    ensures forall i :: mid <= i < |t| ==> Less(name, t[i].name)
  {
    forall i | mid < i < |t|
      ensures Less(name, t[i].name)
    {
      LessTransitive(name, t[mid].name, t[i].name);
    }
  }

  lemma AllBefore(t: SymbolTable, mid: nat, name: Name)
    requires Sorted(t) && mid < |t| && Less(t[mid].name, name)
    ensures forall i :: 0 <= i <= mid ==> Less(t[i].name, name)
  {
    forall i | 0 <= i < mid
      ensures Less(t[i].name, name)
    {
      LessTransitive(t[i].name, t[mid].name, name);
    }
  }

  lemma LookupAbsent(t: SymbolTable, name: Name)
    requires forall i :: 0 <= i < |t| ==> Less(t[i].name, name) || Less(name, t[i].name)
    ensures Lookup(t, name) == 0
  {
    LessIrreflexive(name);
    LookupUnnamed(t, name);
  }

  lemma {:induction false} LookupUnnamed(t: SymbolTable, name: Name)
    requires !Names(t, name)
    ensures Lookup(t, name) == 0
  {
    if t != [] {
      assert t[0].name != name;
      forall i | 0 <= i < |t[1..]|
        ensures t[1..][i].name != name
      {
        assert t[1..][i] == t[i + 1];
      }
      LookupUnnamed(t[1..], name);
    }
  }

  lemma TailSorted(t: SymbolTable)
    requires Sorted(t) && t != []
    ensures Sorted(t[1..])
  {
    forall i, j | 0 <= i < j < |t[1..]|
      ensures Less(t[1..][i].name, t[1..][j].name)
    {
      assert Less(t[i + 1].name, t[j + 1].name);
    }
  }

  /** In a sorted table every entry is the one its own name finds. */
  lemma {:induction false} LookupOfEntry(t: SymbolTable, i: nat)
    requires Sorted(t) && i < |t|
    ensures Lookup(t, t[i].name) == t[i].ptr
  {
    if i > 0 {
      LessAsymmetric(t[0].name, t[i].name);
      TailSorted(t);
      LookupOfEntry(t[1..], i - 1);
    }
  }

  /** A non-NULL search result is the pointer of an entry with that name. */
  lemma {:induction false} LookupFinds(t: SymbolTable, name: Name) returns (i: nat)
    requires Lookup(t, name) != 0
    ensures i < |t| && t[i].name == name && t[i].ptr == Lookup(t, name)
  {
    if t[0].name == name {
      i := 0;
    } else {
      i := LookupFinds(t[1..], name);
      i := i + 1;
    }
  }
}
