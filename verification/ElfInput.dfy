/** The parsed ELF contents that the tools start from, and the symbol records they collect. */
module ElfInput {
  import opened Words
  import opened CStrings

  const SHN_UNDEF: U16 := 0
  const STB_LOCAL: Byte := 0
  const STB_WEAK: Byte := 2
  const STV_DEFAULT: Byte := 0

  datatype ElfSymbol = ElfSymbol(name: Name, value: U32, bind: Byte, kind: Byte, section: U16, other: Byte)

  /** A relocation entry of a 32-bit ELF: the symbol index has 24 bits, the type 8. */
  datatype ElfReloc = ElfReloc(offset: U32, symbol: nat, kind: Byte)

  /** symbol_info of elf2uso and make_global_syms */
  datatype SymbolInfo = SymbolInfo(srcSymbol: nat, name: Name, section: U16, weak: bool, addr: U32)

  // ----- Sorting by name

  /** Names never decrease. */
  predicate InOrder(s: seq<SymbolInfo>) {
    forall i, j :: 0 <= i < j < |s| ==> !Less(s[j].name, s[i].name)
  }

  /** Names strictly increase: the order the loader's binary search needs. */
  predicate StrictlyInOrder(s: seq<SymbolInfo>) {
    forall i, j :: 0 <= i < j < |s| ==> Less(s[i].name, s[j].name)
  }

  predicate UniqueNames(s: seq<SymbolInfo>) {
    forall i, j :: 0 <= i < j < |s| ==> s[i].name != s[j].name
  }

  /** Position of the first entry not below x. */
  function InsertionPoint(s: seq<SymbolInfo>, x: SymbolInfo): (k: nat)
    ensures k <= |s|
    ensures forall i :: 0 <= i < k ==> Less(s[i].name, x.name)
    ensures k < |s| ==> !Less(s[k].name, x.name)
  {
    if s == [] || !Less(s[0].name, x.name) then 0 else 1 + InsertionPoint(s[1..], x)
  }

  /** std::sort with sym_compare. With unique names there is only one result it can have (SortIsUnique). */
  function SortByName(s: seq<SymbolInfo>): (r: seq<SymbolInfo>)
    ensures |r| == |s|
  {
    if s == [] then []
    else
      var r := SortByName(s[..|s| - 1]);
      var k := InsertionPoint(r, s[|s| - 1]);
      r[..k] + [s[|s| - 1]] + r[k..]
  }

  lemma {:induction false} SortPermutes(s: seq<SymbolInfo>)
    ensures multiset(SortByName(s)) == multiset(s)
  {
    hide InsertionPoint, Less;
    if s != [] {
      var init, x := s[..|s| - 1], s[|s| - 1];
      SortPermutes(init);
      var r := SortByName(init);
      InsertAdds(r, x, InsertionPoint(r, x));
      InsertAdds(init, x, |init|);
      assert s == init[..|init|] + [x] + init[|init|..];
    }
  }

  lemma InsertAdds(r: seq<SymbolInfo>, x: SymbolInfo, k: nat)
    requires k <= |r|
    ensures multiset(r[..k] + [x] + r[k..]) == multiset(r) + multiset{x}
  {
    assert r == r[..k] + r[k..];
  }

  lemma {:induction false} SortOrders(s: seq<SymbolInfo>)
    ensures InOrder(SortByName(s))
  {
    if s != [] {
      SortOrders(s[..|s| - 1]);
      InsertKeepsOrder(SortByName(s[..|s| - 1]), s[|s| - 1]);
    }
  }

  lemma InsertKeepsOrder(r: seq<SymbolInfo>, x: SymbolInfo)
    requires InOrder(r)
    ensures var k := InsertionPoint(r, x); InOrder(r[..k] + [x] + r[k..])
  {
    hide Less, InsertionPoint;
    var k := InsertionPoint(r, x);
    var t := r[..k] + [x] + r[k..];
    forall i, j | 0 <= i < j < |t|
      ensures !Less(t[j].name, t[i].name)
    {
      if j == k {
        LessAsymmetric(t[i].name, x.name);
      } else if i == k {
        AboveInsertion(r, x, k, j - 1);
      } else {
        var i', j' := if i < k then i else i - 1, if j < k then j else j - 1;
        assert t[i] == r[i'] && t[j] == r[j'];
      }
    }
  }

  lemma AboveInsertion(r: seq<SymbolInfo>, x: SymbolInfo, k: nat, m: nat)
    requires InOrder(r) && k <= m < |r| && !Less(r[k].name, x.name)
    ensures !Less(r[m].name, x.name)
  {
    if Less(r[m].name, x.name) {
      LessTotal(r[k].name, r[m].name);
      if Less(r[k].name, r[m].name) {
        LessTransitive(r[k].name, r[m].name, x.name);
      }
    }
  }

  /** Sorting a table with unique names puts it in strict order. */
  lemma SortedStrictly(s: seq<SymbolInfo>)
    requires UniqueNames(s)
    ensures StrictlyInOrder(SortByName(s))
  {
    var r := SortByName(s);
    SortOrders(s);
    SortPermutes(s);
    forall i, j | 0 <= i < j < |r|
      ensures Less(r[i].name, r[j].name)
    {
      SameNameOnce(s, r, i, j);
      LessTotal(r[i].name, r[j].name);
    }
  }

  /** A permutation of a table with unique names has unique names. */
  lemma SameNameOnce(s: seq<SymbolInfo>, r: seq<SymbolInfo>, i: nat, j: nat)
    requires UniqueNames(s) && multiset(r) == multiset(s) && i < j < |r|
    ensures r[i].name != r[j].name
  {
    if r[i].name == r[j].name {
      assert r[i] in multiset(s) && r[j] in multiset(s);
      var a :| 0 <= a < |s| && s[a] == r[i];
      var b :| 0 <= b < |s| && s[b] == r[j];
      assert r[i] == r[j];
      Twice(r, i, j);
      Once(s, a);
    }
  }

  lemma Twice(r: seq<SymbolInfo>, i: nat, j: nat)
    requires i < j < |r| && r[i] == r[j]
    ensures multiset(r)[r[i]] >= 2
  {
    assert r == r[..i] + [r[i]] + r[i + 1..j] + [r[j]] + r[j + 1..];
  }

  lemma Once(s: seq<SymbolInfo>, a: nat)
    requires UniqueNames(s) && a < |s|
    ensures multiset(s)[s[a]] == 1
  {
    assert s == s[..a] + [s[a]] + s[a + 1..];
    assert s[a] !in s[..a];
    assert s[a] !in s[a + 1..];
  }

  /** Two strictly ordered tables with the same entries are the same table. */
  lemma {:induction false} SortIsUnique(a: seq<SymbolInfo>, b: seq<SymbolInfo>)
    requires StrictlyInOrder(a) && StrictlyInOrder(b) && multiset(a) == multiset(b)
    ensures a == b
  {
    hide StrictlyInOrder;
    assert |a| == |multiset(a)| == |multiset(b)| == |b|;
    if a != [] {
      FirstIsLeast(a, b);
      TailsAgree(a, b);
      TailInOrder(a);
      TailInOrder(b);
      SortIsUnique(a[1..], b[1..]);
      assert a == [a[0]] + a[1..] && b == [b[0]] + b[1..];
    }
  }

  lemma TailsAgree(a: seq<SymbolInfo>, b: seq<SymbolInfo>)
    requires a != [] && b != [] && a[0] == b[0] && multiset(a) == multiset(b)
    ensures multiset(a[1..]) == multiset(b[1..])
  {
    assert a == [a[0]] + a[1..] && b == [b[0]] + b[1..];
    assert multiset(a[1..]) == multiset(a) - multiset{a[0]};
    assert multiset(b[1..]) == multiset(b) - multiset{b[0]};
  }

  lemma TailInOrder(a: seq<SymbolInfo>)
    requires a != [] && StrictlyInOrder(a)
    ensures StrictlyInOrder(a[1..])
  {
    hide Less;
  }

  lemma FirstIsLeast(a: seq<SymbolInfo>, b: seq<SymbolInfo>)
    requires StrictlyInOrder(a) && StrictlyInOrder(b) && multiset(a) == multiset(b) && a != [] && b != []
    ensures a[0] == b[0]
  {
    assert a[0] in multiset(b) && b[0] in multiset(a);
    var i :| 0 <= i < |b| && b[i] == a[0];
    var j :| 0 <= j < |a| && a[j] == b[0];
    if i > 0 && j > 0 {
      LessAsymmetric(a[0].name, a[j].name);
    }
  }
}
