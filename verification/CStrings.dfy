/** Symbol names, ordered once by std::string when a table is written and once by strcmp when it is searched. */
module CStrings {
  import opened Words

  type Name = seq<Byte>

  predicate NulFree(s: Name) { forall i :: 0 <= i < |s| ==> s[i] != 0 }

  /** operator< of std::string: lexicographic, on unsigned bytes, a proper prefix first. */
  predicate Less(a: Name, b: Name) {
    b != [] && (a == [] || a[0] < b[0] || (a[0] == b[0] && Less(a[1..], b[1..])))
  }

  predicate Terminated(p: seq<Byte>) { 0 in p }

  /** strcmp (ISO C11, section 7.24.4.2) on two pointers into memory; each reads no further than its first NUL. */
  function StrCmp(p: seq<Byte>, q: seq<Byte>): int
    requires Terminated(p) && Terminated(q)
  {
    if p[0] != q[0] then p[0] as int - q[0]
    else if p[0] == 0 then 0
    else StrCmp(p[1..], q[1..])
  }

  /** What the bytes at a char pointer spell: everything before the first NUL. */
  function CString(p: seq<Byte>): (s: Name)
    requires Terminated(p)
    ensures NulFree(s) && |s| < |p| && p[..|s|] == s && p[|s|] == 0
  {
    if p[0] == 0 then [] else [p[0]] + CString(p[1..])
  }

  lemma {:induction false} CStringOfTerminated(s: Name, rest: seq<Byte>)
    requires NulFree(s)
    ensures Terminated(s + [0] + rest) && CString(s + [0] + rest) == s
  {
    var p := s + [0] + rest;
    assert p[|s|] == 0;
    if s != [] {
      assert p[1..] == s[1..] + [0] + rest;
      CStringOfTerminated(s[1..], rest);
    }
  }

  /** The two orders agree on every pair of NUL-free names, whatever follows them in memory. */
  lemma {:induction false} StrCmpIsStringOrder(a: Name, b: Name, x: seq<Byte>, y: seq<Byte>)
    requires NulFree(a) && NulFree(b)
    ensures Terminated(a + [0] + x) && Terminated(b + [0] + y)
    ensures StrCmp(a + [0] + x, b + [0] + y) < 0 <==> Less(a, b)
    ensures StrCmp(a + [0] + x, b + [0] + y) == 0 <==> a == b
    ensures StrCmp(a + [0] + x, b + [0] + y) > 0 <==> Less(b, a)
  {
    var p, q := a + [0] + x, b + [0] + y;
    assert p[|a|] == 0 && q[|b|] == 0;
    if a != [] && b != [] {
      assert p[1..] == a[1..] + [0] + x && q[1..] == b[1..] + [0] + y;
      StrCmpIsStringOrder(a[1..], b[1..], x, y);
      assert a == [a[0]] + a[1..] && b == [b[0]] + b[1..];
    }
  }

  /** The order in terms of the first difference: a smaller byte, or the end of the shorter name. */
  predicate DiffersAt(a: Name, b: Name, k: nat) {
    k <= |a| && k < |b| && (forall i :: 0 <= i < k ==> a[i] == b[i]) && (k == |a| || a[k] < b[k])
  }

  lemma {:induction false} LessIs(a: Name, b: Name)
    ensures Less(a, b) <==> exists k: nat :: DiffersAt(a, b, k)
  {
    if Less(a, b) && a != [] && a[0] == b[0] {
      LessIs(a[1..], b[1..]);
      var k: nat :| DiffersAt(a[1..], b[1..], k);
      assert DiffersAt(a, b, k + 1) by {
        assert forall i :: 0 < i < k + 1 ==> a[i] == a[1..][i - 1] && b[i] == b[1..][i - 1];
      }
    } else if Less(a, b) {
      assert DiffersAt(a, b, 0);
    }
    if k: nat :| DiffersAt(a, b, k) {
      if k > 0 {
        assert forall i :: 0 <= i < k - 1 ==> a[1..][i] == a[i + 1] && b[1..][i] == b[i + 1];
        assert DiffersAt(a[1..], b[1..], k - 1);
        LessIs(a[1..], b[1..]);
      }
    }
  }

  // ----- Less is a strict total order

  lemma {:induction false} LessTransitive(a: Name, b: Name, c: Name)
    requires Less(a, b) && Less(b, c)
    ensures Less(a, c)
  {
    if a != [] && a[0] == b[0] == c[0] {
      LessTransitive(a[1..], b[1..], c[1..]);
    }
  }

  lemma {:induction false} LessIrreflexive(a: Name)
    ensures !Less(a, a)
  {
    if a != [] {
      LessIrreflexive(a[1..]);
    }
  }

  lemma {:induction false} LessTotal(a: Name, b: Name)
    ensures a == b || Less(a, b) || Less(b, a)
  {
    if a != [] && b != [] && a[0] == b[0] {
      LessTotal(a[1..], b[1..]);
      assert a == [a[0]] + a[1..] && b == [b[0]] + b[1..];
    }
  }

  lemma LessAsymmetric(a: Name, b: Name)
    requires Less(a, b)
    ensures !Less(b, a) && a != b
  {
    LessIrreflexive(a);
    if Less(b, a) {
      LessTransitive(a, b, a);
    }
  }
}
