/**
 An output file as the tools use it: seek anywhere, write, and let the gaps fill with zeros. What a series of
 writes leaves is described by the list of chunks written.
 */
module OutFile {
  import opened Words

  datatype Chunk = Chunk(ofs: nat, bytes: seq<Byte>) {
    function End(): nat { ofs + |bytes| }
  }

  function Zeros(n: nat): (z: seq<Byte>)
    ensures |z| == n
  {
    seq(n, _ => 0)
  }

  /** The file after one positioned write. Writing no bytes changes nothing, wherever the position is. */
  function Splice(f: seq<Byte>, c: Chunk): (g: seq<Byte>)
    ensures |g| == if c.bytes == [] || c.End() <= |f| then |f| else c.End()
  {
    if c.bytes == [] then f
    else
      var padded := if |f| < c.End() then f + Zeros(c.End() - |f|) else f;
      padded[..c.ofs] + c.bytes + padded[c.End()..]
  }

  /** The file after a list of positioned writes. */
  function Written(f: seq<Byte>, cs: seq<Chunk>): seq<Byte> {
    if cs == [] then f else Splice(Written(f, cs[..|cs| - 1]), cs[|cs| - 1])
  }

  lemma {:induction false} WrittenAppend(f: seq<Byte>, a: seq<Chunk>, b: seq<Chunk>)
    ensures Written(f, a + b) == Written(Written(f, a), b)
  {
    if b == [] {
      assert a + b == a;
    } else {
      WrittenAppend(f, a, b[..|b| - 1]);
      assert (a + b)[..|a + b| - 1] == a + b[..|b| - 1];
    }
  }

  lemma WrittenOne(f: seq<Byte>, a: seq<Chunk>, c: Chunk)
    ensures Written(f, a + [c]) == Splice(Written(f, a), c)
  {
    assert (a + [c])[..|a|] == a;
  }

  class OutputFile {
    var bytes: seq<Byte>
    var pos: nat

    constructor ()
      ensures bytes == [] && pos == 0
    {
      bytes, pos := [], 0;
    }

    method Seek(ofs: nat)
      modifies this`pos
      ensures pos == ofs
    {
      pos := ofs;
    }

    method SeekEnd()
      modifies this`pos
      ensures pos == |bytes|
    {
      pos := |bytes|;
    }

    method Write(b: seq<Byte>)
      modifies this
      ensures bytes == Splice(old(bytes), Chunk(old(pos), b)) && pos == old(pos) + |b|
    {
      bytes := Splice(bytes, Chunk(pos, b));
      pos := pos + |b|;
    }
  }

  // ----- Reading back

  /** The file has the chunk's bytes at the chunk's place. */
  predicate Holds(f: seq<Byte>, c: Chunk) {
    c.bytes == [] || (c.End() <= |f| && f[c.ofs..c.End()] == c.bytes)
  }

  predicate Apart(c: Chunk, d: Chunk) {
    c.bytes == [] || d.bytes == [] || c.End() <= d.ofs || d.End() <= c.ofs
  }

  /** No two writes touch the same byte. */
  predicate AllApart(cs: seq<Chunk>) {
    forall i, j :: 0 <= i < j < |cs| ==> Apart(cs[i], cs[j])
  }

  lemma SpliceHolds(f: seq<Byte>, c: Chunk)
    ensures Holds(Splice(f, c), c)
  {
  }

  lemma SpliceKeeps(f: seq<Byte>, c: Chunk, d: Chunk)
    requires Holds(f, d) && Apart(d, c)
    ensures Holds(Splice(f, c), d)
  {
    if c.bytes != [] && d.bytes != [] {
      var g := Splice(f, c);
      assert forall p :: d.ofs <= p < d.End() ==> g[p] == f[p];
    }
  }

  /** What disjoint writes put into a file is all there at the end. */
  lemma {:induction false} AllHold(f: seq<Byte>, cs: seq<Chunk>, i: nat)
    requires AllApart(cs) && i < |cs|
    ensures Holds(Written(f, cs), cs[i])
  {
    hide Splice, Holds, Apart;
    var init, last := cs[..|cs| - 1], cs[|cs| - 1];
    assert cs == init + [last];
    if i == |init| {
      SpliceHolds(Written(f, init), last);
    } else {
      assert forall a, b :: 0 <= a < b < |init| ==> Apart(cs[a], cs[b]);
      AllHold(f, init, i);
      SpliceKeeps(Written(f, init), last, init[i]);
    }
  }

  /** Every non-empty chunk lies between two offsets. */
  predicate Within(cs: seq<Chunk>, lo: nat, hi: nat) {
    forall i :: 0 <= i < |cs| && cs[i].bytes != [] ==> lo <= cs[i].ofs && cs[i].End() <= hi
  }

  lemma WithinAppend(a: seq<Chunk>, b: seq<Chunk>, lo: nat, mid: nat, hi: nat)
    requires Within(a, lo, mid) && Within(b, mid, hi) && lo <= mid <= hi
    ensures Within(a + b, lo, hi)
  {
    forall i | 0 <= i < |a + b| && (a + b)[i].bytes != []
      ensures lo <= (a + b)[i].ofs && (a + b)[i].End() <= hi
    {
      if i < |a| {
        assert (a + b)[i] == a[i];
      } else {
        assert (a + b)[i] == b[i - |a|];
      }
    }
  }

  /** Writes in separate regions do not disturb each other. */
  lemma ApartAppend(a: seq<Chunk>, b: seq<Chunk>)
    requires AllApart(a) && AllApart(b)
    requires forall i, j :: 0 <= i < |a| && 0 <= j < |b| ==> Apart(a[i], b[j])
    ensures AllApart(a + b)
  {
    hide Apart;
    forall i, j | 0 <= i < j < |a + b|
      ensures Apart((a + b)[i], (a + b)[j])
    {
      if j < |a| {
        assert (a + b)[i] == a[i] && (a + b)[j] == a[j];
      } else if i < |a| {
        assert (a + b)[i] == a[i] && (a + b)[j] == b[j - |a|];
      } else {
        assert (a + b)[i] == b[i - |a|] && (a + b)[j] == b[j - |a|];
      }
    }
  }

  lemma RegionsApart(a: seq<Chunk>, b: seq<Chunk>, lo: nat, mid: nat, mid': nat, hi: nat)
    requires Within(a, lo, mid) && Within(b, mid', hi) && mid <= mid'
    ensures forall i, j :: 0 <= i < |a| && 0 <= j < |b| ==> Apart(a[i], b[j])
  {
  }

  lemma {:induction false} LengthOfWritten(f: seq<Byte>, cs: seq<Chunk>, hi: nat)
    requires Within(cs, 0, hi) && |f| <= hi
    ensures |f| <= |Written(f, cs)| <= hi
  {
    if cs != [] {
      var init := cs[..|cs| - 1];
      assert forall i :: 0 <= i < |init| ==> init[i] == cs[i];
      LengthOfWritten(f, init, hi);
    }
  }
}
