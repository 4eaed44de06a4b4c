/** Applying a relocation table to a loaded section in place: apply_uso_relocs and link_uso of src/uso.c. */
module Relocs {
  import opened Words
  import opened MipsAbi

  /** uso_reloc_t: the type is in the top 6 bits of info, a section or import index in the low 26. */
  datatype Reloc = Reloc(offset: U32, info: U32, symOffset: U32) {
    function Type(): int { info / 0x400_0000 }
    function TargetIndex(): nat { info % 0x400_0000 }
  }

  /** What relocations may refer to: the run-time addresses of the sections and of the imported symbols. */
  datatype Scope = Scope(sections: seq<U32>, imports: seq<U32>)

  /** Every relocated word lies inside the section, and every index names an entry. */
  predicate Fits(table: seq<Reloc>, scope: Scope, internal: bool, size: nat) {
    forall i :: 0 <= i < |table| ==>
      && table[i].offset + 4 <= size
      && table[i].TargetIndex() < if internal then |scope.sections| else |scope.imports|
  }

  predicate NoOverlap(r: Reloc, s: Reloc) {
    r.offset + 4 <= s.offset || s.offset + 4 <= r.offset
  }

  /** No two relocated words overlap; they need not be aligned. */
  predicate NoneOverlap(table: seq<Reloc>) {
    forall i, j :: 0 <= i < j < |table| ==> NoOverlap(table[i], table[j])
  }

  function SymAddr(r: Reloc, scope: Scope, internal: bool): U32
    requires r.TargetIndex() < if internal then |scope.sections| else |scope.imports|
  {
    if internal then Trunc32(scope.sections[r.TargetIndex()] + r.symOffset) else scope.imports[r.TargetIndex()]
  }

  // ----- The pure specification, over the bytes before linking

  /** Index of the first LO16 from i on, or the length of the table when there is none. */
  function NextLo16(table: seq<Reloc>, i: nat): (k: nat)
    requires i <= |table|
    ensures i <= k <= |table|
    ensures k < |table| ==> table[k].Type() == R_MIPS_LO16
    ensures forall m :: i <= m < k ==> table[m].Type() != R_MIPS_LO16
    decreases |table| - i
  {
    if i == |table| || table[i].Type() == R_MIPS_LO16 then i else NextLo16(table, i + 1)
  }

  /** The immediate of the LO16 that a HI16 at i is paired with. */
  function PairedLo(bytes: seq<Byte>, table: seq<Reloc>, i: nat): Option<U16>
    requires i < |table| && forall k :: 0 <= k < |table| ==> table[k].offset + 4 <= |bytes|
  {
    var k := NextLo16(table, i + 1);
    if k == |table| then None else Some(Trunc16(Word(bytes, table[k].offset)))
  }

  /** The word that relocation i leaves, computed from unmodified bytes only. */
  function LinkedWord(bytes: seq<Byte>, table: seq<Reloc>, scope: Scope, internal: bool, i: nat): U32
    requires Fits(table, scope, internal, |bytes|) && i < |table|
  {
    LoaderWord(table[i].Type(), Word(bytes, table[i].offset), SymAddr(table[i], scope, internal),
               PairedLo(bytes, table, i))
  }

  ghost predicate Covered(table: seq<Reloc>, n: nat, p: nat)
    requires n <= |table|
  {
    exists i :: 0 <= i < n && table[i].offset <= p < table[i].offset + 4
  }

  /** `out` is `bytes` with the first n relocations of the table applied, and nothing else changed. */
  ghost predicate Applied(bytes: seq<Byte>, out: seq<Byte>, table: seq<Reloc>, scope: Scope, internal: bool, n: nat)
    requires Fits(table, scope, internal, |bytes|) && n <= |table|
  {
    && |out| == |bytes|
    && (forall i :: 0 <= i < n ==> Word(out, table[i].offset) == LinkedWord(bytes, table, scope, internal, i))
    && (forall p :: 0 <= p < |bytes| && !Covered(table, n, p) ==> out[p] == bytes[p])
  }

  /** The specification leaves no freedom: it is a function of the original bytes. */
  lemma AppliedIsUnique(bytes: seq<Byte>, out: seq<Byte>, out': seq<Byte>, table: seq<Reloc>, scope: Scope,
                        internal: bool)
    requires Fits(table, scope, internal, |bytes|)
    requires Applied(bytes, out, table, scope, internal, |table|)
    requires Applied(bytes, out', table, scope, internal, |table|)
    ensures out == out'
  {
    forall p | 0 <= p < |bytes|
      ensures out[p] == out'[p]
    {
      if Covered(table, |table|, p) {
        var i :| 0 <= i < |table| && table[i].offset <= p < table[i].offset + 4;
        hide LinkedWord;
        WordFixesBytes(out, out', table[i].offset, p);
      }
    }
  }

  lemma WordFixesBytes(b: seq<Byte>, c: seq<Byte>, ofs: nat, p: nat)
    requires ofs + 4 <= |b| == |c| && ofs <= p < ofs + 4
    requires Word(b, ofs) == Word(c, ofs)
    ensures b[p] == c[p]
  {
    hide Word, WordBytes;
    BytesOfWord(b, ofs);
    BytesOfWord(c, ofs);
    assert b[ofs..ofs + 4][p - ofs] == c[ofs..ofs + 4][p - ofs];
  }

  /** The address a relocation refers to, from the fields of its entry. */
  lemma AddressInNumbers(r: Reloc, scope: Scope, internal: bool)
    requires r.TargetIndex() < if internal then |scope.sections| else |scope.imports|
    ensures var index := r.info % 0x400_0000;
            SymAddr(r, scope, internal) == if internal then (scope.sections[index] + r.symOffset) % 0x1_0000_0000
                                           else scope.imports[index]
  {
  }

  /** What an applied table leaves, type by type; AbiInNumbers spells out the right-hand sides. */
  lemma AppliedInNumbers(bytes: seq<Byte>, out: seq<Byte>, table: seq<Reloc>, scope: Scope, internal: bool, i: nat,
                         place: U32)
    requires Fits(table, scope, internal, |bytes|) && Applied(bytes, out, table, scope, internal, |table|)
    requires i < |table|
    ensures
      var t, ofs, s, k := table[i].info / 0x400_0000, table[i].offset, SymAddr(table[i], scope, internal),
                          NextLo16(table, i + 1);
      var w, w' := Word(bytes, ofs), Word(out, ofs);
      && (t == 2 ==> w' == AbiWord(2, w, s, 0, place, internal))
      && (t == 4 ==> w' == AbiWord(4, w, s, 0, place, internal))
      && (t == 6 ==> w' == AbiWord(6, w, s, 0, place, internal))
      && (t == 5 && k == |table| ==> w' == w)
      && (t == 5 && k < |table| ==>
            var lo := Trunc16(Word(bytes, table[k].offset));
            w' == AbiWord(5, w, s, lo, place, internal) <==> lo != 0x8000)
  {
    hide Word, SymAddr, AbiWord, LoaderWord, NextLo16;
    var s, w, k := SymAddr(table[i], scope, internal), Word(bytes, table[i].offset), NextLo16(table, i + 1);
    var t := table[i].Type();
    var lo := if t == 5 && k < |table| then Trunc16(Word(bytes, table[k].offset)) else 0;
    KnownTypes(t);
    NoPairNeeded(t, w, s, PairedLo(bytes, table, i));
    LoneHi(w, s);
    if KnownType(t) {
      LoaderMeetsAbi(t, w, s, lo, place, internal);
    }
  }

  lemma NoPairNeeded(t: int, w: U32, s: U32, lo: Option<U16>)
    ensures t != 5 ==> LoaderWord(t, w, s, lo) == LoaderWord(t, w, s, Some(0))
  {
  }

  lemma LoneHi(w: U32, s: U32)
    ensures LoaderWord(5, w, s, None) == w
  {
  }

  // ----- The implementation

  method StoreWord(a: array<Byte>, ofs: nat, v: U32)
    requires ofs + 4 <= a.Length
    modifies a
    ensures Word(a[..], ofs) == v
    ensures forall p :: 0 <= p < a.Length && !(ofs <= p < ofs + 4) ==> a[p] == old(a[p])
  {
    var b := WordBytes(v);
    a[ofs], a[ofs + 1], a[ofs + 2], a[ofs + 3] := b[0], b[1], b[2], b[3];
    WordOfBytes(v);
    assert Word(a[..], ofs) == Word(b, 0);
  }

  lemma SameWord(b: seq<Byte>, c: seq<Byte>, ofs: nat)
    requires ofs + 4 <= |b| == |c|
    requires forall p :: ofs <= p < ofs + 4 ==> b[p] == c[p]
    ensures Word(b, ofs) == Word(c, ofs)
  {
  }

  lemma CarryRounds(addr: U32)
    ensures RoundedHi(addr) == if addr / 0x8000 % 2 == 1 then Next16(addr / 0x1_0000) else addr / 0x1_0000
  {
    hide RoundedHi, Next16;
    var h, l := addr / 0x1_0000, addr % 0x1_0000;
    RoundedHiIs(h, l);
    assert addr / 0x8000 == 2 * h + l / 0x8000;
  }

  /** The high half as the loader computes it, step by step (src/uso.c:272-285). */
  method CarriedHi16(hi: U16, lo: U16, symAddr: U32) returns (hi': U16)
    ensures hi' == LoaderHi16(hi, lo, symAddr)
  {
    hide RoundedHi, Trunc32;
    var addr: U32 := 0x1_0000 * hi;
    addr := Trunc32(addr + lo);
    TruncCarries(0x1_0000 * hi + lo, -0x1_0000);
    if lo > 0x8000 {
      addr := Trunc32(addr as int - 0x1_0000);
    }
    assert addr == Trunc32(0x1_0000 * hi + LoaderSext16(lo));
    addr := Trunc32(addr + symAddr);
    hi' := addr / 0x1_0000;
    if addr / 0x8000 % 2 == 1 {
      hi' := Next16(hi');
    }
    CarryRounds(addr);
  }

  /** The look-ahead of a HI16 (src/uso.c:258-291): scans the later relocations for a LO16. */
  method RelocatedHi16(section: array<Byte>, table: seq<Reloc>, i: nat, target: U32, symAddr: U32) returns (w: U32)
    requires i < |table| && forall k :: 0 <= k < |table| ==> table[k].offset + 4 <= section.Length
    ensures w == LoaderWord(R_MIPS_HI16, target, symAddr, PairedLo(section[..], table, i))
  {
    hide LoaderHi16;
    var hi := Trunc16(target);
    var j := i + 1;
    while j < |table|
      invariant i < j <= |table|
      invariant hi == Trunc16(target)
      invariant NextLo16(table, i + 1) == NextLo16(table, j)
    {
      if table[j].Type() == R_MIPS_LO16 {
        var lo := Trunc16(Word(section[..], table[j].offset));
        hi := CarriedHi16(hi, lo, symAddr);
        return WithLow16(target, hi);
      }
      j := j + 1;
    }
    w := WithLow16(target, hi);
  }

  /** The switch over relocation types (src/uso.c:244-309). */
  method RelocatedTarget(section: array<Byte>, table: seq<Reloc>, i: nat, target: U32, symAddr: U32)
    returns (known: bool, w: U32)
    requires i < |table| && forall k :: 0 <= k < |table| ==> table[k].offset + 4 <= section.Length
    ensures known == KnownType(table[i].Type()) == KnownNumber(table[i].info)
    ensures known ==> w == LoaderWord(table[i].Type(), target, symAddr, PairedLo(section[..], table, i))
  {
    hide PairedLo, LoaderHi16;
    KnownTypes(table[i].Type());
    known, w := true, target;
    var t := table[i].Type();
    if t == R_MIPS_32 {
      w := Trunc32(target as int + symAddr);
    } else if t == R_MIPS_26 {
      var a: int := target % 0x400_0000;
      var targetAddr := Trunc32(4 * a + symAddr);
      w := WithLow26(target, targetAddr % 0x1000_0000 / 4);
      JumpField(a, symAddr);
    } else if t == R_MIPS_HI16 {
      w := RelocatedHi16(section, table, i, target, symAddr);
    } else if t == R_MIPS_LO16 {
      var lo: int := Trunc16(target);
      w := WithLow16(target, Trunc16(lo + symAddr));
      LowSum(target, symAddr);
    } else {
      known := false;
    }
  }

  lemma JumpField(a: int, s: U32)
    requires 0 <= a < 0x400_0000
    ensures Trunc32(4 * a + s) % 0x1000_0000 / 4 == (a + s / 4) % 0x400_0000
  {
    Kept26(4 * a + s, a + s / 4, 0, s % 4);
    QuarterOfLow28(Trunc32(4 * a + s));
  }

  lemma QuarterOfLow28(x: U32)
    ensures x % 0x1000_0000 / 4 == x / 4 % 0x400_0000
  {
    var q, r := x / 0x1000_0000, x % 0x1000_0000;
    assert x / 4 == 0x400_0000 * q + r / 4;
  }

  /** The types that are applied are 2, 4, 5 and 6. */
  predicate KnownNumber(info: U32) {
    var t := info / 0x400_0000;
    t == 2 || t == 4 || t == 5 || t == 6
  }

  /**
   Applies a table in place. A NULL section or table is skipped. `done` counts the relocations applied: it
   falls short of the table only when the loader stops on an invalid type (src/uso.c:305-308).
   */
  method ApplyUsoRelocs(section: array<Byte>, sectionBase: U32, relocs: Option<seq<Reloc>>, scope: Scope,
                        internal: bool)
    returns (done: nat)
    requires relocs.Some? ==> Fits(relocs.value, scope, internal, section.Length) && NoneOverlap(relocs.value)
    modifies section
    ensures sectionBase == 0 || relocs == None ==> section[..] == old(section[..]) && done == 0
    ensures sectionBase != 0 && relocs.Some? ==>
      var table := relocs.value;
      && done <= |table|
      && Applied(old(section[..]), section[..], table, scope, internal, done)
      && (forall i :: 0 <= i < done ==> KnownNumber(table[i].info))
      && (done < |table| ==> !KnownNumber(table[done].info))
  {
    hide Word, LoaderWord, NextLo16;
    done := 0;
    if sectionBase == 0 || relocs == None {
      return;
    }
    var table := relocs.value;
    ghost var orig := section[..];
    while done < |table|
      invariant done <= |table|
      invariant Applied(orig, section[..], table, scope, internal, done)
      invariant forall k :: 0 <= k < done ==> KnownNumber(table[k].info)
    {
      var ofs := table[done].offset;
      var target := Word(section[..], ofs);
      var symAddr := SymAddr(table[done], scope, internal);
      var known, w := RelocatedTarget(section, table, done, target, symAddr);
      if !known {
        return;
      }
      UntouchedSoFar(orig, section[..], table, scope, internal, done, done);
      PairStillUnpatched(orig, section[..], table, scope, internal, done);
      ghost var before := section[..];
      StoreWord(section, ofs, w);
      OneMore(orig, before, section[..], table, scope, internal, done);
      done := done + 1;
    }
  }

  /** The look-ahead reads an immediate that no earlier step has touched. */
  lemma PairStillUnpatched(bytes: seq<Byte>, out: seq<Byte>, table: seq<Reloc>, scope: Scope, internal: bool, n: nat)
    requires Fits(table, scope, internal, |bytes|) && NoneOverlap(table) && n < |table|
    requires Applied(bytes, out, table, scope, internal, n)
    ensures PairedLo(out, table, n) == PairedLo(bytes, table, n)
  {
    var k := NextLo16(table, n + 1);
    if k < |table| {
      UntouchedSoFar(bytes, out, table, scope, internal, n, k);
    }
  }

  /** Words whose relocation is still to come hold their original bytes. */
  lemma UntouchedSoFar(bytes: seq<Byte>, out: seq<Byte>, table: seq<Reloc>, scope: Scope, internal: bool, n: nat,
                       k: nat)
    requires Fits(table, scope, internal, |bytes|) && NoneOverlap(table) && n <= k < |table|
    requires Applied(bytes, out, table, scope, internal, n)
    ensures Word(out, table[k].offset) == Word(bytes, table[k].offset)
  {
    var o := table[k].offset;
    forall p | o <= p < o + 4
      ensures out[p] == bytes[p]
    {
      assert forall i :: 0 <= i < n ==> NoOverlap(table[i], table[k]);
      assert !Covered(table, n, p);
    }
    SameWord(out, bytes, o);
  }

  lemma OneMore(bytes: seq<Byte>, before: seq<Byte>, after: seq<Byte>, table: seq<Reloc>, scope: Scope,
                internal: bool, n: nat)
    requires Fits(table, scope, internal, |bytes|) && NoneOverlap(table) && n < |table|
    requires Applied(bytes, before, table, scope, internal, n)
    requires |after| == |before|
    requires Word(after, table[n].offset) == LinkedWord(bytes, table, scope, internal, n)
    requires forall p :: 0 <= p < |after| && !(table[n].offset <= p < table[n].offset + 4) ==> after[p] == before[p]
    ensures Applied(bytes, after, table, scope, internal, n + 1)
  {
    hide LinkedWord, Word;
    forall i | 0 <= i < n + 1
      ensures Word(after, table[i].offset) == LinkedWord(bytes, table, scope, internal, i)
    {
      if i < n {
        assert NoOverlap(table[i], table[n]);
        SameWord(after, before, table[i].offset);
      }
    }
    forall p | 0 <= p < |bytes| && !Covered(table, n + 1, p)
      ensures after[p] == bytes[p]
    {
      assert !(table[n].offset <= p < table[n].offset + 4);
      assert !Covered(table, n, p);
    }
  }

  // ----- Linking a section: internal relocations, then external ones

  function TableOf(relocs: Option<seq<Reloc>>): seq<Reloc> { if relocs.Some? then relocs.value else [] }

  /** Both tables of a section fit it, and no two of all their words overlap. */
  predicate LinkableWith(internal: seq<Reloc>, external: seq<Reloc>, scope: Scope, size: nat) {
    && Fits(internal, scope, true, size)
    && Fits(external, scope, false, size)
    && NoneOverlap(internal)
    && NoneOverlap(external)
    && forall i, j :: 0 <= i < |internal| && 0 <= j < |external| ==> NoOverlap(internal[i], external[j])
  }

  /** Every relocated word is computed from the original bytes, whichever table it comes from; the rest is kept. */
  ghost predicate Linked(bytes: seq<Byte>, out: seq<Byte>, internal: seq<Reloc>, external: seq<Reloc>, scope: Scope)
    requires LinkableWith(internal, external, scope, |bytes|)
  {
    && |out| == |bytes|
    && (forall i :: 0 <= i < |internal| ==>
          Word(out, internal[i].offset) == LinkedWord(bytes, internal, scope, true, i))
    && (forall i :: 0 <= i < |external| ==>
          Word(out, external[i].offset) == LinkedWord(bytes, external, scope, false, i))
    && (forall p :: 0 <= p < |bytes| && !Covered(internal, |internal|, p) && !Covered(external, |external|, p) ==>
          out[p] == bytes[p])
  }

  lemma TwoPasses(bytes: seq<Byte>, mid: seq<Byte>, out: seq<Byte>, internal: seq<Reloc>, external: seq<Reloc>,
                  scope: Scope)
    requires LinkableWith(internal, external, scope, |bytes|)
    requires Applied(bytes, mid, internal, scope, true, |internal|)
    requires Applied(mid, out, external, scope, false, |external|)
    ensures Linked(bytes, out, internal, external, scope)
  {
    hide LoaderWord, Word, NextLo16;
    forall j | 0 <= j < |external|
      ensures Word(mid, external[j].offset) == Word(bytes, external[j].offset)
    {
      SpareWord(bytes, mid, internal, scope, true, external[j]);
    }
    forall i | 0 <= i < |external|
      ensures Word(out, external[i].offset) == LinkedWord(bytes, external, scope, false, i)
    {
      assert PairedLo(mid, external, i) == PairedLo(bytes, external, i);
    }
    forall i | 0 <= i < |internal|
      ensures Word(out, internal[i].offset) == LinkedWord(bytes, internal, scope, true, i)
    {
      SpareWord(mid, out, external, scope, false, internal[i]);
    }
  }

  /** Applying a table leaves every word alone that none of its targets touches. */
  lemma SpareWord(bytes: seq<Byte>, out: seq<Byte>, table: seq<Reloc>, scope: Scope, internal: bool, r: Reloc)
    requires Fits(table, scope, internal, |bytes|) && Applied(bytes, out, table, scope, internal, |table|)
    requires r.offset + 4 <= |bytes|
    requires forall i :: 0 <= i < |table| ==> NoOverlap(table[i], r) || NoOverlap(r, table[i])
    ensures Word(out, r.offset) == Word(bytes, r.offset)
  {
    hide LinkedWord;
    forall p | r.offset <= p < r.offset + 4
      ensures out[p] == bytes[p]
    {
      assert !Covered(table, |table|, p);
    }
    SameWord(out, bytes, r.offset);
  }

  /** The sections of a USO as link_uso sees them; entry 0 is the dummy section. */
  datatype LinkUnit = LinkUnit(base: U32, internal: Option<seq<Reloc>>, external: Option<seq<Reloc>>) {
    predicate AllKnown() {
      base != 0 ==>
        && (forall i :: 0 <= i < |TableOf(internal)| ==> KnownType(TableOf(internal)[i].Type()))
        && (forall i :: 0 <= i < |TableOf(external)| ==> KnownType(TableOf(external)[i].Type()))
    }
  }

  /**
   link_uso: relocates every section but the dummy one, each in its own memory. It stops on the first
   invalid relocation type; `ok` says whether it got through.
   */
  method LinkUso(memory: seq<array<Byte>>, units: seq<LinkUnit>, scope: Scope) returns (ok: bool)
    requires |memory| == |units|
    requires forall i, j :: 0 <= i < j < |memory| ==> memory[i] != memory[j]
    requires forall i :: 0 <= i < |units| ==>
               LinkableWith(TableOf(units[i].internal), TableOf(units[i].external), scope, memory[i].Length)
    modifies memory
    ensures ok == forall i :: 1 <= i < |units| ==> units[i].AllKnown()
    ensures ok ==> forall i :: 1 <= i < |units| && units[i].base != 0 ==>
              Linked(old(memory[i][..]), memory[i][..], TableOf(units[i].internal), TableOf(units[i].external), scope)
    ensures forall i :: 0 <= i < |units| && (i == 0 || units[i].base == 0) ==> memory[i][..] == old(memory[i][..])
  {
    hide Linked, LinkableWith, TableOf, LinkUnit.AllKnown;
    ok := true;
    var i := 1;
    while i < |units|
      invariant 1 <= i
      invariant forall k :: 1 <= k < i && k < |units| ==> units[k].AllKnown()
      invariant forall k :: 1 <= k < i && k < |units| && units[k].base != 0 ==>
                  Linked(old(memory[k][..]), memory[k][..], TableOf(units[k].internal), TableOf(units[k].external),
                         scope)
      invariant forall k :: 0 <= k < |units| && (k == 0 || units[k].base == 0 || i <= k) ==>
                  memory[k][..] == old(memory[k][..])
    {
      label before:
      var linked := LinkSection(memory[i], units[i], scope);
      assert forall k :: 0 <= k < |units| && k != i ==>
               memory[k] != memory[i] && memory[k][..] == old@before(memory[k][..]);
      if !linked {
        return false;
      }
      i := i + 1;
    }
  }

  lemma KnownNumbers(table: seq<Reloc>)
    ensures forall i :: 0 <= i < |table| ==> (KnownType(table[i].Type()) <==> KnownNumber(table[i].info))
  {
  }

  /** The two apply_uso_relocs calls for one section. */
  method LinkSection(section: array<Byte>, unit: LinkUnit, scope: Scope) returns (ok: bool)
    requires LinkableWith(TableOf(unit.internal), TableOf(unit.external), scope, section.Length)
    modifies section
    ensures ok == unit.AllKnown()
    ensures ok && unit.base != 0 ==>
              Linked(old(section[..]), section[..], TableOf(unit.internal), TableOf(unit.external), scope)
    ensures unit.base == 0 ==> section[..] == old(section[..])
  {
    hide Applied, Linked;
    ghost var bytes := section[..];
    var done := ApplyUsoRelocs(section, unit.base, unit.internal, scope, true);
    ghost var mid := section[..];
    if unit.internal.Some? && unit.base != 0 {
      KnownNumbers(unit.internal.value);
      if done < |unit.internal.value| {
        return false;
      }
    } else {
      NothingApplied(bytes, TableOf(unit.internal), scope, true);
    }
    done := ApplyUsoRelocs(section, unit.base, unit.external, scope, false);
    if unit.external.Some? && unit.base != 0 {
      KnownNumbers(unit.external.value);
      if done < |unit.external.value| {
        return false;
      }
    } else {
      NothingApplied(mid, TableOf(unit.external), scope, false);
    }
    ok := true;
    if unit.base != 0 {
      TwoPasses(bytes, mid, section[..], TableOf(unit.internal), TableOf(unit.external), scope);
    }
  }

  lemma NothingApplied(bytes: seq<Byte>, table: seq<Reloc>, scope: Scope, internal: bool)
    requires Fits(table, scope, internal, |bytes|)
    ensures Applied(bytes, bytes, table, scope, internal, 0)
  {
  }
}
