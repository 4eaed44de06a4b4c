/**
 The relocation formulas of the System V ABI, MIPS RISC Processor Supplement (3rd edition), chapter 4,
 section "Relocation", for the four types a USO may hold, and how the values written by the loader
 (src/uso.c:244-309) relate to them.
 */
module MipsAbi {
  import opened Words

  const R_MIPS_32 := 2
  const R_MIPS_26 := 4
  const R_MIPS_HI16 := 5
  const R_MIPS_LO16 := 6

  predicate KnownType(t: int) {
    t == R_MIPS_32 || t == R_MIPS_26 || t == R_MIPS_HI16 || t == R_MIPS_LO16
  }

  /** The types by number, as object files have them. */
  lemma KnownTypes(t: int)
    ensures KnownType(t) <==> t == 2 || t == 4 || t == 5 || t == 6
  {
  }

  /** Sign extension of a 16-bit immediate. */
  function Sext16(lo: U16): int { if lo < 0x8000 then lo else lo - 0x1_0000 }

  /** The loader's version of it, which leaves 0x8000 positive (src/uso.c:274). */
  function LoaderSext16(lo: U16): int { if lo <= 0x8000 then lo else lo - 0x1_0000 }

  /** The word with its low 16 bits replaced: (w & 0xFFFF0000) | h. */
  function WithLow16(w: U32, h: U16): U32 { 0x1_0000 * (w / 0x1_0000) + h }

  /** The word with its low 26 bits replaced: (w & 0xFC000000) | a. */
  function WithLow26(w: U32, a: int): U32
    requires 0 <= a < 0x400_0000
  {
    0x400_0000 * (w / 0x400_0000) + a
  }

  /** AHL: the 32-bit addend split over a HI16 and its LO16. */
  function Ahl(hi: U16, lo: U16): U32 { Trunc32(0x1_0000 * hi + Sext16(lo)) }

  /** ((AHL + S) - (short)(AHL + S)) >> 16 */
  function AbiHi16(ahl: U32, s: U32): U16 {
    RoundedHi(Trunc32(ahl + s))
  }

  /** (V - (short)V) >> 16 */
  function RoundedHi(v: U32): U16 { Trunc32(v - Sext16(Trunc16(v))) / 0x1_0000 }

  /** AHL + S, of which the instruction keeps the low half */
  function AbiLo16(ahl: U32, s: U32): U16 { Trunc16(ahl + s) }

  /** (((A << 2) | (P & 0xf0000000)) + S) >> 2, of which the instruction keeps 26 bits */
  function AbiLocal26(a: int, p: U32, s: U32): int
    requires 0 <= a < 0x400_0000
  {
    Trunc32(4 * a + (p - p % 0x1000_0000) + s) / 4 % 0x400_0000
  }

  /** (sign-extend(A << 2) + S) >> 2, of which the instruction keeps 26 bits */
  function AbiExternal26(a: int, s: U32): int
    requires 0 <= a < 0x400_0000
  {
    var ext := if a < 0x200_0000 then 4 * a else 4 * a - 0x1000_0000;
    Trunc32(ext + s) / 4 % 0x400_0000
  }

  /** The high half the loader computes: the ABI's, but for the sign extension it uses. */
  function LoaderHi16(hi: U16, lo: U16, s: U32): U16 {
    AbiHi16(Trunc32(0x1_0000 * hi + LoaderSext16(lo)), s)
  }

  /** The word the ABI asks for; `lo` is the immediate of the LO16 paired with a HI16. */
  function AbiWord(t: int, w: U32, s: U32, lo: U16, p: U32, internal: bool): U32 {
    if t == R_MIPS_32 then Trunc32(w + s)
    else if t == R_MIPS_26 then
      var a := w % 0x400_0000;
      WithLow26(w, if internal then AbiLocal26(a, p, s) else AbiExternal26(a, s))
    else if t == R_MIPS_HI16 then
      WithLow16(w, AbiHi16(Ahl(Trunc16(w), lo), s))
    else if t == R_MIPS_LO16 then
      WithLow16(w, AbiLo16(Ahl(0, Trunc16(w)), s))
    else w
  }

  /**
   The word the loader leaves, in terms of the original word, the symbol address and the immediate of the
   first later LO16 of the same table.
   */
  function LoaderWord(t: int, w: U32, s: U32, lo: Option<U16>): U32 {
    if t == R_MIPS_32 then Trunc32(w + s)
    else if t == R_MIPS_26 then WithLow26(w, (w % 0x400_0000 + s / 4) % 0x400_0000)
    else if t == R_MIPS_HI16 then
      if lo == None then w
      else WithLow16(w, LoaderHi16(Trunc16(w), lo.value, s))
    else if t == R_MIPS_LO16 then WithLow16(w, Trunc16(w + s))
    else w
  }

  /** (short)v */
  function Short(v: int): int { if v % 0x1_0000 < 0x8000 then v % 0x1_0000 else v % 0x1_0000 - 0x1_0000 }

  /** The ABI's formulas by type number, in plain arithmetic: word w, address s, place p, the other immediate lo. */
  lemma AbiInNumbers(w: U32, s: U32, lo: U16, p: U32, internal: bool)
    ensures AbiWord(2, w, s, lo, p, internal) == (w + s) % 0x1_0000_0000
    ensures AbiWord(4, w, s, lo, p, true) ==
            w - w % 0x400_0000
            + (4 * (w % 0x400_0000) + (p - p % 0x1000_0000) + s) % 0x1_0000_0000 / 4 % 0x400_0000
    ensures AbiWord(4, w, s, lo, p, false) ==
            w - w % 0x400_0000
            + (4 * (w % 0x400_0000) - (if w % 0x400_0000 < 0x200_0000 then 0 else 0x1000_0000) + s)
              % 0x1_0000_0000 / 4 % 0x400_0000
    ensures var v := 0x1_0000 * (w % 0x1_0000) + Short(lo) + s;
            AbiWord(5, w, s, lo, p, internal) == w - w % 0x1_0000 + (v - Short(v)) / 0x1_0000 % 0x1_0000
    ensures AbiWord(6, w, s, lo, p, internal) == w - w % 0x1_0000 + (w + s) % 0x1_0000
  {
    hide AbiWord, WithLow26;
    AbiOf32And26(w, s, lo, p, internal);
    AbiOfHalves(w, s, lo, p, internal);
  }

  lemma AbiOf32And26(w: U32, s: U32, lo: U16, p: U32, internal: bool)
    ensures AbiWord(2, w, s, lo, p, internal) == (w + s) % 0x1_0000_0000
    ensures AbiWord(4, w, s, lo, p, true) ==
            w - w % 0x400_0000
            + (4 * (w % 0x400_0000) + (p - p % 0x1000_0000) + s) % 0x1_0000_0000 / 4 % 0x400_0000
    ensures AbiWord(4, w, s, lo, p, false) ==
            w - w % 0x400_0000
            + (4 * (w % 0x400_0000) - (if w % 0x400_0000 < 0x200_0000 then 0 else 0x1000_0000) + s)
              % 0x1_0000_0000 / 4 % 0x400_0000
  {
    hide AbiLocal26, AbiExternal26, WithLow26, Trunc32;
    Trunc32Is(w + s);
    var a := w % 0x400_0000;
    LocalInNumbers(a, p, s);
    ExternalInNumbers(a, s);
    LowReplaced(w, AbiLocal26(a, p, s));
    LowReplaced(w, AbiExternal26(a, s));
  }

  lemma Trunc32Is(x: int)
    ensures Trunc32(x) == x % 0x1_0000_0000
  {
  }

  lemma LowReplaced(w: U32, a: int)
    requires 0 <= a < 0x400_0000
    ensures WithLow26(w, a) == w - w % 0x400_0000 + a
  {
  }

  lemma LocalInNumbers(a: int, p: U32, s: U32)
    requires 0 <= a < 0x400_0000
    ensures AbiLocal26(a, p, s) == (4 * a + (p - p % 0x1000_0000) + s) % 0x1_0000_0000 / 4 % 0x400_0000
  {
  }

  lemma ExternalInNumbers(a: int, s: U32)
    requires 0 <= a < 0x400_0000
    ensures AbiExternal26(a, s)
         == (4 * a - (if a < 0x200_0000 then 0 else 0x1000_0000) + s) % 0x1_0000_0000 / 4 % 0x400_0000
  {
  }

  lemma AbiOfHalves(w: U32, s: U32, lo: U16, p: U32, internal: bool)
    ensures var v := 0x1_0000 * (w % 0x1_0000) + Short(lo) + s;
            AbiWord(5, w, s, lo, p, internal) == w - w % 0x1_0000 + (v - Short(v)) / 0x1_0000 % 0x1_0000
    ensures AbiWord(6, w, s, lo, p, internal) == w - w % 0x1_0000 + (w + s) % 0x1_0000
  {
    hide AbiHi16, Ahl, Short;
    AbiHiInNumbers(w, s, lo);
    LowHalfOfSum(0, Trunc16(w), s);
    LowSum(w, s);
  }

  lemma AbiHiInNumbers(w: U32, s: U32, lo: U16)
    ensures var v := 0x1_0000 * (w % 0x1_0000) + Short(lo) + s;
            AbiHi16(Ahl(Trunc16(w), lo), s) == (v - Short(v)) / 0x1_0000 % 0x1_0000
  {
    var v := 0x1_0000 * (w % 0x1_0000) + Short(lo) + s;
    hide Ahl, RoundedHi;
    assert Trunc32(Ahl(Trunc16(w), lo) + s) == Trunc32(v) by {
      AhlInNumbers(w, lo);
      TruncCarries(0x1_0000 * (w % 0x1_0000) + Short(lo), s);
    }
    RoundedInNumbers(v);
  }

  lemma AhlInNumbers(w: U32, lo: U16)
    ensures Ahl(Trunc16(w), lo) == Trunc32(0x1_0000 * (w % 0x1_0000) + Short(lo))
  {
  }

  lemma RoundedInNumbers(v: int)
    ensures RoundedHi(Trunc32(v)) == (v - Short(v)) / 0x1_0000 % 0x1_0000
  {
    hide RoundedHi;
    var u := Trunc32(v);
    var h, l := u / 0x1_0000, u % 0x1_0000;
    RoundedHiIs(h, l);
    LowHalfOfTrunc(v);
    var k := v / 0x1_0000_0000;
    assert v == 0x1_0000_0000 * k + 0x1_0000 * h + l;
    HighPart(k, h, l);
  }

  lemma HighPart(k: int, h: U16, l: U16)
    ensures var v := 0x1_0000_0000 * k + 0x1_0000 * h + l;
            (v - Short(v)) / 0x1_0000 % 0x1_0000 == if l < 0x8000 then h else Next16(h)
  {
    var v := 0x1_0000_0000 * k + 0x1_0000 * h + l;
    assert v == 0x1_0000 * (0x1_0000 * k + h) + l;
    assert Short(v) == if l < 0x8000 then l else l - 0x1_0000;
    var q := 0x1_0000 * k + h + if l < 0x8000 then 0 else 1;
    assert v - Short(v) == 0x1_0000 * q;
    if l >= 0x8000 && h == 0xffff {
      assert q == 0x1_0000 * (k + 1);
    }
  }

  // ----- The loader against the ABI

  /** Both jump formulas agree on the 26 bits kept, whatever the place P. */
  lemma Jump26(a: int, p: U32, s: U32)
    requires 0 <= a < 0x400_0000
    ensures AbiLocal26(a, p, s) == AbiExternal26(a, s) == (a + s / 4) % 0x400_0000
  {
    var top := p / 0x1000_0000;
    assert p - p % 0x1000_0000 == 0x1000_0000 * top;
    Kept26(4 * a + (p - p % 0x1000_0000) + s, a + s / 4, top, s % 4);
    var ext := if a < 0x200_0000 then 4 * a else 4 * a - 0x1000_0000;
    Kept26(ext + s, a + s / 4, if a < 0x200_0000 then 0 else -1, s % 4);
  }

  lemma Kept26(x: int, y: int, k: int, low: int)
    requires x == 4 * (y + 0x400_0000 * k) + low && 0 <= low < 4
    ensures Trunc32(x) / 4 % 0x400_0000 == y % 0x400_0000
  {
    var q := x / 0x1_0000_0000;
    var z := y + 0x400_0000 * k - 0x4000_0000 * q;
    assert Trunc32(x) == 4 * z + low;
    assert z == y + 0x400_0000 * (k - 16 * q);
    SameRemainder26(y, k - 16 * q);
  }

  lemma SameRemainder26(y: int, m: int)
    ensures (y + 0x400_0000 * m) % 0x400_0000 == y % 0x400_0000
  {
  }

  /**
   Every word is the ABI's, except a HI16 paired with an immediate of exactly 0x8000: that one is off by
   exactly one, which is an address 0x10000 too high.
   */
  lemma LoaderMeetsAbi(t: int, w: U32, s: U32, lo: U16, p: U32, internal: bool)
    requires KnownType(t)
    ensures LoaderWord(t, w, s, Some(lo)) == AbiWord(t, w, s, lo, p, internal)
            <==> !(t == R_MIPS_HI16 && lo == 0x8000)
    ensures t == R_MIPS_HI16 && lo == 0x8000 ==>
      var ours, abi := LoaderWord(t, w, s, Some(lo)), AbiWord(t, w, s, lo, p, internal);
      ours / 0x1_0000 == abi / 0x1_0000 && Trunc16(ours) == Next16(Trunc16(abi))
  {
    hide AbiHi16, LoaderHi16, Ahl, AbiLocal26, AbiExternal26;
    if t == R_MIPS_26 {
      Jump26(w % 0x400_0000, p, s);
    } else if t == R_MIPS_HI16 {
      HiMeetsAbi(w, s, lo, p, internal);
    } else if t == R_MIPS_LO16 {
      LowHalfOfSum(0, Trunc16(w), s);
      LowSum(w, s);
    }
  }

  lemma HiMeetsAbi(w: U32, s: U32, lo: U16, p: U32, internal: bool)
    ensures var ours := LoaderWord(R_MIPS_HI16, w, s, Some(lo));
            var abi := AbiWord(R_MIPS_HI16, w, s, lo, p, internal);
            && (ours == abi <==> lo != 0x8000)
            && (lo == 0x8000 ==> ours / 0x1_0000 == abi / 0x1_0000 && Trunc16(ours) == Next16(Trunc16(abi)))
  {
    hide AbiHi16, LoaderHi16, Ahl;
    var hi := Trunc16(w);
    var h, g := LoaderHi16(hi, lo, s), AbiHi16(Ahl(hi, lo), s);
    assert h == if lo == 0x8000 then Next16(g) else g by { HiDeviation(hi, lo, s); }
    LowHalfReplaced(w, h);
    LowHalfReplaced(w, g);
  }

  lemma LowHalfReplaced(w: U32, h: U16)
    ensures WithLow16(w, h) / 0x1_0000 == w / 0x1_0000
    ensures Trunc16(WithLow16(w, h)) == h
  {
  }

  lemma LowSum(w: U32, s: U32)
    ensures Trunc16(w + s) == Trunc16(Trunc16(w) + s)
  {
  }

  /** The high half an addend really contributes: one less when the low half is negative. */
  function Borrowed(hi: U16, lo: U16): U16 {
    if lo < 0x8000 then hi else if hi > 0 then hi - 1 else 0xffff
  }

  lemma AhlIs(hi: U16, lo: U16)
    ensures Ahl(hi, lo) == 0x1_0000 * Borrowed(hi, lo) + lo
  {
  }

  lemma LowHalfOfSum(hi: U16, lo: U16, s: U32)
    ensures Trunc16(Ahl(hi, lo) + s) == Trunc16(lo + s)
  {
    AhlIs(hi, lo);
    SameLowHalf(lo + s, Borrowed(hi, lo));
  }

  lemma LowHalfOfTrunc(x: int)
    ensures Trunc16(Trunc32(x)) == Trunc16(x)
  {
    SameLowHalf(x, -0x1_0000 * (x / 0x1_0000_0000));
  }

  lemma SameLowHalf(x: int, k: int)
    ensures Trunc16(x + 0x1_0000 * k) == Trunc16(x)
  {
  }

  lemma HiDeviation(hi: U16, lo: U16, s: U32)
    ensures var ours := LoaderHi16(hi, lo, s);
            var abi := AbiHi16(Ahl(hi, lo), s);
            ours == if lo == 0x8000 then Next16(abi) else abi
  {
    hide Trunc32, RoundedHi;
    if lo == 0x8000 {
      var addend := 0x1_0000 * hi + Sext16(lo);
      TruncReorder(addend, 0x1_0000, s);
      NextHi(Trunc32(Trunc32(addend) + s));
    }
  }

  lemma TruncReorder(x: int, y: int, s: int)
    ensures Trunc32(Trunc32(x + y) + s) == Trunc32(Trunc32(Trunc32(x) + s) as int + y)
  {
    hide Trunc32;
    TruncCarries(x + y, s);
    TruncCarries(x, s);
    TruncCarries(x + s, y);
  }

  function Next16(h: U16): U16 { if h < 0xffff then h + 1 else 0 }

  lemma NextHi(v: U32)
    ensures RoundedHi(Trunc32(v as int + 0x1_0000)) == Next16(RoundedHi(v))
  {
    var h, l := v / 0x1_0000, v % 0x1_0000;
    RoundedHiIs(h, l);
    RoundedHiIs(Next16(h), l);
    assert Trunc32(v as int + 0x1_0000) == 0x1_0000 * Next16(h) + l;
  }

  lemma RoundedHiIs(h: U16, l: U16)
    ensures RoundedHi(0x1_0000 * h + l) == if l < 0x8000 then h else Next16(h)
  {
    var v: U32 := 0x1_0000 * h + l;
    assert Trunc16(v) == l;
  }

  /**
   The patched pair denotes the original address moved by S: what a lui/addiu pair computes at run time.
   It holds exactly when the LO16 immediate is not 0x8000.
   */
  lemma HiLoPair(hiWord: U32, loWord: U32, s: U32)
    ensures
      var lo := Trunc16(loWord);
      var hi' := Trunc16(LoaderWord(R_MIPS_HI16, hiWord, s, Some(lo)));
      var lo' := Trunc16(LoaderWord(R_MIPS_LO16, loWord, s, None));
      Ahl(hi', lo') == Trunc32(Ahl(Trunc16(hiWord), lo) + s) <==> lo != 0x8000
  {
    var hi, lo := Trunc16(hiWord), Trunc16(loWord);
    hide AbiHi16, LoaderHi16, Ahl;
    PairedHalves(hi, lo, s);
    LowHalfReplaced(loWord, Trunc16(loWord + s));
    LowSum(loWord, s);
    LowHalfReplaced(hiWord, LoaderHi16(hi, lo, s));
  }

  lemma PairedHalves(hi: U16, lo: U16, s: U32)
    ensures Ahl(LoaderHi16(hi, lo, s), Trunc16(lo + s)) == Trunc32(Ahl(hi, lo) + s) <==> lo != 0x8000
  {
    hide LoaderHi16, RoundedHi;
    var v := Trunc32(Ahl(hi, lo) + s);
    var l := Trunc16(lo + s);
    assert l == Trunc16(v) by {
      LowHalfOfSum(hi, lo, s);
      LowHalfOfTrunc(Ahl(hi, lo) + s);
    }
    HiDeviation(hi, lo, s);
    RejoinHalves(LoaderHi16(hi, lo, s), RoundedHi(v), v, l, lo);
  }

  lemma RejoinHalves(h: U16, g: U16, v: U32, l: U16, lo: U16)
    requires g == RoundedHi(v) && l == Trunc16(v) && h == if lo == 0x8000 then Next16(g) else g
    ensures Ahl(h, l) == v <==> lo != 0x8000
  {
    hide Ahl, RoundedHi;
    SplitAndJoin(v);
    if lo == 0x8000 {
      AhlInjective(h, g, l);
    }
  }

  lemma AhlInjective(h: U16, g: U16, l: U16)
    requires h != g
    ensures Ahl(h, l) != Ahl(g, l)
  {
    AhlIs(h, l);
    AhlIs(g, l);
  }

  /** Splitting an address into a rounded high half and a signed low half loses nothing. */
  lemma SplitAndJoin(v: U32)
    ensures Ahl(RoundedHi(v), Trunc16(v)) == v
  {
    var h, l := v / 0x1_0000, v % 0x1_0000;
    RoundedHiIs(h, l);
    AhlIs(RoundedHi(v), l);
  }

  /** Relocation never touches the bits that select the instruction and its registers. */
  lemma OpcodeBitsKept(t: int, w: U32, s: U32, lo: Option<U16>)
    ensures t == R_MIPS_26 ==> LoaderWord(t, w, s, lo) / 0x400_0000 == w / 0x400_0000
    ensures t == R_MIPS_HI16 || t == R_MIPS_LO16 ==> LoaderWord(t, w, s, lo) / 0x1_0000 == w / 0x1_0000
  {
  }
}
