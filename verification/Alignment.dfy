/**
 Rounding up to a power of two with a mask, as align_val (tools/elf2uso.cpp:377-381) and roundup_value and
 roundup_ptr (src/uso.c:27-37) do it on 32-bit values.
 */
module Alignment {
  import opened Words

  /** Bitwise and. */
  function BitAnd(a: nat, b: nat): (r: nat)
    ensures r <= a
  {
    if a == 0 || b == 0 then 0 else 2 * BitAnd(a / 2, b / 2) + (if a % 2 == 1 && b % 2 == 1 then 1 else 0)
  }

  function BitNot(x: U32): U32 { 0xffff_ffff - x }

  /** (val + to - 1) & ~(to - 1), in 32 bits. */
  function AlignVal(val: U32, to: U32): (r: nat)
    ensures r < 0x1_0000_0000
  {
    BitAnd(Trunc32(val + to - 1), BitNot(Trunc32(to - 1)))
  }

  function Pow2(k: nat): (p: nat)
    ensures p >= 1
  {
    if k == 0 then 1 else 2 * Pow2(k - 1)
  }

  ghost predicate IsPow2(a: int) { exists k: nat :: k < 32 && a == Pow2(k) }

  /** Counting down by a ends at 0. */
  predicate MultipleOf(x: nat, a: nat)
    requires a > 0
  {
    x == 0 || (x >= a && MultipleOf(x - a, a))
  }

  /** The least multiple of a that is not below v (RoundUpIs). */
  function RoundUp(v: nat, a: nat): (r: nat)
    requires a > 0
    ensures v <= r < v + a
  {
    if v == 0 then 0 else if v <= a then a else a + RoundUp(v - a, a)
  }

  // ----- Multiples

  lemma {:induction false} MultipleIsNoRemainder(x: nat, a: nat)
    requires a > 0
    ensures MultipleOf(x, a) <==> x % a == 0
  {
    if x >= a {
      MultipleIsNoRemainder(x - a, a);
      OneLess(x, a);
    }
  }

  lemma OneLess(x: nat, a: nat)
    requires 0 < a <= x
    ensures x % a == (x - a) % a
  {
    var q, r := (x - a) / a, (x - a) % a;
    assert x - a == q * a + r;
    assert x == (q + 1) * a + r;
    RemainderIs(x, a, q + 1, r);
  }

  lemma Multiples(i: int, a: int)
    requires a > 0
    ensures i >= 1 ==> i * a >= a
    ensures i <= -1 ==> i * a <= -a
  {
    if i >= 1 {
      assert (i - 1) * a >= 0;
    } else if i <= -1 {
      assert (-i - 1) * a >= 0;
    }
  }

  /** Quotient and remainder are unique. */
  lemma RemainderIs(x: int, a: int, q: int, r: int)
    requires a > 0 && 0 <= r < a && x == q * a + r
    ensures x % a == r
  {
    var d, m := x / a, x % a;
    assert x == d * a + m;
    assert (q - d) * a == q * a - d * a;
    Multiples(q - d, a);
  }

  lemma {:induction false} SumOfMultiples(x: nat, y: nat, a: nat)
    requires a > 0 && MultipleOf(x, a) && MultipleOf(y, a)
    ensures MultipleOf(x + y, a)
  {
    if x > 0 {
      SumOfMultiples(x - a, y, a);
    }
  }

  lemma {:induction false} DoubleMultiple(x: nat, a: nat)
    requires a > 0 && MultipleOf(x, a)
    ensures MultipleOf(2 * x, 2 * a)
  {
    if x > 0 {
      DoubleMultiple(x - a, a);
    }
  }

  lemma {:induction false} MultipleOfHalf(x: nat, a: nat)
    requires a > 0 && MultipleOf(x, 2 * a)
    ensures MultipleOf(x, a)
  {
    if x > 0 {
      MultipleOfHalf(x - 2 * a, a);
    }
  }

  /** The only multiple of a in [v, v + a) is RoundUp(v, a). */
  lemma {:induction false} RoundUpIs(v: nat, a: nat, m: nat)
    requires a > 0
    ensures MultipleOf(m, a) && v <= m < v + a <==> m == RoundUp(v, a)
  {
    if v > a {
      if m >= a {
        RoundUpIs(v - a, a, m - a);
      }
    } else if v > 0 && m >= a {
      assert MultipleOf(m, a) <==> MultipleOf(m - a, a);
    }
  }

  /** From an aligned base, rounding an address is rounding the distance from the base. */
  lemma RoundUpShift(b: nat, o: nat, a: nat)
    requires a > 0 && MultipleOf(b, a)
    ensures RoundUp(b + o, a) == b + RoundUp(o, a) && MultipleOf(b + RoundUp(o, a), a)
  {
    hide MultipleOf;
    RoundUpIs(o, a, RoundUp(o, a));
    SumOfMultiples(b, RoundUp(o, a), a);
    RoundUpIs(b + o, a, b + RoundUp(o, a));
  }

  // ----- Powers of two

  lemma {:induction false} Pow2Grows(k: nat, n: nat)
    requires k <= n
    ensures Pow2(k) <= Pow2(n)
    decreases n
  {
    if k < n {
      Pow2Grows(k, n - 1);
    }
  }

  lemma Pow2Of32()
    ensures Pow2(32) == 0x1_0000_0000
  {
    assert Pow2(8) == 0x100;
    assert Pow2(16) == 0x1_0000;
    assert Pow2(24) == 0x100_0000;
  }

  lemma {:induction false} Pow2Divides(k: nat, n: nat, m: nat)
    requires k <= n && MultipleOf(m, Pow2(n))
    ensures MultipleOf(m, Pow2(k))
    decreases n
  {
    hide MultipleOf;
    if k < n {
      MultipleOfHalf(m, Pow2(n - 1));
      Pow2Divides(k, n - 1, m);
    }
  }

  /** A multiple of a power of two is a multiple of every power of two that is not larger. */
  lemma AlignedToLarger(m: nat, a: nat, b: nat)
    requires IsPow2(a) && IsPow2(b) && a <= b && MultipleOf(m, b)
    ensures MultipleOf(m, a)
  {
    hide MultipleOf;
    var k: nat :| k < 32 && a == Pow2(k);
    var n: nat :| n < 32 && b == Pow2(n);
    if k > n {
      Pow2Grows(n + 1, k);
    }
    Pow2Divides(k, n, m);
  }

  // ----- Masks

  lemma {:induction false} AllOnes(x: nat, n: nat)
    requires x < Pow2(n)
    ensures BitAnd(x, Pow2(n) - 1) == x
  {
    if x != 0 {
      AllOnes(x / 2, n - 1);
      assert (Pow2(n) - 1) / 2 == Pow2(n - 1) - 1;
    }
  }

  /** Masking with n - k leading ones clears the k low bits: it rounds down to a multiple of 2^k. */
  lemma {:induction false} MaskRoundsDown(x: nat, n: nat, k: nat)
    requires k <= n && x < Pow2(n)
    ensures Pow2(k) <= Pow2(n)
    ensures var m := BitAnd(x, Pow2(n) - Pow2(k)); MultipleOf(m, Pow2(k)) && m <= x < m + Pow2(k)
  {
    hide BitAnd, MultipleOf;
    Pow2Grows(k, n);
    if k == 0 {
      AllOnes(x, n);
      MultipleOfOne(x);
    } else {
      MaskRoundsDown(x / 2, n - 1, k - 1);
      var half := Pow2(n - 1) - Pow2(k - 1);
      EvenMask(x, half);
      DoubleMultiple(BitAnd(x / 2, half), Pow2(k - 1));
    }
  }

  lemma {:induction false} MultipleOfOne(x: nat)
    ensures MultipleOf(x, 1)
  {
    if x > 0 {
      MultipleOfOne(x - 1);
    }
  }

  lemma EvenMask(x: nat, half: nat)
    ensures BitAnd(x, 2 * half) == 2 * BitAnd(x / 2, half)
  {
    assert 2 * half / 2 == half;
  }

  /** With a power of two and no overflow, the mask form is rounding up. */
  lemma AlignValRounds(val: U32, to: U32)
    requires IsPow2(to) && val + to - 1 < 0x1_0000_0000
    ensures AlignVal(val, to) == RoundUp(val, to)
  {
    hide RoundUp, AlignVal, BitAnd, MultipleOf;
    var k: nat :| k < 32 && to == Pow2(k);
    Pow2Of32();
    AlignValIsMask(val, to);
    MaskRoundsDown(val as int + to - 1, 32, k);
    RoundUpIs(val, to, AlignVal(val, to));
  }

  lemma AlignValIsMask(val: U32, to: U32)
    requires 1 <= to && val + to - 1 < 0x1_0000_0000
    ensures AlignVal(val, to) == BitAnd(val as int + to - 1, 0x1_0000_0000 - to as int)
  {
    hide BitAnd;
  }

  /** Alignment zero, which ELF allows for "none", does not round: it sends every value to 0. */
  lemma AlignValZero(val: U32)
    ensures AlignVal(val, 0) == 0
  {
  }

  // ----- Only powers of two work

  /** A number and its complement have no bit in common. */
  lemma {:induction false} ComplementApart(x: nat, n: nat)
    requires x < Pow2(n)
    ensures BitAnd(x, Pow2(n) - 1 - x) == 0
  {
    if n > 0 {
      ComplementApart(x / 2, n - 1);
      HalfOfComplement(x, Pow2(n - 1));
    }
  }

  lemma HalfOfComplement(x: nat, p: nat)
    requires x < 2 * p
    ensures (2 * p - 1 - x) / 2 == p - 1 - x / 2
    ensures (2 * p - 1 - x) % 2 == 1 <==> x % 2 == 0
  {
  }

  /** An odd number shares only its last bit with its negative. */
  lemma OddBitAlone(t: nat, n: nat)
    requires t % 2 == 1 && t < Pow2(n)
    ensures BitAnd(t, Pow2(n) - t) == 1
  {
    var p := Pow2(n - 1);
    ComplementApart(t / 2, n - 1);
    HalfOfComplement(t - 1, p);
  }

  /** A number that survives the mask of its own negative is a power of two. */
  lemma {:induction false} LowestBitAlone(t: nat, n: nat) returns (k: nat)
    requires 1 <= t < Pow2(n) && BitAnd(t, Pow2(n) - t) == t
    ensures k < n && t == Pow2(k)
  {
    hide BitAnd;
    if t % 2 == 1 {
      OddBitAlone(t, n);
      k := 0;
    } else {
      EvenMask(t, Pow2(n - 1) - t / 2);
      k := LowestBitAlone(t / 2, n - 1);
      k := k + 1;
    }
  }

  /**
   The mask rounds up, for every value that leaves room, if and only if the alignment is a power of two. The value 1
   already gives every other alignment away.
   */
  lemma AlignValIffPow2(to: U32)
    requires 1 <= to
    ensures (forall val: U32 :: val + to - 1 < 0x1_0000_0000 ==> AlignVal(val, to) == RoundUp(val, to)) <==> IsPow2(to)
    ensures AlignVal(1, to) == RoundUp(1, to) <==> IsPow2(to)
  {
    hide BitAnd, AlignVal;
    Pow2Of32();
    AlignValIsMask(1, to);
    if AlignVal(1, to) == RoundUp(1, to) {
      var k := LowestBitAlone(to, 32);
    }
    if IsPow2(to) {
      forall val: U32 | val + to - 1 < 0x1_0000_0000
        ensures AlignVal(val, to) == RoundUp(val, to)
      {
        AlignValRounds(val, to);
      }
    }
  }

  /** From an aligned base, aligning an address with the mask is rounding the distance from the base. */
  lemma AlignValFromBase(base: U32, o: nat, a: U32, max: U32)
    requires IsPow2(a) && IsPow2(max) && 1 <= a <= max && MultipleOf(base, max)
    requires base + o + max <= 0x1_0000_0000
    ensures AlignVal(base + o, a) == base + RoundUp(o, a)
    ensures MultipleOf(base + RoundUp(o, a), a)
  {
    hide RoundUp, AlignVal, IsPow2, MultipleOf;
    AlignedToLarger(base, a, max);
    AlignValRounds(base + o, a);
    RoundUpShift(base, o, a);
  }
}
