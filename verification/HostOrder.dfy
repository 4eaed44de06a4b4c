/**
 Byte swapping in the tools (need_swap, swap_u16, swap_u32 of tools/elf2uso.cpp and tools/make_uso_externs.cpp):
 the files they write and read are big-endian whatever machine they run on.
 */
module HostOrder {
  import opened Words

  /** The bytes of a native integer in memory. */
  function HostBytes32(little: bool, v: U32): (b: seq<Byte>)
    ensures |b| == 4
  {
    var b := WordBytes(v);
    if little then [b[3], b[2], b[1], b[0]] else b
  }

  function HostBytes16(little: bool, v: U16): (b: seq<Byte>)
    ensures |b| == 2
  {
    var b := HalfBytes(v);
    if little then [b[1], b[0]] else b
  }

  function HostWord(little: bool, b: seq<Byte>): U32
    requires |b| == 4
  {
    Word(if little then [b[3], b[2], b[1], b[0]] else b, 0)
  }

  function HostHalf(little: bool, b: seq<Byte>): U16
    requires |b| == 2
  {
    Half(if little then [b[1], b[0]] else b, 0)
  }

  /** swap_u32: swaps on a little-endian host only. */
  function SwapU32(little: bool, v: U32): U32 {
    if little then Word([v % 0x100, v / 0x100 % 0x100, v / 0x100 / 0x100 % 0x100, v / 0x100 / 0x100 / 0x100], 0) else v
  }

  function SwapU16(little: bool, v: U16): U16 {
    if little then Half([v % 0x100, v / 0x100], 0) else v
  }

  lemma SwapReverses(v: U32)
    ensures WordBytes(SwapU32(true, v)) == [v % 0x100, v / 0x100 % 0x100, v / 0x100 / 0x100 % 0x100,
                                            v / 0x100 / 0x100 / 0x100]
  {
    var b: seq<Byte> := [v % 0x100, v / 0x100 % 0x100, v / 0x100 / 0x100 % 0x100, v / 0x100 / 0x100 / 0x100];
    BytesOfWord(b, 0);
  }

  /** The four bytes of a number, in memory order, on either kind of host, and what swapping makes of it. */
  lemma BytesInNumbers(b0: Byte, b1: Byte, b2: Byte, b3: Byte)
    ensures var v := 0x100_0000 * b0 + 0x1_0000 * b1 + 0x100 * b2 + b3;
            && HostBytes32(false, v) == WordBytes(v) == [b0, b1, b2, b3] && HostBytes32(true, v) == [b3, b2, b1, b0]
            && SwapU32(false, v) == v && SwapU32(true, v) == 0x100_0000 * b3 + 0x1_0000 * b2 + 0x100 * b1 + b0
    ensures var h := 0x100 * b0 + b1;
            && HostBytes16(false, h) == HalfBytes(h) == [b0, b1] && HostBytes16(true, h) == [b1, b0]
            && SwapU16(false, h) == h && SwapU16(true, h) == 0x100 * b1 + b0
  {
    var v := 0x100_0000 * b0 + 0x1_0000 * b1 + 0x100 * b2 + b3;
    assert v / 0x100 == 0x1_0000 * b0 + 0x100 * b1 + b2;
    assert v / 0x100 / 0x100 == 0x100 * b0 + b1;
  }

  /** Swapping twice is no swap at all. */
  lemma SwapInvolution(little: bool, v: U32)
    ensures SwapU32(little, SwapU32(little, v)) == v
  {
    if little {
      SwapReverses(v);
      var w := SwapU32(true, v);
      var b := WordBytes(w);
      assert SwapU32(true, w) == Word([b[3], b[2], b[1], b[0]], 0);
      assert [b[3], b[2], b[1], b[0]] == WordBytes(v);
      WordOfBytes(v);
    }
  }

  lemma Swap16Involution(little: bool, v: U16)
    ensures SwapU16(little, SwapU16(little, v)) == v
  {
  }

  /** Swap, then store the native bytes: the file gets the big-endian bytes on any host. */
  lemma StoredBigEndian(little: bool, v: U32)
    ensures HostBytes32(little, SwapU32(little, v)) == WordBytes(v)
  {
    if little {
      SwapReverses(v);
    }
  }

  lemma Stored16BigEndian(little: bool, v: U16)
    ensures HostBytes16(little, SwapU16(little, v)) == HalfBytes(v)
  {
  }

  /** Read native bytes, then swap: the value of the big-endian bytes on any host. */
  lemma FetchedBigEndian(little: bool, b: seq<Byte>)
    requires |b| == 4
    ensures SwapU32(little, HostWord(little, b)) == Word(b, 0)
  {
    if little {
      var r := [b[3], b[2], b[1], b[0]];
      var w := Word(r, 0);
      BytesOfWord(r, 0);
      assert r[0..4] == r;
      assert WordBytes(w) == r;
    }
  }

  lemma Fetched16BigEndian(little: bool, b: seq<Byte>)
    requires |b| == 2
    ensures SwapU16(little, HostHalf(little, b)) == Half(b, 0)
  {
  }
}
