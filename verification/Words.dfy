/** Fixed-width integers and their big-endian byte images, as both the N64 and the USO file use them. */
module Words {
  type Byte = x: int | 0 <= x < 0x100
  type U16 = x: int | 0 <= x < 0x1_0000
  type U32 = x: int | 0 <= x < 0x1_0000_0000

  datatype Option<+T> = None | Some(value: T)

  /** Keeps the low 32 bits, as every uint32_t operation does. */
  function Trunc32(x: int): U32 { x % 0x1_0000_0000 }

  /** Cutting to 32 bits before adding does not matter. */
  lemma TruncCarries(x: int, y: int)
    ensures Trunc32(Trunc32(x) + y) == Trunc32(x + y)
  {
  }

  /** Keeps the low 16 bits, as every uint16_t operation does. */
  function Trunc16(x: int): U16 { x % 0x1_0000 }

  /** The big-endian word at a byte offset, which need not be aligned. */
  function Word(b: seq<Byte>, ofs: nat): U32
    requires ofs + 4 <= |b|
  {
    var b0: int, b1: int, b2: int, b3: int := b[ofs], b[ofs + 1], b[ofs + 2], b[ofs + 3];
    ((b0 * 0x100 + b1) * 0x100 + b2) * 0x100 + b3
  }

  /** The big-endian half-word at a byte offset. */
  function Half(b: seq<Byte>, ofs: nat): U16
    requires ofs + 2 <= |b|
  {
    var b0: int, b1: int := b[ofs], b[ofs + 1];
    0x100 * b0 + b1
  }

  function WordBytes(v: U32): (b: seq<Byte>)
    ensures |b| == 4
  {
    var v1 := v / 0x100;
    var v2 := v1 / 0x100;
    [v2 / 0x100, v2 % 0x100, v1 % 0x100, v % 0x100]
  }

  function HalfBytes(v: U16): (b: seq<Byte>)
    ensures |b| == 2
  {
    [v / 0x100, v % 0x100]
  }

  lemma WordOfBytes(v: U32)
    ensures Word(WordBytes(v), 0) == v
  {
  }

  lemma BytesOfWord(b: seq<Byte>, ofs: nat)
    requires ofs + 4 <= |b|
    ensures WordBytes(Word(b, ofs)) == b[ofs..ofs + 4]
  {
    var b0: int, b1: int, b2: int := b[ofs], b[ofs + 1], b[ofs + 2];
    var v := Word(b, ofs);
    assert v / 0x100 == (b0 * 0x100 + b1) * 0x100 + b2;
    assert v / 0x100 / 0x100 == b0 * 0x100 + b1;
  }

  lemma HalfOfBytes(v: U16)
    ensures Half(HalfBytes(v), 0) == v
  {
  }
}
