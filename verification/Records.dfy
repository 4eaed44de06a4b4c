/** The fixed-size structures of a USO file, to bytes and back (src/uso_internal.h:13-78). */
module Records {
  import opened Words
  import opened HostOrder
  import opened Relocs
  import opened Fixups

  /** uso_symbol_t in the file */
  datatype SymbolRecord = SymbolRecord(nameOfs: U32, addr: U32, section: U16, nameLen: U16)

  /** uso_header_t in the file */
  datatype Header = Header(numSections: U16, ehFrame: U16, sectionsOfs: U32, importsOfs: U32, exportsOfs: U32,
                           ctors: U16, dtors: U16)

  /** A run of words, most significant byte first. */
  function WordsBytes(ws: seq<U32>): (b: seq<Byte>)
    ensures |b| == 4 * |ws|
  {
    if ws == [] then [] else WordBytes(ws[0]) + WordsBytes(ws[1..])
  }

  lemma {:induction false} WordOfWords(b: seq<Byte>, ofs: nat, ws: seq<U32>, k: nat)
    requires k < |ws| && ofs + 4 * |ws| <= |b| && b[ofs..ofs + 4 * |ws|] == WordsBytes(ws)
    ensures Word(b, ofs + 4 * k) == ws[k]
    decreases k
  {
    hide Word, WordBytes;
    var all := b[ofs..ofs + 4 * |ws|];
    if k == 0 {
      WordOfBytes(ws[0]);
      assert b[ofs..ofs + 4] == all[..4] == WordBytes(ws[0]);
      WordOfSlice(b, ofs, WordBytes(ws[0]));
    } else {
      assert b[ofs + 4..ofs + 4 * |ws|] == all[4..] == WordsBytes(ws[1..]);
      WordOfWords(b, ofs + 4, ws[1..], k - 1);
    }
  }

  lemma WordOfSlice(b: seq<Byte>, ofs: nat, w: seq<Byte>)
    requires |w| == 4 && ofs + 4 <= |b| && b[ofs..ofs + 4] == w
    ensures Word(b, ofs) == Word(w, 0)
  {
    assert forall i :: 0 <= i < 4 ==> b[ofs + i] == w[i];
  }

  lemma HalfOfSlice(b: seq<Byte>, ofs: nat, h: seq<Byte>)
    requires |h| == 2 && ofs + 2 <= |b| && b[ofs..ofs + 2] == h
    ensures Half(b, ofs) == Half(h, 0)
  {
    assert forall i :: 0 <= i < 2 ==> b[ofs + i] == h[i];
  }

  /** A slice of a slice. */
  lemma Part(b: seq<Byte>, ofs: nat, whole: seq<Byte>, from: nat, to: nat)
    requires from <= to <= |whole| && ofs + |whole| <= |b| && b[ofs..ofs + |whole|] == whole
    ensures b[ofs + from..ofs + to] == whole[from..to]
  {
    forall i | from <= i < to
      ensures b[ofs + i] == whole[i]
    {
      assert b[ofs..ofs + |whole|][i] == b[ofs + i];
    }
  }

  lemma WordWithin(f: seq<Byte>, ofs: nat, b: seq<Byte>, k: nat)
    requires k + 4 <= |b| && ofs + |b| <= |f| && b == f[ofs..ofs + |b|]
    ensures Word(b, k) == Word(f, ofs + k)
  {
    assert forall i :: 0 <= i < |b| ==> b[i] == f[ofs + i];
  }

  lemma HalfWithin(f: seq<Byte>, ofs: nat, b: seq<Byte>, k: nat)
    requires k + 2 <= |b| && ofs + |b| <= |f| && b == f[ofs..ofs + |b|]
    ensures Half(b, k) == Half(f, ofs + k)
  {
    assert forall i :: 0 <= i < |b| ==> b[i] == f[ofs + i];
  }

  /** A field fetched as the host has it, and swapped. */
  lemma FetchedWord(b: seq<Byte>, k: nat, little: bool)
    requires k + 4 <= |b|
    ensures SwapU32(little, HostWord(little, b[k..k + 4])) == Word(b, k)
  {
    hide SwapU32, HostWord, Word;
    FetchedBigEndian(little, b[k..k + 4]);
    WordOfSlice(b, k, b[k..k + 4]);
  }

  lemma FetchedHalf(b: seq<Byte>, k: nat, little: bool)
    requires k + 2 <= |b|
    ensures SwapU16(little, HostHalf(little, b[k..k + 2])) == Half(b, k)
  {
    hide SwapU16, HostHalf, Half;
    Fetched16BigEndian(little, b[k..k + 2]);
    HalfOfSlice(b, k, b[k..k + 2]);
  }

  // ----- Symbols

  function SymbolBytes(r: SymbolRecord): (b: seq<Byte>)
    ensures |b| == 12
  {
    WordsBytes([r.nameOfs, r.addr]) + HalfBytes(r.section) + HalfBytes(r.nameLen)
  }

  function SymbolAt(f: seq<Byte>, ofs: nat): SymbolRecord
    requires ofs + 12 <= |f|
  {
    SymbolRecord(Word(f, ofs), Word(f, ofs + 4), Half(f, ofs + 8), Half(f, ofs + 10))
  }

  lemma SymbolRoundTrip(f: seq<Byte>, ofs: nat, r: SymbolRecord)
    requires ofs + 12 <= |f| && f[ofs..ofs + 12] == SymbolBytes(r)
    ensures Word(f, ofs) == r.nameOfs && Word(f, ofs + 4) == r.addr
    ensures Half(f, ofs + 8) == r.section && Half(f, ofs + 10) == r.nameLen
    ensures SymbolAt(f, ofs) == r
  {
    hide Word, WordBytes, Half, HalfBytes, WordsBytes;
    var b := SymbolBytes(r);
    Part(f, ofs, b, 0, 8);
    Part(f, ofs, b, 8, 10);
    Part(f, ofs, b, 10, 12);
    assert b[0..8] == WordsBytes([r.nameOfs, r.addr]);
    assert b[8..10] == HalfBytes(r.section) && b[10..12] == HalfBytes(r.nameLen);
    WordOfWords(f, ofs, [r.nameOfs, r.addr], 0);
    WordOfWords(f, ofs, [r.nameOfs, r.addr], 1);
    HalfOfSlice(f, ofs + 8, HalfBytes(r.section));
    HalfOfSlice(f, ofs + 10, HalfBytes(r.nameLen));
    HalfOfBytes(r.section);
    HalfOfBytes(r.nameLen);
  }

  // ----- Relocations

  function RelocBytes(r: Reloc): (b: seq<Byte>)
    ensures |b| == 12
  {
    WordsBytes([r.offset, r.info, r.symOffset])
  }

  function RelocAt(f: seq<Byte>, ofs: nat): Reloc
    requires ofs + 12 <= |f|
  {
    Reloc(Word(f, ofs), Word(f, ofs + 4), Word(f, ofs + 8))
  }

  lemma RelocRoundTrip(f: seq<Byte>, ofs: nat, r: Reloc)
    requires ofs + 12 <= |f| && f[ofs..ofs + 12] == RelocBytes(r)
    ensures Word(f, ofs) == r.offset && Word(f, ofs + 4) == r.info && Word(f, ofs + 8) == r.symOffset
    ensures RelocAt(f, ofs) == r
  {
    hide Word, WordsBytes;
    var ws := [r.offset, r.info, r.symOffset];
    WordOfWords(f, ofs, ws, 0);
    WordOfWords(f, ofs, ws, 1);
    WordOfWords(f, ofs, ws, 2);
  }

  // ----- Sections

  function SectionBytes(s: Section): (b: seq<Byte>)
    ensures |b| == 20
  {
    WordsBytes([s.data, s.size, s.align, s.internalRelocs, s.externalRelocs])
  }

  function SectionAt(f: seq<Byte>, ofs: nat): Section
    requires ofs + 20 <= |f|
  {
    Section(Word(f, ofs), Word(f, ofs + 4), Word(f, ofs + 8), Word(f, ofs + 12), Word(f, ofs + 16))
  }

  lemma SectionRoundTrip(f: seq<Byte>, ofs: nat, s: Section)
    requires ofs + 20 <= |f| && f[ofs..ofs + 20] == SectionBytes(s)
    ensures Word(f, ofs) == s.data && Word(f, ofs + 4) == s.size && Word(f, ofs + 8) == s.align
    ensures Word(f, ofs + 12) == s.internalRelocs && Word(f, ofs + 16) == s.externalRelocs
    ensures SectionAt(f, ofs) == s
  {
    hide Word, WordsBytes;
    var ws := [s.data, s.size, s.align, s.internalRelocs, s.externalRelocs];
    WordOfWords(f, ofs, ws, 0);
    WordOfWords(f, ofs, ws, 1);
    WordOfWords(f, ofs, ws, 2);
    WordOfWords(f, ofs, ws, 3);
    WordOfWords(f, ofs, ws, 4);
  }

  // ----- Load information

  function LoadInfoBytes(i: LoadInfo): (b: seq<Byte>)
    ensures |b| == 16
  {
    WordsBytes([i.usoSize, i.usoAlign, i.noloadSize, i.noloadAlign])
  }

  function LoadInfoAt(f: seq<Byte>, ofs: nat): LoadInfo
    requires ofs + 16 <= |f|
  {
    LoadInfo(Word(f, ofs), Word(f, ofs + 4), Word(f, ofs + 8), Word(f, ofs + 12))
  }

  lemma LoadInfoRoundTrip(f: seq<Byte>, ofs: nat, i: LoadInfo)
    requires ofs + 16 <= |f| && f[ofs..ofs + 16] == LoadInfoBytes(i)
    ensures Word(f, ofs) == i.usoSize && Word(f, ofs + 4) == i.usoAlign
    ensures Word(f, ofs + 8) == i.noloadSize && Word(f, ofs + 12) == i.noloadAlign
    ensures LoadInfoAt(f, ofs) == i
  {
    hide Word, WordsBytes;
    var ws := [i.usoSize, i.usoAlign, i.noloadSize, i.noloadAlign];
    WordOfWords(f, ofs, ws, 0);
    WordOfWords(f, ofs, ws, 1);
    WordOfWords(f, ofs, ws, 2);
    WordOfWords(f, ofs, ws, 3);
  }

  // ----- The header

  function HeaderBytes(h: Header): (b: seq<Byte>)
    ensures |b| == 20
  {
    HalfBytes(h.numSections) + HalfBytes(h.ehFrame) + WordsBytes([h.sectionsOfs, h.importsOfs, h.exportsOfs])
    + HalfBytes(h.ctors) + HalfBytes(h.dtors)
  }

  function HeaderAt(f: seq<Byte>, ofs: nat): Header
    requires ofs + 20 <= |f|
  {
    Header(Half(f, ofs), Half(f, ofs + 2), Word(f, ofs + 4), Word(f, ofs + 8), Word(f, ofs + 12),
           Half(f, ofs + 16), Half(f, ofs + 18))
  }

  lemma HeaderRoundTrip(f: seq<Byte>, ofs: nat, h: Header)
    requires ofs + 20 <= |f| && f[ofs..ofs + 20] == HeaderBytes(h)
    ensures Half(f, ofs) == h.numSections && Half(f, ofs + 2) == h.ehFrame
    ensures Word(f, ofs + 4) == h.sectionsOfs && Word(f, ofs + 8) == h.importsOfs && Word(f, ofs + 12) == h.exportsOfs
    ensures Half(f, ofs + 16) == h.ctors && Half(f, ofs + 18) == h.dtors
    ensures HeaderAt(f, ofs) == h
  {
    hide Word, Half, HalfBytes, WordsBytes;
    var b := HeaderBytes(h);
    var ws := [h.sectionsOfs, h.importsOfs, h.exportsOfs];
    Part(f, ofs, b, 0, 2);
    Part(f, ofs, b, 2, 4);
    Part(f, ofs, b, 4, 16);
    Part(f, ofs, b, 16, 18);
    Part(f, ofs, b, 18, 20);
    assert b[4..16] == WordsBytes(ws);
    WordOfWords(f, ofs + 4, ws, 0);
    WordOfWords(f, ofs + 4, ws, 1);
    WordOfWords(f, ofs + 4, ws, 2);
    HalfOfSlice(f, ofs, HalfBytes(h.numSections));
    HalfOfSlice(f, ofs + 2, HalfBytes(h.ehFrame));
    HalfOfSlice(f, ofs + 16, HalfBytes(h.ctors));
    HalfOfSlice(f, ofs + 18, HalfBytes(h.dtors));
    HalfOfBytes(h.numSections);
    HalfOfBytes(h.ehFrame);
    HalfOfBytes(h.ctors);
    HalfOfBytes(h.dtors);
  }

  // ----- Writing fields on any host: swap each, then store the native structure

  function Stored32(little: bool, v: U32): (b: seq<Byte>)
    ensures b == WordBytes(v)
  {
    StoredBigEndian(little, v);
    HostBytes32(little, SwapU32(little, v))
  }

  function Stored16(little: bool, v: U16): (b: seq<Byte>)
    ensures b == HalfBytes(v)
  {
    Stored16BigEndian(little, v);
    HostBytes16(little, SwapU16(little, v))
  }

  lemma ThreeWords(a: U32, b: U32, c: U32)
    ensures WordsBytes([a, b, c]) == WordBytes(a) + WordBytes(b) + WordBytes(c)
    ensures WordsBytes([a, b]) == WordBytes(a) + WordBytes(b)
  {
    hide WordBytes;
    assert [a, b, c][1..] == [b, c] && [b, c][1..] == [c] && [c][1..] == [];
    assert [a, b][1..] == [b] && [b][1..] == [];
    assert WordsBytes([b]) == WordBytes(b) && WordsBytes([c]) == WordBytes(c);
    assert WordsBytes([b, c]) == WordBytes(b) + WordsBytes([c]);
  }

  lemma FiveWords(a: U32, b: U32, c: U32, d: U32, e: U32)
    ensures WordsBytes([a, b, c, d, e]) == WordBytes(a) + WordBytes(b) + WordBytes(c) + WordBytes(d) + WordBytes(e)
  {
    hide WordBytes;
    ThreeWords(c, d, e);
    assert [a, b, c, d, e][1..] == [b, c, d, e] && [b, c, d, e][1..] == [c, d, e];
  }

  lemma FourWords(a: U32, b: U32, c: U32, d: U32)
    ensures WordsBytes([a, b, c, d]) == WordBytes(a) + WordBytes(b) + WordBytes(c) + WordBytes(d)
  {
    hide WordBytes;
    ThreeWords(b, c, d);
    assert [a, b, c, d][1..] == [b, c, d];
  }
}
