/**
 A whole USO file: uso_write of tools/elf2uso.cpp (lines 590-669), the layout it produces, and what is in it.
 */
module ImageWriter {
  import opened Words
  import opened CStrings
  import opened Alignment
  import opened OutFile
  import opened Records
  import opened ElfInput
  import opened SymbolCodec
  import opened SectionWriter
  import opened Fixups

  /** Everything uso_write writes. */
  datatype Source = Source(elfName: Name, imports: seq<SymbolInfo>, exports: seq<SymbolInfo>, secs: seq<OutSection>,
                           ehFrame: U16, ctors: U16, dtors: U16)

  // ----- Offsets

  function NameEnd(x: Source): nat { 20 + |x.elfName| + 1 }

  /** Where a symbol table goes when the cursor is at `cursor`, and where the cursor is afterwards. */
  function SymbolsOfs(cursor: nat): nat { RoundUp(cursor, 4) }

  function SymbolsEnd(cursor: nat, syms: seq<SymbolInfo>): nat {
    if syms == [] then cursor else SymbolsOfs(cursor) + TableSize(syms)
  }

  /** The header field: 0 exactly when there is no table. */
  function SymbolsField(cursor: nat, syms: seq<SymbolInfo>): U32 {
    if syms == [] then 0 else Trunc32(SymbolsOfs(cursor))
  }

  function ImportsEnd(x: Source): nat { SymbolsEnd(NameEnd(x), x.imports) }
  function ExportsEnd(x: Source): nat { SymbolsEnd(ImportsEnd(x), x.exports) }
  function TableOfs(x: Source): nat { RoundUp(ExportsEnd(x), 4) }
  function ImageEnd(x: Source): nat { SectionsEnd(x.secs, TableOfs(x)) }

  /** The inputs elf2uso can have, for a file below 4 GiB. There is always a section 0, the absolute one. */
  ghost predicate FileFits(x: Source) {
    && Encodable(x.imports) && Encodable(x.exports)
    && ExportsEnd(x) + 4 <= 0x1_0000_0000
    && 1 <= |x.secs| < 0x1_0000
    && ImageEnd(x) + 1 < 0x1_0000_0000
    && SectionsFit(x.secs, TableOfs(x))
  }

  function HeaderOf(x: Source): Header {
    Header(Trunc16(|x.secs|), x.ehFrame, Trunc32(TableOfs(x)), SymbolsField(NameEnd(x), x.imports),
           SymbolsField(ImportsEnd(x), x.exports), x.ctors, x.dtors)
  }

  // ----- The writes

  function SymbolsChunks(cursor: nat, syms: seq<SymbolInfo>): seq<Chunk>
    requires Encodable(syms)
  {
    if syms == [] then [] else TableChunks(syms, SymbolsOfs(cursor), |syms|)
  }

  function NameChunk(x: Source): Chunk { Chunk(20, x.elfName + [0]) }

  function HeaderChunk(x: Source): Chunk { Chunk(0, HeaderBytes(HeaderOf(x))) }

  /** All writes up to the header, which comes last. */
  function ImageChunks(x: Source): seq<Chunk>
    requires Encodable(x.imports) && Encodable(x.exports)
  {
    [NameChunk(x)] + SymbolsChunks(NameEnd(x), x.imports) + SymbolsChunks(ImportsEnd(x), x.exports)
    + SectionChunks(x.secs, TableOfs(x), |x.secs|) + [HeaderChunk(x)]
  }

  /** The part of the file the loader keeps in memory: the writes, padded to an even length. */
  function Image(x: Source): seq<Byte>
    requires Encodable(x.imports) && Encodable(x.exports)
  {
    var body := Written([], ImageChunks(x));
    if |body| % 2 != 0 then body + [0] else body
  }

  /** The record at the end of the file. */
  function InfoOf(x: Source): LoadInfo
    requires Encodable(x.imports) && Encodable(x.exports)
  {
    LoadInfo(Trunc32(|Image(x)|), MaxAlign(x.secs, true, 4), Trunc32(SumNoload(x.secs, |x.secs|)),
             MaxAlign(x.secs, false, 1))
  }

  function FileOf(x: Source): seq<Byte>
    requires Encodable(x.imports) && Encodable(x.exports)
  {
    Image(x) + LoadInfoBytes(InfoOf(x))
  }

  /** uso_write_load_info */
  method UsoWriteLoadInfo(file: OutputFile, secs: seq<OutSection>, little: bool)
    modifies file
    ensures var body := old(file.bytes);
            var image := if |body| % 2 != 0 then body + [0] else body;
            file.bytes == image + LoadInfoBytes(LoadInfo(Trunc32(|image|), MaxAlign(secs, true, 4),
                                                Trunc32(SumNoload(secs, |secs|)), MaxAlign(secs, false, 1)))
  {
    hide LoadInfoBytes, MaxAlign, SumNoload, Splice;
    file.SeekEnd();
    AppendWrite(file.bytes, [0]);
    if file.pos % 2 != 0 {
      file.Write([0]);
    }
    var usoSize := Trunc32(file.pos);
    var usoAlign := UsoGetAlign(secs);
    var noloadSize := UsoGetNoloadSize(secs);
    var noloadAlign := UsoGetNoloadAlign(secs);
    var info := LoadInfoOnHost(LoadInfo(usoSize, usoAlign, noloadSize, noloadAlign), little);
    AppendWrite(file.bytes, info);
    file.Write(info);
  }

  lemma AppendWrite(f: seq<Byte>, b: seq<Byte>)
    ensures Splice(f, Chunk(|f|, b)) == f + b
  {
  }

  function LoadInfoOnHost(i: LoadInfo, little: bool): (b: seq<Byte>)
    ensures b == LoadInfoBytes(i)
  {
    FourWords(i.usoSize, i.usoAlign, i.noloadSize, i.noloadAlign);
    Stored32(little, i.usoSize) + Stored32(little, i.usoAlign) + Stored32(little, i.noloadSize)
    + Stored32(little, i.noloadAlign)
  }

  function HeaderOnHost(h: Header, little: bool): (b: seq<Byte>)
    ensures b == HeaderBytes(h)
  {
    ThreeWords(h.sectionsOfs, h.importsOfs, h.exportsOfs);
    Stored16(little, h.numSections) + Stored16(little, h.ehFrame)
    + (Stored32(little, h.sectionsOfs) + Stored32(little, h.importsOfs) + Stored32(little, h.exportsOfs))
    + Stored16(little, h.ctors) + Stored16(little, h.dtors)
  }

  /** One symbol table of uso_write, when it is not empty: its header field, and the cursor behind it. */
  method WriteSymbols(file: OutputFile, cursor: nat, syms: seq<SymbolInfo>, little: bool)
    returns (field: U32, end: nat)
    requires Encodable(syms) && SymbolsEnd(cursor, syms) < 0x1_0000_0000 && cursor + 3 < 0x1_0000_0000
    modifies file
    ensures field == SymbolsField(cursor, syms) && end == SymbolsEnd(cursor, syms)
    ensures file.bytes == Written(old(file.bytes), SymbolsChunks(cursor, syms))
  {
    hide AlignVal, RoundUp, Encodable, TableSize, TableChunks;
    field, end := 0, cursor;
    if |syms| != 0 {
      AlignFour(cursor);
      end := AlignVal(cursor, 4);
      field := Trunc32(end);
      UsoWriteSymbolTable(file, end, syms, little);
      var size := SymGetDataSize(syms);
      end := end + size;
    }
  }

  lemma AlignFour(v: nat)
    requires v + 3 < 0x1_0000_0000
    ensures AlignVal(v, 4) == RoundUp(v, 4)
  {
    Pow2Four();
    AlignValRounds(v, 4);
  }

  /** What the writer itself needs: no offset leaves the 32-bit range. */
  predicate OffsetsFit(x: Source) {
    && Encodable(x.imports) && Encodable(x.exports)
    && ExportsEnd(x) + 4 <= 0x1_0000_0000
    && CursorsFit(x.secs, TableOfs(x))
  }

  lemma FitsSoOffsetsFit(x: Source)
    requires FileFits(x)
    ensures OffsetsFit(x)
  {
    hide Encodable, SectionsFit, CursorsFit, ImageEnd;
    FitsSoCursorsFit(x.secs, TableOfs(x));
  }

  /** uso_write */
  method UsoWrite(file: OutputFile, x: Source, little: bool)
    requires OffsetsFit(x) && file.bytes == []
    modifies file
    ensures file.bytes == FileOf(x)
  {
    hide AlignVal, RoundUp, Encodable, TableSize, Splice, Written, SymbolsChunks, SectionChunks, HeaderBytes,
         LoadInfoBytes, MaxAlign, SumNoload, CursorsFit;
    file.Seek(20);
    file.Write(x.elfName + [0]);
    var importsField, exportsField, cursor;
    importsField, cursor := WriteSymbols(file, NameEnd(x), x.imports, little);
    exportsField, cursor := WriteSymbols(file, cursor, x.exports, little);
    AlignFour(cursor);
    cursor := AlignVal(cursor, 4);
    UsoWriteSections(file, cursor, x.secs, little);
    var header := Header(Trunc16(|x.secs|), x.ehFrame, Trunc32(cursor), importsField, exportsField, x.ctors, x.dtors);
    file.Seek(0);
    file.Write(HeaderOnHost(header, little));
    FiveWrites(x);
    UsoWriteLoadInfo(file, x.secs, little);
  }

  lemma FiveWrites(x: Source)
    requires Encodable(x.imports) && Encodable(x.exports)
    ensures Written([], ImageChunks(x)) ==
            Splice(Written(Written(Written(Splice([], NameChunk(x)), SymbolsChunks(NameEnd(x), x.imports)),
              SymbolsChunks(ImportsEnd(x), x.exports)), SectionChunks(x.secs, TableOfs(x), |x.secs|)), HeaderChunk(x))
  {
    hide Written, Splice, SymbolsChunks, SectionChunks, HeaderChunk, NameChunk, Encodable;
    var a, b := SymbolsChunks(NameEnd(x), x.imports), SymbolsChunks(ImportsEnd(x), x.exports);
    var c := SectionChunks(x.secs, TableOfs(x), |x.secs|);
    FirstWrite(NameChunk(x));
    WrittenAppend([], [NameChunk(x)], a);
    WrittenAppend([], [NameChunk(x)] + a, b);
    WrittenAppend([], [NameChunk(x)] + a + b, c);
    WrittenOne([], [NameChunk(x)] + a + b + c, HeaderChunk(x));
  }

  lemma FirstWrite(c: Chunk)
    ensures Written([], [c]) == Splice([], c)
  {
    assert [c][..0] == [];
  }

  // ----- Layout

  lemma SymbolsLayout(cursor: nat, syms: seq<SymbolInfo>)
    requires Encodable(syms)
    ensures AllApart(SymbolsChunks(cursor, syms))
    ensures cursor <= SymbolsEnd(cursor, syms)
    ensures Within(SymbolsChunks(cursor, syms), cursor, SymbolsEnd(cursor, syms))
  {
    hide RoundUp, Encodable, TableChunks, TableSize;
    if syms != [] {
      TableLayout(syms, SymbolsOfs(cursor));
    }
  }

  /** The parts of the file, in order; each ends before the next begins. */
  lemma ImageRegions(x: Source)
    requires SectionsFit(x.secs, TableOfs(x))
    ensures 20 <= NameEnd(x) <= ImportsEnd(x) <= ExportsEnd(x) <= TableOfs(x)
    ensures TableOfs(x) + 20 * |x.secs| <= ImageEnd(x)
  {
    hide RoundUp, TableSize, SectionsFit;
    SectionsStartAfter(x);
  }

  lemma SectionsStartAfter(x: Source)
    requires SectionsFit(x.secs, TableOfs(x))
    ensures TableOfs(x) + 20 * |x.secs| <= ImageEnd(x)
  {
    hide SectionsFit, TableOfs;
    Regions(x.secs, TableOfs(x));
  }

  /** Header, ELF name, symbol tables, section table, section data and relocation tables share no byte. */
  lemma ImageLayout(x: Source)
    requires Encodable(x.imports) && Encodable(x.exports) && SectionsFit(x.secs, TableOfs(x))
    ensures AllApart(ImageChunks(x)) && Within(ImageChunks(x), 0, ImageEnd(x))
  {
    hide Apart, SymbolsChunks, SectionChunks, Encodable, SectionsFit, HeaderBytes, NameEnd, ImportsEnd, ExportsEnd,
         TableOfs, ImageEnd, AllApart, Within, NameChunk, HeaderChunk;
    var n, h := [NameChunk(x)], [HeaderChunk(x)];
    var a, b := SymbolsChunks(NameEnd(x), x.imports), SymbolsChunks(ImportsEnd(x), x.exports);
    var c := SectionChunks(x.secs, TableOfs(x), |x.secs|);
    ImageRegions(x);
    PartsWithin(x);
    Extend(n, a, 20, NameEnd(x), ImportsEnd(x));
    Extend(n + a, b, 20, ImportsEnd(x), ExportsEnd(x));
    Wider(c, TableOfs(x), ExportsEnd(x), ImageEnd(x));
    Extend(n + a + b, c, 20, ExportsEnd(x), ImageEnd(x));
    Prepend(n + a + b + c, h, 20, ImageEnd(x));
  }

  lemma PartsWithin(x: Source)
    requires Encodable(x.imports) && Encodable(x.exports) && SectionsFit(x.secs, TableOfs(x))
    ensures AllApart([NameChunk(x)]) && Within([NameChunk(x)], 20, NameEnd(x))
    ensures AllApart([HeaderChunk(x)]) && Within([HeaderChunk(x)], 0, 20)
    ensures AllApart(SymbolsChunks(NameEnd(x), x.imports))
    ensures Within(SymbolsChunks(NameEnd(x), x.imports), NameEnd(x), ImportsEnd(x))
    ensures AllApart(SymbolsChunks(ImportsEnd(x), x.exports))
    ensures Within(SymbolsChunks(ImportsEnd(x), x.exports), ImportsEnd(x), ExportsEnd(x))
    ensures AllApart(SectionChunks(x.secs, TableOfs(x), |x.secs|))
    ensures Within(SectionChunks(x.secs, TableOfs(x), |x.secs|), TableOfs(x), ImageEnd(x))
  {
    hide SymbolsChunks, SectionChunks, Encodable, SectionsFit, HeaderBytes, SymbolsEnd, TableOfs, SectionsEnd;
    SymbolsLayout(NameEnd(x), x.imports);
    SymbolsLayout(ImportsEnd(x), x.exports);
    SectionsLayout(x.secs, TableOfs(x));
  }

  /** Disjoint writes below a point, followed by disjoint writes above it. */
  lemma Extend(a: seq<Chunk>, b: seq<Chunk>, lo: nat, mid: nat, hi: nat)
    requires lo <= mid <= hi && Within(a, lo, mid) && Within(b, mid, hi) && AllApart(a) && AllApart(b)
    ensures Within(a + b, lo, hi) && AllApart(a + b)
  {
    hide *;
    WithinAppend(a, b, lo, mid, hi);
    RegionsApart(a, b, lo, mid, mid, hi);
    ApartAppend(a, b);
  }

  lemma Wider(a: seq<Chunk>, lo: nat, lo': nat, hi: nat)
    requires Within(a, lo, hi) && lo' <= lo
    ensures Within(a, lo', hi)
  {
  }

  /** The header is written last, in front of everything. */
  lemma Prepend(a: seq<Chunk>, h: seq<Chunk>, lo: nat, hi: nat)
    requires lo <= hi && Within(a, lo, hi) && Within(h, 0, lo) && AllApart(a) && AllApart(h)
    ensures Within(a + h, 0, hi) && AllApart(a + h)
  {
    forall i, j | 0 <= i < |a| && 0 <= j < |h|
      ensures Apart(a[i], h[j])
    {
      assert a[i].bytes != [] ==> lo <= a[i].ofs;
      assert h[j].bytes != [] ==> h[j].End() <= lo;
    }
    ApartAppend(a, h);
    forall i | 0 <= i < |a + h| && (a + h)[i].bytes != []
      ensures 0 <= (a + h)[i].ofs && (a + h)[i].End() <= hi
    {
      if i < |a| {
        assert (a + h)[i] == a[i];
      } else {
        assert (a + h)[i] == h[i - |a|];
      }
    }
  }

  // ----- What is in the image

  /** Every write of uso_write is in the image in the end, and so inside uso_size. */
  lemma ImageHolds(x: Source, c: Chunk)
    requires Encodable(x.imports) && Encodable(x.exports) && SectionsFit(x.secs, TableOfs(x)) && c in ImageChunks(x)
    ensures Holds(Image(x), c)
  {
    hide ImageChunks, Written, Encodable, SectionsFit, AllApart, Within;
    var cs := ImageChunks(x);
    ImageLayout(x);
    var i :| 0 <= i < |cs| && cs[i] == c;
    AllHold([], cs, i);
    HoldsLonger(Written([], cs), [0], c);
  }

  lemma HoldsLonger(f: seq<Byte>, rest: seq<Byte>, c: Chunk)
    requires Holds(f, c)
    ensures Holds(f + rest, c)
  {
    if c.bytes != [] {
      assert (f + rest)[c.ofs..c.End()] == f[c.ofs..c.End()];
    }
  }

  lemma {:induction false} MembersOfImage(x: Source)
    requires Encodable(x.imports) && Encodable(x.exports)
    ensures NameChunk(x) in ImageChunks(x) && HeaderChunk(x) in ImageChunks(x)
    ensures forall c :: c in SymbolsChunks(NameEnd(x), x.imports) ==> c in ImageChunks(x)
    ensures forall c :: c in SymbolsChunks(ImportsEnd(x), x.exports) ==> c in ImageChunks(x)
    ensures forall c :: c in SectionChunks(x.secs, TableOfs(x), |x.secs|) ==> c in ImageChunks(x)
  {
    hide SymbolsChunks, SectionChunks, NameChunk, HeaderChunk, Encodable;
  }

  lemma SymbolsInImage(x: Source, cursor: nat, syms: seq<SymbolInfo>)
    requires Encodable(x.imports) && Encodable(x.exports) && SectionsFit(x.secs, TableOfs(x)) && syms != []
    requires (cursor == NameEnd(x) && syms == x.imports) || (cursor == ImportsEnd(x) && syms == x.exports)
    ensures HasTable(Image(x), SymbolsOfs(cursor), syms)
  {
    hide ImageChunks, Image, Encodable, SectionsFit, Holds, ChunkAt, NameChunk, HeaderChunk, SectionChunks, SymbolsOfs;
    MembersOfImage(x);
    var cs := TableChunks(syms, SymbolsOfs(cursor), |syms|);
    assert SymbolsChunks(cursor, syms) == cs;
    forall i | 0 <= i < |cs|
      ensures Holds(Image(x), ChunkAt(syms, SymbolsOfs(cursor), i))
    {
      assert cs[i] in SymbolsChunks(cursor, syms);
      ImageHolds(x, cs[i]);
    }
  }

  lemma PartInImage(x: Source, i: nat, k: nat)
    requires Encodable(x.imports) && Encodable(x.exports) && SectionsFit(x.secs, TableOfs(x)) && i < |x.secs| && k < 4
    ensures Holds(Image(x), PartAt(x.secs, TableOfs(x), i, k))
  {
    hide ImageChunks, Image, Encodable, SectionsFit, Holds, PartAt, NameChunk, HeaderChunk, SymbolsChunks, TableOfs;
    MembersOfImage(x);
    var cs := SectionChunks(x.secs, TableOfs(x), |x.secs|);
    var n := 4 * i + k;
    assert n / 4 == i && n % 4 == k;
    assert cs[n] in cs;
    ImageHolds(x, cs[n]);
  }
}
