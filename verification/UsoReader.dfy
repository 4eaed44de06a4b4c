/** uso_read of tools/make_uso_externs.cpp (lines 71-87, 152-167), on the files that uso_write wrote. */
module UsoReader {
  import opened Words
  import opened CStrings
  import opened OutFile
  import opened Records
  import opened HostOrder
  import opened ElfInput
  import opened SymbolCodec
  import opened SectionWriter
  import opened ImageWriter
  import opened ImageLoader
  import opened LoadedSections
  import opened Alignment
  import opened Externs

  /** Both symbol tables of a file, None when a read fails and the tool exits. */
  function ReadUso(f: seq<Byte>): Option<UsoInfo> {
    if FileRead(f, 0, 20) == None then None
    else
      var h := HeaderAt(f, 0);
      var imports, exports := ReadTable(f, h.importsOfs), ReadTable(f, h.exportsOfs);
      if imports == None || exports == None then None else Some(UsoInfo(imports.value, exports.value))
  }

  /** The bytes of a header, fetched field by field as the host has them and swapped. */
  function FetchHeader(b: seq<Byte>, little: bool): (h: Header)
    requires |b| == 20
    ensures h == HeaderAt(b, 0)
  {
    FetchedHeader(b, little);
    Header(SwapU16(little, HostHalf(little, b[0..2])), SwapU16(little, HostHalf(little, b[2..4])),
           SwapU32(little, HostWord(little, b[4..8])), SwapU32(little, HostWord(little, b[8..12])),
           SwapU32(little, HostWord(little, b[12..16])), SwapU16(little, HostHalf(little, b[16..18])),
           SwapU16(little, HostHalf(little, b[18..20])))
  }

  lemma FetchedHeader(b: seq<Byte>, little: bool)
    requires |b| == 20
    ensures SwapU16(little, HostHalf(little, b[0..2])) == Half(b, 0)
    ensures SwapU16(little, HostHalf(little, b[2..4])) == Half(b, 2)
    ensures SwapU32(little, HostWord(little, b[4..8])) == Word(b, 4)
    ensures SwapU32(little, HostWord(little, b[8..12])) == Word(b, 8)
    ensures SwapU32(little, HostWord(little, b[12..16])) == Word(b, 12)
    ensures SwapU16(little, HostHalf(little, b[16..18])) == Half(b, 16)
    ensures SwapU16(little, HostHalf(little, b[18..20])) == Half(b, 18)
  {
    hide SwapU32, SwapU16, HostWord, HostHalf, Word, Half;
    FetchedHalf(b, 0, little);
    FetchedHalf(b, 2, little);
    FetchedWord(b, 4, little);
    FetchedWord(b, 8, little);
    FetchedWord(b, 12, little);
    FetchedHalf(b, 16, little);
    FetchedHalf(b, 18, little);
  }

  /** uso_read_header: the header on any host, None for the exit after a failed read. */
  method UsoReadHeader(f: seq<Byte>, little: bool) returns (header: Option<Header>)
    ensures header == if 20 <= |f| then Some(HeaderAt(f, 0)) else None
  {
    hide Word, Half, SwapU32, SwapU16, HostWord, HostHalf, FetchHeader;
    var bytes := FileRead(f, 0, 20);
    if bytes == None {
      return None;
    }
    SameHeader(f, bytes.value);
    header := Some(FetchHeader(bytes.value, little));
  }

  lemma SameHeader(f: seq<Byte>, b: seq<Byte>)
    requires 20 <= |f| && b == f[0..20]
    ensures HeaderAt(b, 0) == HeaderAt(f, 0)
  {
    hide Word, Half;
    HalfWithin(f, 0, b, 0);
    HalfWithin(f, 0, b, 2);
    WordWithin(f, 0, b, 4);
    WordWithin(f, 0, b, 8);
    WordWithin(f, 0, b, 12);
    HalfWithin(f, 0, b, 16);
    HalfWithin(f, 0, b, 18);
  }

  /** uso_read */
  method UsoRead(f: seq<Byte>, little: bool) returns (uso: Option<UsoInfo>)
    ensures uso == ReadUso(f)
  {
    hide HeaderAt;
    var h := UsoReadHeader(f, little);
    if h == None {
      return None;
    }
    var imports := UsoReadSymbolTable(f, h.value.importsOfs, little);
    if imports == None {
      return None;
    }
    var exports := UsoReadSymbolTable(f, h.value.exportsOfs, little);
    if exports == None {
      return None;
    }
    uso := Some(UsoInfo(imports.value, exports.value));
  }

  lemma HeaderOfFile(x: Source)
    requires FileFits(x)
    ensures 20 <= |FileOf(x)| && HeaderAt(FileOf(x), 0) == HeaderOf(x)
  {
    hide Image, Encodable, SectionsFit, HeaderBytes, ImageEnd, ExportsEnd, HeaderAt, HeaderOf, LoadInfoBytes, InfoOf;
    HeaderInImage(x);
    assert FileOf(x)[0..20] == Image(x)[0..20];
    HeaderRoundTrip(FileOf(x), 0, HeaderOf(x));
  }

  /** The table is in the whole file because it is in the image. */
  lemma TableInFile(x: Source, ofs: nat, syms: seq<SymbolInfo>)
    requires Encodable(x.imports) && Encodable(x.exports) && Encodable(syms) && HasTable(Image(x), ofs, syms)
    ensures HasTable(FileOf(x), ofs, syms)
  {
    hide Image, Encodable, Holds, ChunkAt, LoadInfoBytes, InfoOf;
    forall i | 0 <= i < 1 + 2 * |syms|
      ensures Holds(FileOf(x), ChunkAt(syms, ofs, i))
    {
      HoldsLonger(Image(x), LoadInfoBytes(InfoOf(x)), ChunkAt(syms, ofs, i));
    }
  }

  predicate AllNamed(syms: seq<SymbolInfo>) { forall i :: 0 <= i < |syms| ==> syms[i].name != [] }

  lemma TableReadBack(x: Source, cursor: nat, syms: seq<SymbolInfo>)
    requires FileFits(x)
    requires (cursor == NameEnd(x) && syms == x.imports) || (cursor == ImportsEnd(x) && syms == x.exports)
    ensures ReadTable(FileOf(x), SymbolsField(cursor, syms))
         == if AllNamed(syms) then Some(AllRead(syms, |syms|)) else None
  {
    hide Image, FileOf, Encodable, SectionsFit, ImageEnd, TableSize, SymbolsOfs, HasTable, ReadFirst;
    if syms != [] {
      OffsetFits(x, cursor, syms);
      SymbolsInImage(x, cursor, syms);
      TableInFile(x, SymbolsOfs(cursor), syms);
      TableRoundTrip(FileOf(x), SymbolsOfs(cursor), syms);
    }
  }

  /**
   From the file that elf2uso writes, the extern tool reads exactly the tables that elf2uso collected, if and only if
   no name in them is empty; otherwise it exits.
   */
  lemma ReaderUndoesWriter(x: Source)
    requires FileFits(x)
    ensures ReadUso(FileOf(x))
         == if AllNamed(x.imports) && AllNamed(x.exports)
            then Some(UsoInfo(AllRead(x.imports, |x.imports|), AllRead(x.exports, |x.exports|))) else None
  {
    hide FileOf, Encodable, SectionsFit, ImageEnd, ReadTable, HeaderAt, SymbolsField, NameEnd, ImportsEnd, AllNamed;
    HeaderOfFile(x);
    TableReadBack(x, NameEnd(x), x.imports);
    TableReadBack(x, ImportsEnd(x), x.exports);
  }

  /** The tables it reads are in the order its binary search needs. */
  lemma ReadTablesAreInOrder(syms: seq<SymbolInfo>)
    requires StrictlyInOrder(syms)
    ensures NamesInOrder(AllRead(syms, |syms|))
  {
    hide Less;
    var r := AllRead(syms, |syms|);
    forall i, j | 0 <= i < j < |r|
      ensures !Less(r[j].name, r[i].name)
    {
      LessAsymmetric(syms[i].name, syms[j].name);
    }
  }

  // ----- A file that is not read

  const UNNAMED := [SymbolInfo(1, [], 0, false, 4)]
  const NAMELESS := Source([], [], UNNAMED, [ABSOLUTE], 0, 0, 0)

  lemma UnnamedTable()
    ensures Encodable(UNNAMED) && TableSize(UNNAMED) == 17
  {
    assert NamesSize(UNNAMED, 1) == NamesSize(UNNAMED, 0) + 1;
  }

  lemma NamelessCursors()
    ensures ExportsEnd(NAMELESS) == 41 && TableOfs(NAMELESS) == 44
    ensures DataStart([ABSOLUTE], 44) == 64 && StartAlign([ABSOLUTE]) == 1
    ensures DataCursor([ABSOLUTE], 64, 0) == DataCursor([ABSOLUTE], 64, 1) == 64 && ImageEnd(NAMELESS) == 64
  {
    hide RoundUp, Place, TableSize, StartAlign;
    UnnamedTable();
    RoundsToFour(21, 24);
    RoundsToFour(41, 44);
    StaysAtOne(64);
    RoundsToFour(64, 64);
    AbsoluteAlone();
    assert [ABSOLUTE][0] == ABSOLUTE;
    assert DataCursor([ABSOLUTE], 64, 0) == 64;
    assert RelocCursor([ABSOLUTE], 64, 0) == 64;
  }

  lemma AbsoluteAlone()
    ensures StartAlign([ABSOLUTE]) == 1
  {
    assert [ABSOLUTE][1..] == [] && StartAlign([]) == 1;
  }

  lemma NamelessFits()
    ensures FileFits(NAMELESS)
  {
    hide RoundUp, Place, IsPow2, TableOfs, StartAlign, ExportsEnd, SectionsFit, ImageEnd;
    NamelessCursors();
    NamelessSections();
    UnnamedTable();
  }

  lemma NamelessSections()
    ensures SectionsFit([ABSOLUTE], 44)
  {
    hide RoundUp, Place, IsPow2, StartAlign;
    NamelessCursors();
    PowOne();
  }

  /** A USO with one export, whose name is empty, is written, but the extern tool exits when it reads it. */
  lemma EmptyNameIsNotRead()
    ensures FileFits(NAMELESS) && OffsetsFit(NAMELESS) && ReadUso(FileOf(NAMELESS)) == None
  {
    hide RoundUp, Place, FileOf, ReadUso, FileFits, OffsetsFit;
    NamelessFits();
    assert UNNAMED[0].name == [];
    FitsSoOffsetsFit(NAMELESS);
    ReaderUndoesWriter(NAMELESS);
  }
}
