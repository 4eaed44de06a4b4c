/**
 Reading a USO file into memory (src/uso.c:543-557) and what the fixups make of a file that uso_write wrote:
 loading undoes writing.
 */
module ImageLoader {
  import opened Words
  import opened Alignment
  import opened OutFile
  import opened Records
  import opened ElfInput
  import opened SymbolCodec
  import opened SectionWriter
  import opened ImageWriter
  import S = Symbols
  import opened Fixups

  // ----- Structures at their places in the file

  function ReadSections(f: seq<Byte>, ofs: nat, n: nat): (t: seq<Section>)
    requires ofs + 20 * n <= |f|
    ensures |t| == n
  {
    seq(n, i requires 0 <= i < n => SectionAt(f, ofs + 20 * i))
  }

  predicate TableFits(f: seq<Byte>, ofs: nat) {
    ofs == 0 || (ofs + 4 <= |f| && ofs + 4 + 12 * Word(f, ofs) <= |f|)
  }

  /** The table at an offset; offset 0 is a NULL pointer. */
  function ReadSymbols(f: seq<Byte>, ofs: nat): Option<S.SymbolTable>
    requires TableFits(f, ofs)
  {
    if ofs == 0 then None else Some(LoadedTable(f, ofs))
  }

  /** The load information ends the file; the first usoSize bytes go to memory. */
  predicate Readable(f: seq<Byte>) {
    && 16 <= |f|
    && var info := LoadInfoAt(f, |f| - 16);
       && 20 <= info.usoSize <= |f| - 16
       && var mem := f[..info.usoSize];
          var h := HeaderAt(mem, 0);
          && h.sectionsOfs + 20 * h.numSections <= |mem|
          && TableFits(mem, h.importsOfs) && TableFits(mem, h.exportsOfs)
  }

  function ReadImage(f: seq<Byte>): UsoImage
    requires Readable(f)
  {
    var info := LoadInfoAt(f, |f| - 16);
    var mem := f[..info.usoSize];
    var h := HeaderAt(mem, 0);
    UsoImage(info, h.sectionsOfs, ReadSections(mem, h.sectionsOfs, h.numSections),
             ReadSymbols(mem, h.importsOfs), ReadSymbols(mem, h.exportsOfs))
  }

  // ----- Loading undoes writing

  function Entries(x: Source): (t: seq<Section>)
    ensures |t| == |x.secs| && forall i :: 0 <= i < |t| ==> t[i] == Entry(x.secs, TableOfs(x), i)
  {
    seq(|x.secs|, i requires 0 <= i < |x.secs| => Entry(x.secs, TableOfs(x), i))
  }

  function TableOrNull(syms: seq<SymbolInfo>): Option<S.SymbolTable>
    requires Encodable(syms)
  {
    if syms == [] then None else Some(LoadedForm(syms))
  }

  /** The image the loader should find. */
  function Expected(x: Source): UsoImage
    requires Encodable(x.imports) && Encodable(x.exports)
  {
    UsoImage(InfoOf(x), Trunc32(TableOfs(x)), Entries(x), TableOrNull(x.imports), TableOrNull(x.exports))
  }

  lemma ImageSize(x: Source)
    requires FileFits(x)
    ensures |Image(x)| <= ImageEnd(x) + 1 && |Image(x)| % 2 == 0
    ensures 20 <= |Image(x)|
  {
    hide ImageChunks, Written, Encodable, SectionsFit, ImageEnd, AllApart, Holds, HeaderChunk;
    ImageLayout(x);
    LengthOfWritten([], ImageChunks(x), ImageEnd(x));
    HeaderInImage(x);
  }

  lemma HeaderInImage(x: Source)
    requires Encodable(x.imports) && Encodable(x.exports) && SectionsFit(x.secs, TableOfs(x))
    ensures 20 <= |Image(x)| && Image(x)[0..20] == HeaderBytes(HeaderOf(x))
  {
    hide ImageChunks, Image, Encodable, SectionsFit, HeaderBytes, SymbolsChunks, SectionChunks, HeaderOf, NameChunk;
    MembersOfImage(x);
    ImageHolds(x, HeaderChunk(x));
  }

  lemma InfoAtEnd(x: Source)
    requires FileFits(x)
    ensures var f := FileOf(x);
            && |f| == |Image(x)| + 16 && LoadInfoAt(f, |f| - 16) == InfoOf(x)
            && InfoOf(x).usoSize == |Image(x)| && f[..|Image(x)|] == Image(x)
  {
    hide Image, Encodable, SectionsFit, LoadInfoBytes, LoadInfoAt, MaxAlign, SumNoload, ImageEnd;
    ImageSize(x);
    var f := FileOf(x);
    var info := LoadInfoBytes(InfoOf(x));
    assert f[|Image(x)|..|Image(x)| + 16] == info;
    LoadInfoRoundTrip(f, |Image(x)|, InfoOf(x));
  }

  lemma SectionsReadBack(x: Source)
    requires FileFits(x)
    ensures TableOfs(x) + 20 * |x.secs| <= |Image(x)|
    ensures ReadSections(Image(x), TableOfs(x), |x.secs|) == Entries(x)
  {
    hide Image, Encodable, SectionsFit, SectionAt, SectionBytes, Entry, TableOfs, ImageEnd;
    forall i | 0 <= i < |x.secs|
      ensures TableOfs(x) + 20 * i + 20 <= |Image(x)|
      ensures SectionAt(Image(x), TableOfs(x) + 20 * i) == Entry(x.secs, TableOfs(x), i)
    {
      PartInImage(x, i, 3);
      SectionRoundTrip(Image(x), TableOfs(x) + 20 * i, Entry(x.secs, TableOfs(x), i));
    }
    var last := |x.secs| - 1;
    assert TableOfs(x) + 20 * last + 20 <= |Image(x)|;
  }

  /** Two tables that follow one another, each read back from where the header says. */
  lemma {:induction false} SymbolsReadBack(x: Source, cursor: nat, syms: seq<SymbolInfo>)
    requires FileFits(x)
    requires (cursor == NameEnd(x) && syms == x.imports) || (cursor == ImportsEnd(x) && syms == x.exports)
    ensures TableFits(Image(x), SymbolsField(cursor, syms))
    ensures ReadSymbols(Image(x), SymbolsField(cursor, syms)) == TableOrNull(syms)
  {
    hide Image, Encodable, SectionsFit, LoadedTable, ImageEnd, SymbolsOfs, HasTable, LoadedForm;
    if syms != [] {
      OffsetFits(x, cursor, syms);
      SymbolsAtOffset(x, cursor, syms);
    }
  }

  lemma SymbolsAtOffset(x: Source, cursor: nat, syms: seq<SymbolInfo>)
    requires FileFits(x) && syms != [] && SymbolsOfs(cursor) + TableSize(syms) <= 0x1_0000_0000
    requires (cursor == NameEnd(x) && syms == x.imports) || (cursor == ImportsEnd(x) && syms == x.exports)
    ensures SymbolsOfs(cursor) + 4 <= |Image(x)|
    ensures SymbolsOfs(cursor) + 4 + 12 * Word(Image(x), SymbolsOfs(cursor)) <= |Image(x)|
    ensures LoadedTable(Image(x), SymbolsOfs(cursor)) == LoadedForm(syms)
  {
    hide Image, Encodable, SectionsFit, LoadedTable, ImageEnd, TableSize, SymbolsOfs, HasTable, LoadedForm, Word;
    SymbolsInImage(x, cursor, syms);
    LoadingRoundTrip(Image(x), SymbolsOfs(cursor), syms);
  }

  lemma OffsetFits(x: Source, cursor: nat, syms: seq<SymbolInfo>)
    requires FileFits(x) && syms != []
    requires (cursor == NameEnd(x) && syms == x.imports) || (cursor == ImportsEnd(x) && syms == x.exports)
    ensures 0 < SymbolsOfs(cursor) < 0x1_0000_0000 && SymbolsOfs(cursor) + TableSize(syms) <= 0x1_0000_0000
  {
    hide Encodable, SectionsFit, ImageEnd, RoundUp, TableSize;
    assert SymbolsOfs(cursor) + TableSize(syms) <= ExportsEnd(x) by {
      ImageRegions(x);
    }
  }

  /**
   Loading undoes writing: from the file that uso_write produces, the loader recovers the load information,
   the section table, and both symbol tables.
   */
  lemma LoadUndoesWrite(x: Source)
    requires FileFits(x)
    ensures Readable(FileOf(x)) && ReadImage(FileOf(x)) == Expected(x)
  {
    hide Image, Encodable, SectionsFit, ReadSections, ReadSymbols, TableFits, SymbolsField, HeaderBytes, LoadInfoAt,
         HeaderAt, TableOfs, ImageEnd, NameEnd, ImportsEnd, ExportsEnd, TableOrNull, FileOf, Entries;
    InfoAtEnd(x);
    HeaderReadBack(x);
    SectionsReadBack(x);
    SymbolsReadBack(x, NameEnd(x), x.imports);
    SymbolsReadBack(x, ImportsEnd(x), x.exports);
  }

  lemma HeaderReadBack(x: Source)
    requires FileFits(x)
    ensures 20 <= |Image(x)| && HeaderAt(Image(x), 0) == HeaderOf(x)
    ensures HeaderOf(x).numSections == |x.secs| && HeaderOf(x).sectionsOfs == TableOfs(x)
  {
    hide Image, Encodable, SectionsFit, HeaderBytes, ImageEnd, ExportsEnd, HeaderAt, SymbolsField;
    HeaderInImage(x);
    HeaderRoundTrip(Image(x), 0, HeaderOf(x));
    assert TableOfs(x) < 0x1_0000_0000 by {
      ImageRegions(x);
    }
  }

  /** What the loader needs of a file (sorted tables, sections in range) follows from how the tool collected it. */
  lemma ReadImageIsWellFormed(x: Source)
    requires FileFits(x) && StrictlyInOrder(x.imports) && StrictlyInOrder(x.exports)
    requires forall i :: 0 <= i < |x.exports| ==> x.exports[i].section < |x.secs|
    ensures Readable(FileOf(x)) && ReadImage(FileOf(x)).WellFormed()
  {
    hide Image, Encodable, SectionsFit, ImageEnd, FileOf, ReadImage, Readable, Entry, S.Sorted, StrictlyInOrder, InfoOf;
    LoadUndoesWrite(x);
    StillSorted(x.imports);
    StillSorted(x.exports);
  }
}
