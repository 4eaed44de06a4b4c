/**
 The bytes of a USO file, offset by offset (src/uso_internal.h:13-78): what elf2uso leaves at each place, found from the
 places that the file itself names.
 */
module Format {
  import opened Words
  import opened CStrings
  import opened OutFile
  import opened Records
  import opened ElfInput
  import opened SymbolCodec
  import opened SectionCollect
  import opened SymCollect
  import opened SectionWriter
  import opened ImageWriter
  import opened ImageLoader
  import opened LoadedSections
  import opened UsoReader
  import opened Elf2Uso
  import opened Alignment
  import R = Relocs

  lemma ChunkInFile(x: Source, c: Chunk)
    requires Encodable(x.imports) && Encodable(x.exports) && Holds(Image(x), c)
    ensures Holds(FileOf(x), c)
  {
    hide Image, Encodable, LoadInfoBytes, InfoOf, Holds;
    HoldsLonger(Image(x), LoadInfoBytes(InfoOf(x)), c);
  }

  /** The header, and the name of the ELF file behind it. Symbol tables follow at the next multiples of 4. */
  lemma HeaderFormat(x: Source)
    requires FileFits(x)
    ensures
      var f, imports, exports := FileOf(x), RoundUp(21 + |x.elfName|, 4), RoundUp(ImportsEnd(x), 4);
      && 21 + |x.elfName| <= |f| && f[20..20 + |x.elfName|] == x.elfName && f[20 + |x.elfName|] == 0
      && Half(f, 0) == |x.secs| && Half(f, 2) == x.ehFrame && Word(f, 4) == TableOfs(x)
      && Word(f, 8) == (if x.imports == [] then 0 else imports)
      && Word(f, 12) == (if x.exports == [] then 0 else exports)
      && Half(f, 16) == x.ctors && Half(f, 18) == x.dtors
  {
    hide Image, FileOf, Encodable, SectionsFit, HeaderBytes, ImageEnd, ImportsEnd, ExportsEnd, HeaderAt, TableOfs, Word,
         Half, RoundUp, Holds;
    var f := FileOf(x);
    HeaderPlace(x);
    NamePlace(x);
    HeaderRoundTrip(f, 0, HeaderOf(x));
    HeaderFields(x);
  }

  lemma HeaderPlace(x: Source)
    requires FileFits(x)
    ensures 20 <= |FileOf(x)| && FileOf(x)[0..20] == HeaderBytes(HeaderOf(x))
  {
    hide Image, Encodable, SectionsFit, HeaderBytes, ImageEnd, ExportsEnd, HeaderOf, LoadInfoBytes, InfoOf;
    HeaderInImage(x);
    assert FileOf(x)[0..20] == Image(x)[0..20];
  }

  lemma NamePlace(x: Source)
    requires FileFits(x)
    ensures 21 + |x.elfName| <= |FileOf(x)|
    ensures FileOf(x)[20..20 + |x.elfName|] == x.elfName && FileOf(x)[20 + |x.elfName|] == 0
  {
    hide Image, FileOf, Encodable, SectionsFit, ImageEnd, ExportsEnd, ImageChunks;
    MembersOfImage(x);
    ImageHolds(x, NameChunk(x));
    ChunkInFile(x, NameChunk(x));
    Part(FileOf(x), 20, x.elfName + [0], 0, |x.elfName|);
    Part(FileOf(x), 20, x.elfName + [0], |x.elfName|, |x.elfName| + 1);
    assert (x.elfName + [0])[0..|x.elfName|] == x.elfName;
    assert FileOf(x)[20 + |x.elfName|..21 + |x.elfName|][0] == 0;
  }

  lemma HeaderFields(x: Source)
    requires FileFits(x)
    ensures var h := HeaderOf(x);
            && h.numSections == |x.secs| && h.sectionsOfs == TableOfs(x)
            && h.importsOfs == (if x.imports == [] then 0 else RoundUp(21 + |x.elfName|, 4))
            && h.exportsOfs == (if x.exports == [] then 0 else RoundUp(ImportsEnd(x), 4))
            && h.ehFrame == x.ehFrame && h.ctors == x.ctors && h.dtors == x.dtors
  {
    hide Encodable, SectionsFit, ImageEnd, RoundUp;
    ImageRegions(x);
  }

  /** Which section the header names where: .eh_frame at 2, .ctors at 16, .dtors at 18. */
  lemma HeaderNames(elf: ElfFile, o: Output, s: U16)
    requires elf.Parsed() && Built(elf, o) && FileFits(o.source)
    ensures 20 <= |FileOf(o.source)|
    ensures FirstNamed(elf.sections, [0x2e, 0x65, 0x68, 0x5f, 0x66, 0x72, 0x61, 0x6d, 0x65], s) ==>
              Half(FileOf(o.source), 2) == OutputIndex(o.ctx.secMap, s)
    ensures FirstNamed(elf.sections, [0x2e, 0x63, 0x74, 0x6f, 0x72, 0x73], s) ==>
              Half(FileOf(o.source), 16) == OutputIndex(o.ctx.secMap, s)
    ensures FirstNamed(elf.sections, [0x2e, 0x64, 0x74, 0x6f, 0x72, 0x73], s) ==>
              Half(FileOf(o.source), 18) == OutputIndex(o.ctx.secMap, s)
  {
    hide Maps, Rejected, Encodable, SectionsFit, ImageEnd, FileOf, Half, Word, RoundUp, OutputIndex, MapsImports,
         SortByName, SectionBuilt, Identifies, FirstNamed, Ascii;
    HeaderFormat(o.source);
    NamesInBytes();
    IdIs(elf, o.ctx.secMap, EH_FRAME, o.source.ehFrame, s);
    IdIs(elf, o.ctx.secMap, CTORS, o.source.ctors, s);
    IdIs(elf, o.ctx.secMap, DTORS, o.source.dtors, s);
  }

  lemma NamesInBytes()
    ensures EH_FRAME == [0x2e, 0x65, 0x68, 0x5f, 0x66, 0x72, 0x61, 0x6d, 0x65]
    ensures CTORS == [0x2e, 0x63, 0x74, 0x6f, 0x72, 0x73] && DTORS == [0x2e, 0x64, 0x74, 0x6f, 0x72, 0x73]
  {
  }

  lemma IdIs(elf: ElfFile, secMap: SectionMap, name: Name, id: U16, s: U16)
    requires Identifies(elf, secMap, name, id)
    ensures FirstNamed(elf.sections, name, s) ==> id == OutputIndex(secMap, s)
  {
    hide FirstNamed, OutputIndex;
    var s': U16 :| FirstNamed(elf.sections, name, s') && id == OutputIndex(secMap, s');
    if FirstNamed(elf.sections, name, s) {
      FirstNamedIsUnique(elf.sections, name, s, s');
    }
  }

  // ----- Symbol tables

  /** Entry j of a table at `ofs`: name offset, address, section, and length with the weak mark on top. */
  predicate SymbolThere(f: seq<Byte>, ofs: nat, syms: seq<SymbolInfo>, j: nat)
    requires j < |syms|
  {
    var e, s := ofs + 4 + 12 * j, syms[j];
    && e + 12 <= |f|
    && Word(f, e + 4) == s.addr && Half(f, e + 8) == s.section
    && Half(f, e + 10) == |s.name| + (if s.weak then 0x8000 else 0)
    && var n := ofs + Word(f, e);
       n + |s.name| < |f| && f[n..n + |s.name|] == s.name && f[n + |s.name|] == 0
  }

  /** The count, the entries, and the names in a row behind them. */
  lemma TableFormat(f: seq<Byte>, ofs: nat, syms: seq<SymbolInfo>, j: nat)
    requires Encodable(syms) && HasTable(f, ofs, syms) && j < |syms|
    ensures ofs + 4 <= |f| && Word(f, ofs) == |syms| && SymbolThere(f, ofs, syms, j)
    ensures j == 0 ==> Word(f, ofs + 4) == 4 + 12 * |syms|
    ensures j > 0 ==> SymbolThere(f, ofs, syms, j - 1)
                      && Word(f, ofs + 4 + 12 * j) == Word(f, ofs + 4 + 12 * j - 12) + |syms[j - 1].name| + 1
  {
    hide HasTable, Encodable, Word, Half, NameOfs;
    EntryFormat(f, ofs, syms, j);
    if j > 0 {
      EntryFormat(f, ofs, syms, j - 1);
      NextName(syms, j - 1);
    } else {
      NoNames(syms);
    }
  }

  lemma NoNames(syms: seq<SymbolInfo>)
    ensures NameOfs(syms, 0) == 4 + 12 * |syms|
  {
  }

  lemma EntryFormat(f: seq<Byte>, ofs: nat, syms: seq<SymbolInfo>, j: nat)
    requires Encodable(syms) && HasTable(f, ofs, syms) && j < |syms|
    ensures ofs + 4 <= |f| && Word(f, ofs) == |syms| && SymbolThere(f, ofs, syms, j)
    ensures Word(f, ofs + 4 + 12 * j) == NameOfs(syms, j)
  {
    hide HasTable, Encodable, Word, Half, NameOfs;
    ReadCount(f, ofs, syms);
    ReadRecord(f, ofs, syms, j);
    ReadName(f, ofs, syms, j);
    RecordFields(syms, j);
    LengthInNumbers(syms, j);
  }

  lemma LengthInNumbers(syms: seq<SymbolInfo>, j: nat)
    requires Encodable(syms) && j < |syms|
    ensures NameLen(syms[j]) == |syms[j].name| + (if syms[j].weak then 0x8000 else 0)
  {
  }

  /** Both symbol tables are where the header says. */
  lemma SymbolsFormat(x: Source, j: nat)
    requires FileFits(x)
    ensures 20 <= |FileOf(x)|
    ensures j < |x.imports| ==>
              var ofs := Word(FileOf(x), 8);
              ofs > 0 && ofs + 4 <= |FileOf(x)| && Word(FileOf(x), ofs) == |x.imports|
              && SymbolThere(FileOf(x), ofs, x.imports, j)
    ensures j < |x.exports| ==>
              var ofs := Word(FileOf(x), 12);
              ofs > 0 && ofs + 4 <= |FileOf(x)| && Word(FileOf(x), ofs) == |x.exports|
              && SymbolThere(FileOf(x), ofs, x.exports, j)
  {
    hide Image, FileOf, Encodable, SectionsFit, ImageEnd, TableSize, HasTable, RoundUp, SymbolThere, Word, Half;
    HeaderFormat(x);
    if j < |x.imports| {
      OffsetFits(x, NameEnd(x), x.imports);
      SymbolsInImage(x, NameEnd(x), x.imports);
      TableInFile(x, SymbolsOfs(NameEnd(x)), x.imports);
      TableFormat(FileOf(x), SymbolsOfs(NameEnd(x)), x.imports, j);
    }
    if j < |x.exports| {
      OffsetFits(x, ImportsEnd(x), x.exports);
      SymbolsInImage(x, ImportsEnd(x), x.exports);
      TableInFile(x, SymbolsOfs(ImportsEnd(x)), x.exports);
      TableFormat(FileOf(x), SymbolsOfs(ImportsEnd(x)), x.exports, j);
    }
  }

  /** Where a table ends: behind the terminator of its last name. */
  function EndOfTable(f: seq<Byte>, ofs: nat, syms: seq<SymbolInfo>): nat
    requires syms != [] && ofs + 4 + 12 * |syms| <= |f|
  {
    var last := |syms| - 1;
    ofs + Word(f, ofs + 4 + 12 * last) + |syms[last].name| + 1
  }

  lemma EndOfTableIs(f: seq<Byte>, ofs: nat, syms: seq<SymbolInfo>)
    requires Encodable(syms) && HasTable(f, ofs, syms) && syms != []
    ensures ofs + 4 + 12 * |syms| <= |f| && EndOfTable(f, ofs, syms) == ofs + TableSize(syms)
  {
    hide HasTable, Encodable, Word, NameOfs, SymbolThere;
    var last := |syms| - 1;
    EntryFormat(f, ofs, syms, last);
    ReadRecord(f, ofs, syms, last);
    NextName(syms, last);
  }

  /** Export table and section table follow what is before them, at the next multiple of 4. */
  lemma TablesFollow(x: Source)
    requires FileFits(x)
    ensures 20 <= |FileOf(x)|
    ensures
      var f := FileOf(x);
      && (x.imports != [] ==> Word(f, 8) + 4 + 12 * |x.imports| <= |f|)
      && (x.exports != [] ==> Word(f, 12) + 4 + 12 * |x.exports| <= |f|)
      && var afterImports := if x.imports == [] then 21 + |x.elfName| else EndOfTable(f, Word(f, 8), x.imports);
         && (x.exports == [] ==> Word(f, 4) == RoundUp(afterImports, 4))
         && (x.exports != [] ==>
               && Word(f, 12) == RoundUp(afterImports, 4)
               && Word(f, 4) == RoundUp(EndOfTable(f, Word(f, 12), x.exports), 4))
  {
    hide Image, FileOf, Encodable, SectionsFit, ImageEnd, TableSize, HasTable, RoundUp, EndOfTable, Word, Half;
    HeaderFormat(x);
    if x.imports != [] {
      OffsetFits(x, NameEnd(x), x.imports);
      SymbolsInImage(x, NameEnd(x), x.imports);
      TableInFile(x, SymbolsOfs(NameEnd(x)), x.imports);
      EndOfTableIs(FileOf(x), SymbolsOfs(NameEnd(x)), x.imports);
    }
    if x.exports != [] {
      OffsetFits(x, ImportsEnd(x), x.exports);
      SymbolsInImage(x, ImportsEnd(x), x.exports);
      TableInFile(x, SymbolsOfs(ImportsEnd(x)), x.exports);
      EndOfTableIs(FileOf(x), SymbolsOfs(ImportsEnd(x)), x.exports);
    }
  }

  // ----- Sections

  /** A relocation table at `ofs`: its length, and three words for each entry. */
  predicate RelocsThere(f: seq<Byte>, ofs: nat, relocs: seq<R.Reloc>) {
    && ofs + 4 + 12 * |relocs| <= |f| && Word(f, ofs) == |relocs|
    && forall k :: 0 <= k < |relocs| ==>
         && Word(f, ofs + 4 + 12 * k) == relocs[k].offset
         && Word(f, ofs + 8 + 12 * k) == relocs[k].info
         && Word(f, ofs + 12 + 12 * k) == relocs[k].symOffset
  }

  lemma RelocsFormat(f: seq<Byte>, ofs: nat, relocs: seq<R.Reloc>)
    requires relocs != [] && |relocs| < 0x1_0000_0000 && Holds(f, Chunk(ofs, RelocTableBytes(relocs)))
    ensures RelocsThere(f, ofs, relocs)
  {
    hide Word, RelocTableBytes, Holds;
    RelocTableRoundTrip(f, ofs, relocs);
    var t := RelocTableAt(f, ofs);
    forall k | 0 <= k < |relocs|
      ensures Word(f, ofs + 4 + 12 * k) == relocs[k].offset && Word(f, ofs + 8 + 12 * k) == relocs[k].info
      ensures Word(f, ofs + 12 + 12 * k) == relocs[k].symOffset
    {
      assert t[k] == RelocAt(f, ofs + 4 + 12 * k);
    }
  }

  /** Entry i of the section table; its offsets count from the table. */
  lemma SectionFormat(x: Source, i: nat)
    requires FileFits(x) && i < |x.secs|
    ensures 20 <= |FileOf(x)|
    ensures
      var f, t, s := FileOf(x), Word(FileOf(x), 4), x.secs[i];
      var e := t + 20 * i;
      && e + 20 <= |f|
      && Word(f, e + 4) == s.size && Word(f, e + 8) == s.align
      && (s.data == None ==> Word(f, e) == 0)
      && (s.data.Some? ==> Word(f, e) > 0)
      && (s.data.Some? && s.size > 0 ==>
            t + Word(f, e) + s.size <= |f| && f[t + Word(f, e)..t + Word(f, e) + s.size] == s.data.value)
      && (s.internal == [] ==> Word(f, e + 12) == 0)
      && (s.internal != [] ==> RelocsThere(f, t + Word(f, e + 12), s.internal))
      && (s.external == [] ==> Word(f, e + 16) == 0)
      && (s.external != [] ==> RelocsThere(f, t + Word(f, e + 16), s.external))
  {
    hide Image, FileOf, Encodable, SectionsFit, ImageEnd, TableOfs, RelocsThere, Word, Half, RoundUp, Entry;
    HeaderFormat(x);
    EntryPlace(x, i);
    DataPlaced(x, i);
    TablesPlaced(x, i);
  }

  lemma EntryPlace(x: Source, i: nat)
    requires FileFits(x) && i < |x.secs|
    ensures
      var f, e, s := FileOf(x), TableOfs(x) + 20 * i, Entry(x.secs, TableOfs(x), i);
      && e + 20 <= |f| && Word(f, e) == s.data && Word(f, e + 4) == s.size && Word(f, e + 8) == s.align
      && Word(f, e + 12) == s.internalRelocs && Word(f, e + 16) == s.externalRelocs
      && s.size == x.secs[i].size && s.align == x.secs[i].align
  {
    hide Image, FileOf, Encodable, SectionsFit, ImageEnd, TableOfs, Word, Entry, SectionBytes;
    PartInImage(x, i, 3);
    ChunkInFile(x, PartAt(x.secs, TableOfs(x), i, 3));
    SectionRoundTrip(FileOf(x), TableOfs(x) + 20 * i, Entry(x.secs, TableOfs(x), i));
    EntrySize(x.secs, TableOfs(x), i);
  }

  lemma DataPlaced(x: Source, i: nat)
    requires FileFits(x) && i < |x.secs|
    ensures
      var f, t, s := FileOf(x), TableOfs(x), x.secs[i];
      var d := Entry(x.secs, t, i).data;
      && (s.data == None ==> d == 0) && (s.data.Some? ==> d > 0)
      && (s.data.Some? && s.size > 0 ==> t + d + s.size <= |f| && f[t + d..t + d + s.size] == s.data.value)
  {
    hide Image, FileOf, Encodable, SectionsFit, ImageEnd, TableOfs, DataOfs, DataStart, TableField, InternalOfs,
         ExternalOfs;
    if x.secs[i].data.Some? {
      EntryOfs(x, i);
      SizeOfData(x.secs, TableOfs(x), i);
      PartInImage(x, i, 0);
      ChunkInFile(x, PartAt(x.secs, TableOfs(x), i, 0));
    }
  }

  lemma SizeOfData(secs: seq<OutSection>, table: nat, i: nat)
    requires SectionsFit(secs, table) && i < |secs| && secs[i].data.Some?
    ensures |secs[i].data.value| == secs[i].size
  {
    hide RoundsSafely, DataCursor, SectionsEnd, StartAlign, IsPow2, DataStart;
  }

  lemma TablesPlaced(x: Source, i: nat)
    requires FileFits(x) && i < |x.secs|
    ensures
      var f, t, s := FileOf(x), TableOfs(x), x.secs[i];
      var e := Entry(x.secs, t, i);
      && (s.internal == [] ==> e.internalRelocs == 0)
      && (s.internal != [] ==> RelocsThere(f, t + e.internalRelocs, s.internal))
      && (s.external == [] ==> e.externalRelocs == 0)
      && (s.external != [] ==> RelocsThere(f, t + e.externalRelocs, s.external))
  {
    hide Image, FileOf, Encodable, SectionsFit, ImageEnd, TableOfs, DataOfs, DataStart, RelocsThere, InternalOfs,
         ExternalOfs, RelocTableBytes, Holds;
    var t, s := TableOfs(x), x.secs[i];
    if s.internal != [] {
      TablePlace(x, i, 1, s.internal, InternalOfs(x.secs, t, i));
      PartInImage(x, i, 1);
      ChunkInFile(x, PartAt(x.secs, t, i, 1));
      RelocsFormat(FileOf(x), InternalOfs(x.secs, t, i), s.internal);
    }
    if s.external != [] {
      TablePlace(x, i, 2, s.external, ExternalOfs(x.secs, t, i));
      PartInImage(x, i, 2);
      ChunkInFile(x, PartAt(x.secs, t, i, 2));
      RelocsFormat(FileOf(x), ExternalOfs(x.secs, t, i), s.external);
    }
  }

  /** Relocation tables stand in a row behind the last data, section by section, the internal one first. */
  lemma RelocsFollow(x: Source, i: nat)
    requires FileFits(x) && i < |x.secs|
    ensures
      var t, s := TableOfs(x), x.secs[i];
      var e := Entry(x.secs, t, i);
      var start := RoundUp(DataCursor(x.secs, DataStart(x.secs, t), |x.secs|), 4);
      && (s.internal != [] ==>
            t + e.internalRelocs == start + TotalSize(x.secs, i))
      && (s.external != [] ==>
            t + e.externalRelocs == start + TotalSize(x.secs, i)
                                    + (if s.internal == [] then 0 else 4 + 12 * |s.internal|))
  {
    hide Encodable, SectionsFit, ImageEnd, TableOfs, DataOfs, DataStart, DataCursor, RoundUp, RelocTableBytes,
         TotalSize, RelocCursor, TableField;
    var t, s := TableOfs(x), x.secs[i];
    CursorIsTotal(x.secs, RelocStart(x.secs, t), i);
    if s.internal != [] {
      TablePlace(x, i, 1, s.internal, InternalOfs(x.secs, t, i));
      FieldLeadsThere(s.internal, InternalOfs(x.secs, t, i), t);
    }
    if s.external != [] {
      TablePlace(x, i, 2, s.external, ExternalOfs(x.secs, t, i));
      FieldLeadsThere(s.external, ExternalOfs(x.secs, t, i), t);
    }
  }

  lemma FieldLeadsThere(relocs: seq<R.Reloc>, ofs: nat, table: nat)
    requires relocs != [] && table < ofs < 0x1_0000_0000
    ensures table + TableField(relocs, ofs, table) == ofs
  {
  }

  /** The bytes of all relocation tables of the first n sections. */
  function TotalSize(secs: seq<OutSection>, n: nat): nat
    requires n <= |secs|
  {
    if n == 0 then 0
    else
      var s := secs[n - 1];
      TotalSize(secs, n - 1)
      + (if s.internal == [] then 0 else 4 + 12 * |s.internal|)
      + (if s.external == [] then 0 else 4 + 12 * |s.external|)
  }

  lemma {:induction false} CursorIsTotal(secs: seq<OutSection>, start: nat, n: nat)
    requires n <= |secs|
    ensures RelocCursor(secs, start, n) == start + TotalSize(secs, n)
  {
    if n > 0 {
      CursorIsTotal(secs, start, n - 1);
    }
  }

  // ----- Load information

  /** The last sixteen bytes: how much goes to memory, and sizes and alignments. */
  lemma InfoFormat(x: Source)
    requires FileFits(x)
    ensures
      var f, n := FileOf(x), |FileOf(x)| - 16;
      && n >= 20 && n % 2 == 0 && Word(f, n) == n
      && Word(f, n + 4) == MaxAlign(x.secs, true, 4)
      && Word(f, n + 8) == SumNoload(x.secs, |x.secs|) % 0x1_0000_0000
      && Word(f, n + 12) == MaxAlign(x.secs, false, 1)
  {
    hide Image, Encodable, SectionsFit, LoadInfoBytes, LoadInfoAt, MaxAlign, SumNoload, ImageEnd, Word;
    ImageSize(x);
    var f := FileOf(x);
    assert f[|Image(x)|..|Image(x)| + 16] == LoadInfoBytes(InfoOf(x));
    LoadInfoRoundTrip(f, |Image(x)|, InfoOf(x));
    InfoAtEnd(x);
  }
}
