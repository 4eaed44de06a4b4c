/**
 The sections of a loaded USO: where the loader's fixups (src/uso.c:28-65, 152-179) put what uso_write laid out.
 */
module LoadedSections {
  import opened Words
  import opened Alignment
  import opened OutFile
  import opened SymbolCodec
  import opened SectionWriter
  import opened ImageWriter
  import opened ImageLoader
  import R = Relocs
  import opened Fixups

  /** ELF alignments: absent or a power of two. */
  ghost predicate ElfAligned(secs: seq<OutSection>) {
    forall i :: 0 <= i < |secs| && secs[i].align > 0 ==> IsPow2(secs[i].align)
  }

  /** What memalign is asked for. */
  function BlockAlign(secs: seq<OutSection>): (a: U32)
    ensures a >= 4
  {
    var loaded, noload := MaxAlign(secs, true, 4), MaxAlign(secs, false, 1);
    if loaded > noload then loaded else noload
  }

  lemma BlockAlignIs(x: Source)
    requires Encodable(x.imports) && Encodable(x.exports)
    ensures BlockAlign(x.secs) == RamAlign(InfoOf(x))
  {
    hide Encodable, MaxAlign, SumNoload, Image;
  }

  /** A block as memalign returns it: aligned, and not wrapping around. */
  ghost predicate PlacedAt(x: Source, base: U32) {
    && ElfAligned(x.secs)
    && MultipleOf(base, BlockAlign(x.secs))
    && base + ImageEnd(x) < 0x1_0000_0000
  }

  lemma {:induction false} MaxAlignIsPow2(secs: seq<OutSection>, loaded: bool, least: U32)
    requires ElfAligned(secs) && IsPow2(least)
    ensures IsPow2(MaxAlign(secs, loaded, least))
  {
    hide IsPow2;
    if secs != [] {
      MaxAlignIsPow2(secs[..|secs| - 1], loaded, least);
    }
  }

  lemma {:induction false} MaxAlignCovers(secs: seq<OutSection>, loaded: bool, least: U32, i: nat)
    requires i < |secs| && secs[i].data.Some? == loaded
    ensures secs[i].align <= MaxAlign(secs, loaded, least)
  {
    if i < |secs| - 1 {
      MaxAlignCovers(secs[..|secs| - 1], loaded, least, i);
    }
  }

  lemma AlignsOfBlock(secs: seq<OutSection>)
    requires ElfAligned(secs)
    ensures var loaded, noload := MaxAlign(secs, true, 4), MaxAlign(secs, false, 1);
            && IsPow2(loaded) && IsPow2(noload) && IsPow2(BlockAlign(secs))
            && 1 <= noload <= BlockAlign(secs) && 4 <= loaded <= BlockAlign(secs)
  {
    hide IsPow2, MaxAlign, ElfAligned;
    assert IsPow2(4) && IsPow2(1) by {
      Pow2Four();
      PowOne();
    }
    MaxAlignIsPow2(secs, true, 4);
    MaxAlignIsPow2(secs, false, 1);
  }

  lemma PowOne()
    ensures IsPow2(1)
  {
    assert Pow2(0) == 1;
  }

  /** Any alignment among the sections divides the address of the block. */
  lemma BaseFitsSection(secs: seq<OutSection>, base: U32, i: nat)
    requires ElfAligned(secs) && MultipleOf(base, BlockAlign(secs)) && i < |secs| && secs[i].align > 0
    ensures MultipleOf(base, secs[i].align)
  {
    hide IsPow2, MaxAlign, MultipleOf;
    AlignsOfBlock(secs);
    if secs[i].data.Some? {
      MaxAlignCovers(secs, true, 4, i);
    } else {
      MaxAlignCovers(secs, false, 1, i);
    }
    AlignedToLarger(base, secs[i].align, BlockAlign(secs));
  }

  /** An address as memalign returns it, for the alignment that the load information asks for, suits every section. */
  lemma MemalignSuitsSections(x: Source, align: U32, base: U32, i: nat)
    requires Encodable(x.imports) && Encodable(x.exports) && ElfAligned(x.secs)
    requires align == RamAlign(InfoOf(x)) && align > 0 && MultipleOf(base, align)
    requires i < |x.secs| && x.secs[i].align > 0
    ensures MultipleOf(base, x.secs[i].align)
  {
    hide Encodable, InfoOf, MultipleOf, BlockAlign, ElfAligned;
    BlockAlignIs(x);
    BaseFitsSection(x.secs, base, i);
  }

  // ----- Sections with data

  /** Offset in the file of the data of section i. */
  function FileOfs(x: Source, i: nat): nat
    requires i < |x.secs|
  {
    DataOfs(x.secs, DataStart(x.secs, TableOfs(x)), i)
  }

  lemma FileOfsPlace(x: Source, i: nat)
    requires FileFits(x) && i < |x.secs| && x.secs[i].data.Some?
    ensures TableOfs(x) < FileOfs(x, i) && FileOfs(x, i) + x.secs[i].size <= ImageEnd(x)
    ensures x.secs[i].align > 0 && MultipleOf(FileOfs(x, i), x.secs[i].align)
  {
    hide Encodable, SectionsFit, TableOfs, DataStart, DataCursor, RelocStart, DataOfs, MultipleOf, SectionsEnd;
    var d := DataStart(x.secs, TableOfs(x));
    Regions(x.secs, TableOfs(x));
    CursorGrows(x.secs, TableOfs(x), 0, i);
    CursorGrows(x.secs, TableOfs(x), i + 1, |x.secs|);
    DataPlace(x.secs, TableOfs(x), i);
    DataAligned(x.secs, TableOfs(x), i);
  }

  lemma DataAligned(secs: seq<OutSection>, table: nat, i: nat)
    requires SectionsFit(secs, table) && i < |secs| && secs[i].data.Some?
    ensures secs[i].align > 0 && MultipleOf(DataOfs(secs, DataStart(secs, table), i), secs[i].align)
  {
    hide DataStart, DataCursor, Place, RoundUp, IsPow2, MultipleOf, SizesMatch, SectionsEnd;
    var c := DataCursor(secs, DataStart(secs, table), i);
    PlaceIs(c, secs[i].align, secs[i].size);
    RoundUpIs(c, secs[i].align, RoundUp(c, secs[i].align));
  }

  lemma {:induction false} EntryOfs(x: Source, i: nat)
    requires FileFits(x) && i < |x.secs| && x.secs[i].data.Some?
    ensures Entry(x.secs, TableOfs(x), i).data == FileOfs(x, i) - TableOfs(x) > 0
  {
    hide Encodable, SectionsFit, TableOfs, DataOfs, DataStart, ImageEnd, TableField;
    FileOfsPlace(x, i);
  }

  /**
   A loaded section starts at the base plus its file offset, which is a multiple of its own alignment, and
   holds the ELF section's bytes.
   */
  lemma LoadedSection(x: Source, base: U32, i: nat)
    requires FileFits(x) && PlacedAt(x, base) && 1 <= i < |x.secs| && x.secs[i].data.Some?
    ensures var s, ofs := FixedTable(Expected(x), base)[i], FileOfs(x, i);
            && s.data == base + ofs && s.size == x.secs[i].size
            && x.secs[i].align > 0 && MultipleOf(s.data, x.secs[i].align)
            && (s.size > 0 ==> ofs + s.size <= |Image(x)| && Image(x)[ofs..ofs + s.size] == x.secs[i].data.value)
  {
    hide Encodable, SectionsFit, Image, TableOfs, FileOfs, MultipleOf, BlockAlign, ImageEnd, FixedTable, Expected;
    FixedEntry(x, base, i);
    FileOfsPlace(x, i);
    BaseFitsSection(x.secs, base, i);
    SumOfMultiples(base, FileOfs(x, i), x.secs[i].align);
    if x.secs[i].size > 0 {
      DataInImage(x, i);
    }
  }

  /** The loader adds the address of the section table to what the file has. */
  lemma FixedEntry(x: Source, base: U32, i: nat)
    requires FileFits(x) && base + ImageEnd(x) < 0x1_0000_0000 && 1 <= i < |x.secs| && x.secs[i].data.Some?
    ensures var s, e := FixedTable(Expected(x), base)[i], Entry(x.secs, TableOfs(x), i);
            && s.data == base + FileOfs(x, i) && s.size == x.secs[i].size
            && s.internalRelocs == FixedUp(e.internalRelocs, Trunc32(base + TableOfs(x)))
            && s.externalRelocs == FixedUp(e.externalRelocs, Trunc32(base + TableOfs(x)))
  {
    hide Encodable, SectionsFit, TableOfs, FileOfs, ImageEnd, Expected, Entry, FixedUp, FixedTable, FixedSection,
         Trunc32;
    FileOfsPlace(x, i);
    EntryOfs(x, i);
    EntrySize(x.secs, TableOfs(x), i);
    ExpectedEntry(x, base, i);
    TableReached(base, TableOfs(x), FileOfs(x, i));
    FixedWithData(Entries(x), Trunc32(base + TableOfs(x)), Expected(x).NoloadBase(base), i);
  }

  lemma ExpectedEntry(x: Source, base: U32, i: nat)
    requires FileFits(x) && TableOfs(x) < 0x1_0000_0000 && i < |x.secs|
    ensures Entries(x)[i] == Entry(x.secs, TableOfs(x), i)
    ensures FixedTable(Expected(x), base)[i]
         == FixedSection(Entries(x), Trunc32(base + TableOfs(x)), Expected(x).NoloadBase(base), i)
  {
    hide Encodable, SectionsFit, TableOfs, ImageEnd, TableOrNull, Image, Entry, InfoOf, AlignVal, FixedSection, Entries;
    var image := Expected(x);
    assert image.sections == Entries(x) && image.sectionsOfs == TableOfs(x);
    assert FixedTable(image, base)[i]
        == FixedSection(image.sections, image.TableAddr(base), image.NoloadBase(base), i);
  }

  lemma TableReached(base: U32, table: nat, ofs: nat)
    requires table < ofs && base + ofs < 0x1_0000_0000
    ensures Trunc32(Trunc32(base + table) + (ofs - table)) == base + ofs
  {
  }

  lemma FixedWithData(sections: seq<Section>, table: U32, noloadBase: U32, i: nat)
    requires 1 <= i < |sections| && sections[i].data != 0
    ensures var s, t := sections[i], FixedSection(sections, table, noloadBase, i);
            && t.data == Trunc32(table + s.data) && t.size == s.size
            && t.internalRelocs == FixedUp(s.internalRelocs, table)
            && t.externalRelocs == FixedUp(s.externalRelocs, table)
  {
    hide FixedUp;
  }

  lemma EntrySize(secs: seq<OutSection>, table: nat, i: nat)
    requires i < |secs|
    ensures Entry(secs, table, i).size == secs[i].size && Entry(secs, table, i).align == secs[i].align
  {
    hide TableField, DataOfs;
  }

  lemma DataInImage(x: Source, i: nat)
    requires FileFits(x) && i < |x.secs| && x.secs[i].data.Some? && x.secs[i].size > 0
    ensures FileOfs(x, i) + x.secs[i].size <= |Image(x)|
    ensures Image(x)[FileOfs(x, i)..FileOfs(x, i) + x.secs[i].size] == x.secs[i].data.value
  {
    hide Encodable, Image, TableOfs, ImageEnd, DataOfs;
    PartInImage(x, i, 0);
  }

  // ----- Relocation tables

  /** A relocation pointer of a loaded section: NULL for no table, else the address of exactly the built table. */
  ghost predicate PointsToTable(x: Source, base: U32, ptr: U32, relocs: seq<R.Reloc>)
    requires Encodable(x.imports) && Encodable(x.exports)
  {
    if relocs == [] then ptr == 0
    else
      && base < ptr
      && ptr - base + 4 <= |Image(x)| && ptr - base + 4 + 12 * Word(Image(x), ptr - base) <= |Image(x)|
      && RelocTableAt(Image(x), ptr - base) == relocs
  }

  lemma {:induction false} FixedPointer(x: Source, base: U32, i: nat, k: nat, relocs: seq<R.Reloc>, ofs: nat)
    requires FileFits(x) && base + ImageEnd(x) < 0x1_0000_0000 && i < |x.secs| && (k == 1 || k == 2)
    requires PartAt(x.secs, TableOfs(x), i, k) == Chunk(ofs, RelocTableBytes(relocs))
    ensures PointsToTable(x, base, FixedUp(TableField(relocs, ofs, TableOfs(x)), Trunc32(base + TableOfs(x))), relocs)
  {
    hide Encodable, SectionsFit, TableOfs, ImageEnd, Image, PartAt, RelocTableAt, RelocTableBytes, Word, Holds;
    if relocs != [] {
      TablePlace(x, i, k, relocs, ofs);
      PartInImage(x, i, k);
      RelocTableRoundTrip(Image(x), ofs, relocs);
    }
  }

  lemma TablePlace(x: Source, i: nat, k: nat, relocs: seq<R.Reloc>, ofs: nat)
    requires FileFits(x) && i < |x.secs| && (k == 1 || k == 2) && relocs != []
    requires PartAt(x.secs, TableOfs(x), i, k) == Chunk(ofs, RelocTableBytes(relocs))
    ensures TableOfs(x) < ofs < ImageEnd(x) && |relocs| < 0x1_0000_0000
    ensures ImageEnd(x) < 0x1_0000_0000
  {
    hide Encodable, SizesMatch, TableOfs, PartAt, RelocTableBytes, RoundsSafely, IsPow2, StartAlign, DataStart,
         RelocStart, SectionsEnd;
    Regions(x.secs, TableOfs(x));
    PartRegion(x.secs, TableOfs(x), i, k);
  }

  /** Both relocation tables of a loaded section are found where its pointers lead. */
  lemma LoadedRelocs(x: Source, base: U32, i: nat)
    requires FileFits(x) && base + ImageEnd(x) < 0x1_0000_0000 && 1 <= i < |x.secs| && x.secs[i].data.Some?
    ensures var s := FixedTable(Expected(x), base)[i];
            && PointsToTable(x, base, s.internalRelocs, x.secs[i].internal)
            && PointsToTable(x, base, s.externalRelocs, x.secs[i].external)
  {
    hide Encodable, SectionsFit, TableOfs, ImageEnd, FixedUp, FixedTable, Expected, PointsToTable, InternalOfs,
         TableField, ExternalOfs, RelocTableBytes, DataOfs;
    FixedEntry(x, base, i);
    FixedPointer(x, base, i, 1, x.secs[i].internal, InternalOfs(x.secs, TableOfs(x), i));
    FixedPointer(x, base, i, 2, x.secs[i].external, ExternalOfs(x.secs, TableOfs(x), i));
  }

  // ----- NOLOAD sections

  lemma EntryKind(x: Source, i: nat)
    requires FileFits(x) && i < |x.secs|
    ensures IsNoload(Entries(x)[i]) <==> x.secs[i].data == None
    ensures Entries(x)[i].size == x.secs[i].size && Entries(x)[i].align == x.secs[i].align
  {
    hide Encodable, SectionsFit, TableOfs, DataOfs, TableField, FileOfs, ImageEnd;
    if x.secs[i].data.Some? {
      EntryOfs(x, i);
    }
  }

  /** Section 0 is the absolute one: no data, no size. */
  predicate HasDummy(x: Source) {
    x.secs != [] && x.secs[0].data == None && x.secs[0].size == 0
  }

  lemma {:induction false} SizesAgree(x: Source, n: nat)
    requires FileFits(x) && HasDummy(x) && n <= |x.secs|
    ensures NoloadSizes(Entries(x), n) == SumNoload(x.secs, n)
  {
    hide Encodable, SectionsFit, Entries, ImageEnd;
    if n > 0 {
      SizesAgree(x, n - 1);
      EntryKind(x, n - 1);
    }
  }

  /** Every NOLOAD entry is aligned to at most what the load information records. */
  lemma NoloadAligns(x: Source)
    requires FileFits(x) && ElfAligned(x.secs)
    ensures AlignsUpTo(Entries(x), MaxAlign(x.secs, false, 1))
  {
    hide Encodable, SectionsFit, Entries, ImageEnd, IsPow2, MaxAlign, IsNoload, BlockAlign;
    AlignsOfBlock(x.secs);
    forall i | 0 <= i < |Entries(x)| && IsNoload(Entries(x)[i]) && Entries(x)[i].align > 0
      ensures IsPow2(Entries(x)[i].align) && Entries(x)[i].align <= MaxAlign(x.secs, false, 1)
    {
      EntryKind(x, i);
      MaxAlignCovers(x.secs, false, 1, i);
    }
  }

  lemma StartAligned(base: U32, size: U32, align: U32, max: U32)
    requires IsPow2(align) && IsPow2(max) && 1 <= align <= max && MultipleOf(base, max)
    requires base + size + align <= 0x1_0000_0000
    ensures size <= AlignVal(size, align) < size + align && MultipleOf(base + AlignVal(size, align), align)
  {
    hide AlignVal, RoundUp, IsPow2, MultipleOf;
    AlignValRounds(size, align);
    AlignedToLarger(base, align, max);
    RoundUpIs(size, align, RoundUp(size, align));
    SumOfMultiples(base, RoundUp(size, align), align);
  }

  lemma InfoSizes(x: Source)
    requires FileFits(x) && HasDummy(x) && SumNoload(x.secs, |x.secs|) < 0x1_0000_0000
    ensures InfoOf(x).usoSize == |Image(x)| <= ImageEnd(x) + 1
    ensures InfoOf(x).noloadSize == NoloadSizes(Entries(x), |x.secs|) == SumNoload(x.secs, |x.secs|)
    ensures InfoOf(x).noloadAlign == MaxAlign(x.secs, false, 1)
  {
    hide Encodable, SectionsFit, Image, Entries, ImageEnd, MaxAlign, SumNoload, NoloadSizes, FileOf;
    InfoAtEnd(x);
    ImageSize(x);
    SizesAgree(x, |x.secs|);
  }

  /** The block, with the NOLOAD sections however they are padded, does not reach the end of the address space. */
  ghost predicate RoomToLoad(x: Source, base: U32) {
    && PlacedAt(x, base)
    && base + ImageEnd(x) + 1 + 2 * MaxAlign(x.secs, false, 1) + SumNoload(x.secs, |x.secs|)
       + NoloadOfs(Entries(x), |x.secs|) <= 0x1_0000_0000
  }

  lemma RoomIsPlaced(x: Source, base: U32)
    requires RoomToLoad(x, base)
    ensures PlacedAt(x, base)
  {
  }

  /**
   The NOLOAD block of a written USO, loaded at an aligned base: it starts after the image, it is aligned for
   every NOLOAD section, and it fits the memory that the load information asks for iff nothing needs padding.
   */
  lemma LoadedNoload(x: Source, base: U32)
    requires FileFits(x) && HasDummy(x) && RoomToLoad(x, base)
    ensures var info, start := InfoOf(x), Expected(x).NoloadBase(base);
            && base + |Image(x)| <= start
            && RoomFor(Entries(x), start, info.noloadAlign)
            && (start + NoloadOfs(Entries(x), |x.secs|) <= base + RamSize(info)
                <==> NoPadding(Entries(x), |x.secs|))
  {
    hide Encodable, SectionsFit, Image, Entries, ImageEnd, AlignVal, MultipleOf, IsPow2, NoloadOfs, NoPadding,
         BlockAlign, MaxAlign, SumNoload, NoloadSizes, ElfAligned, TableOrNull, RamSize, AlignsUpTo, InfoOf;
    InfoSizes(x);
    AlignsOfBlock(x.secs);
    NoloadAligns(x);
    StartAligned(base, InfoOf(x).usoSize, InfoOf(x).noloadAlign, BlockAlign(x.secs));
    NoloadFitsBlock(Entries(x), InfoOf(x), base);
  }

  // ----- Every section

  /** Where section i of a loaded USO starts: the absolute one at 0, NOLOAD sections behind the image. */
  function SectionStart(x: Source, base: U32, i: nat): nat
    requires Encodable(x.imports) && Encodable(x.exports) && i < |x.secs|
  {
    if i == 0 then 0
    else if x.secs[i].data.Some? then base + FileOfs(x, i)
    else base + RoundUp(|Image(x)|, MaxAlign(x.secs, false, 1)) + PlacedOfs(NoloadOfs(Entries(x), i), x.secs[i].align)
  }

  lemma NoloadBaseIs(x: Source, base: U32)
    requires FileFits(x) && HasDummy(x) && RoomToLoad(x, base)
    ensures Expected(x).NoloadBase(base) == base + RoundUp(|Image(x)|, MaxAlign(x.secs, false, 1))
  {
    hide Encodable, SectionsFit, Image, Entries, ImageEnd, AlignVal, MultipleOf, IsPow2, NoloadOfs, BlockAlign,
         MaxAlign, SumNoload, NoloadSizes, ElfAligned, TableOrNull, InfoOf, RoundUp;
    InfoSizes(x);
    AlignsOfBlock(x.secs);
    AlignValRounds(InfoOf(x).usoSize, InfoOf(x).noloadAlign);
  }

  /** The loader puts every section where it belongs, and aligned as it asks. */
  lemma SectionStartIs(x: Source, base: U32, i: nat)
    requires FileFits(x) && HasDummy(x) && RoomToLoad(x, base) && i < |x.secs|
    ensures FixedTable(Expected(x), base)[i].data == SectionStart(x, base, i)
    ensures i > 0 && x.secs[i].align > 0 ==> MultipleOf(SectionStart(x, base, i), x.secs[i].align)
  {
    hide Encodable, SectionsFit, Image, Entries, ImageEnd, MultipleOf, NoloadOfs, PlacedAt, RoomFor, PlacedOfs, FileOfs,
         IsNoload, TableOrNull, InfoOf, RoundUp, MaxAlign, Placed, FixedUp;
    if i > 0 && x.secs[i].data.Some? {
      LoadedSection(x, base, i);
    } else if i > 0 {
      EntryKind(x, i);
      LoadedNoload(x, base);
      NoloadBaseIs(x, base);
      var image := Expected(x);
      NoloadAt(Entries(x), image.TableAddr(base), image.NoloadBase(base), InfoOf(x).noloadAlign, i);
    }
  }

  lemma DataApart(x: Source, i: nat, j: nat)
    requires FileFits(x) && i < j < |x.secs| && x.secs[i].data.Some? && x.secs[j].data.Some?
    ensures FileOfs(x, i) + x.secs[i].size <= FileOfs(x, j)
  {
    hide Encodable, SectionsFit, TableOfs, DataStart, RelocStart, SectionsEnd, ImageEnd, Place;
    CursorGrows(x.secs, TableOfs(x), i + 1, j);
    DataPlace(x.secs, TableOfs(x), i);
    DataPlace(x.secs, TableOfs(x), j);
  }

  lemma {:induction false} CursorStays(secs: seq<OutSection>, start: nat, m: nat, n: nat)
    requires m <= n <= |secs| && forall k :: m <= k < n ==> secs[k].data == None
    ensures DataCursor(secs, start, n) == DataCursor(secs, start, m)
    decreases n
  {
    hide Place;
    if m < n {
      CursorStays(secs, start, m, n - 1);
    }
  }

  /** No room is wasted: the data of each section follows that of the one before, at the next multiple it asks for. */
  lemma DataFollows(x: Source, i: nat, j: nat)
    requires FileFits(x) && i < j < |x.secs| && x.secs[i].data.Some? && x.secs[j].data.Some?
    requires forall k :: i < k < j ==> x.secs[k].data == None
    ensures x.secs[j].align > 0 && FileOfs(x, j) == RoundUp(FileOfs(x, i) + x.secs[i].size, x.secs[j].align)
  {
    hide Encodable, SectionsFit, TableOfs, DataStart, RelocStart, SectionsEnd, ImageEnd, Place, RoundUp, DataCursor;
    CursorStays(x.secs, DataStart(x.secs, TableOfs(x)), i + 1, j);
    DataPlace(x.secs, TableOfs(x), i);
    PlaceOfData(x.secs, TableOfs(x), j);
  }

  lemma PlaceOfData(secs: seq<OutSection>, table: nat, i: nat)
    requires SectionsFit(secs, table) && i < |secs| && secs[i].data.Some?
    ensures var d := DataStart(secs, table);
            secs[i].align > 0 && DataOfs(secs, d, i) == RoundUp(DataCursor(secs, d, i), secs[i].align)
  {
    hide DataStart, DataCursor, Place, RoundUp, IsPow2, SizesMatch, SectionsEnd;
    PlaceIs(DataCursor(secs, DataStart(secs, table), i), secs[i].align, secs[i].size);
  }

  /** Sections with data end before those without begin. */
  lemma DataBeforeNoload(x: Source, base: U32, i: nat, j: nat)
    requires FileFits(x) && HasDummy(x) && RoomToLoad(x, base) && 1 <= i < |x.secs| && 1 <= j < |x.secs|
    requires x.secs[i].data.Some? && x.secs[j].data == None && x.secs[i].size > 0
    ensures SectionStart(x, base, i) + x.secs[i].size <= SectionStart(x, base, j)
  {
    hide Encodable, SectionsFit, Image, Entries, ImageEnd, RoomToLoad, FileOfs, PlacedOfs, NoloadOfs, RoundUp, MaxAlign,
         RoomFor, InfoOf, RamSize, NoPadding;
    DataInImage(x, i);
    LoadedNoload(x, base);
    NoloadBaseIs(x, base);
  }

  /** No two sections of a loaded USO share a byte, wherever they are from. */
  lemma SectionsApart(x: Source, base: U32, i: nat, j: nat)
    requires FileFits(x) && HasDummy(x) && RoomToLoad(x, base) && 1 <= i < j < |x.secs|
    requires x.secs[i].size > 0 && x.secs[j].size > 0
    ensures SectionStart(x, base, i) + x.secs[i].size <= SectionStart(x, base, j)
            || SectionStart(x, base, j) + x.secs[j].size <= SectionStart(x, base, i)
  {
    hide Encodable, SectionsFit, Image, Entries, ImageEnd, RoomToLoad, FileOfs, PlacedOfs, NoloadOfs, RoundUp;
    if x.secs[i].data.Some? && x.secs[j].data.Some? {
      DataApart(x, i, j);
    } else if x.secs[i].data.Some? {
      DataBeforeNoload(x, base, i, j);
    } else if x.secs[j].data.Some? {
      DataBeforeNoload(x, base, j, i);
    } else {
      NoloadApart(x, base, i, j);
    }
  }

  lemma NoloadApart(x: Source, base: U32, i: nat, j: nat)
    requires FileFits(x) && HasDummy(x) && RoomToLoad(x, base) && 1 <= i < j < |x.secs|
    requires x.secs[i].data == None && x.secs[j].data == None
    ensures SectionStart(x, base, i) + x.secs[i].size <= SectionStart(x, base, j)
  {
    hide Encodable, SectionsFit, Image, Entries, ImageEnd, RoomToLoad, PlacedOfs, NoloadOfs, RoundUp, MaxAlign,
         RoomFor, InfoOf, RamSize, NoPadding, SectionStart, IsNoload, FixedSection;
    LoadedNoload(x, base);
    EntryKind(x, i);
    EntryKind(x, j);
    SectionStartIs(x, base, i);
    SectionStartIs(x, base, j);
    var image := Expected(x);
    NoloadPlacement(Entries(x), image.TableAddr(base), image.NoloadBase(base), InfoOf(x).noloadAlign, i, j);
  }

  // ----- An example

  const BYTE := OutSection(Some([0x2a]), 1, 4, [], [])
  const SMALL := Source([], [], [], [ABSOLUTE, BYTE], 0, 0, 0)

  lemma RoundsToFour(v: nat, m: nat)
    requires m % 4 == 0 && v <= m < v + 4
    ensures RoundUp(v, 4) == m
    ensures v < 0x8000_0000 ==> Place(v, 4) == m
  {
    hide Place, RoundUp;
    MultipleIsNoRemainder(m, 4);
    RoundUpIs(v, 4, m);
    if v < 0x8000_0000 {
      Pow2Four();
      PlaceIs(v, 4, 0);
    }
  }

  lemma StaysAtOne(v: nat)
    requires v < 0x8000_0000
    ensures RoundUp(v, 1) == v && Place(v, 1) == v
  {
    hide Place, RoundUp;
    MultipleOfOne(v);
    RoundUpIs(v, 1, v);
    PowOne();
    PlaceIs(v, 1, 0);
  }

  lemma SmallCursors()
    ensures TableOfs(SMALL) == 24 && DataStart(SMALL.secs, 24) == 64
    ensures DataCursor(SMALL.secs, 64, 0) == DataCursor(SMALL.secs, 64, 1) == 64 && DataCursor(SMALL.secs, 64, 2) == 65
    ensures ImageEnd(SMALL) == 68
  {
    hide RoundUp, Place;
    RoundsToFour(21, 24);
    RoundsToFour(64, 64);
    RoundsToFour(65, 68);
    assert SMALL.secs[0] == ABSOLUTE && SMALL.secs[1] == BYTE;
    assert SMALL.secs[1..] == [BYTE];
    assert StartAlign(SMALL.secs) == StartAlign([BYTE]) == 4;
    assert RelocCursor(SMALL.secs, 68, 1) == 68;
  }

  lemma SmallAligns()
    ensures MaxAlign(SMALL.secs, true, 4) == 4 && MaxAlign(SMALL.secs, false, 1) == 1
    ensures SumNoload(SMALL.secs, 2) == 0 && NoloadOfs(Entries(SMALL), 2) == 0
  {
    hide DataOfs, DataStart, TableOfs;
    SmallCursors();
    assert SMALL.secs[..1] == [ABSOLUTE] && [ABSOLUTE][..0] == [];
    assert MaxAlign([ABSOLUTE], true, 4) == 4 && MaxAlign([ABSOLUTE], false, 1) == 1;
    assert SumNoload(SMALL.secs, 1) == 0;
    SmallEntry();
  }

  lemma SmallEntry()
    ensures !IsNoload(Entries(SMALL)[1])
  {
    hide RoundUp, Place;
    SmallCursors();
    RoundsToFour(64, 64);
  }

  /** A USO with one byte of data, to show that what the theorems ask for can be had. */
  lemma SmallUsoFits(base: U32)
    requires base % 4 == 0 && base < 0x8000_0000
    ensures FileFits(SMALL) && HasDummy(SMALL) && RoomToLoad(SMALL, base) && OffsetsFit(SMALL)
  {
    hide RoundUp, MultipleOf, IsPow2, Entries, TableOfs, DataStart, DataCursor, SectionsEnd, MaxAlign, SumNoload,
         NoloadOfs, OffsetsFit;
    SmallCursors();
    SmallAligns();
    SmallTable();
    Pow2Four();
    MultipleIsNoRemainder(base, 4);
    FitsSoOffsetsFit(SMALL);
  }

  lemma SmallTable()
    ensures SectionsFit(SMALL.secs, 24) && ExportsEnd(SMALL) == 21
  {
    hide RoundUp, Place, IsPow2, RelocTableBytes;
    SmallCursors();
    Pow2Four();
    assert StartAlign([BYTE]) == 4 && SMALL.secs[1..] == [BYTE];
  }

  // ----- A USO that does not fit

  const ONE := OutSection(None, 1, 1, [], [])
  const FOUR := OutSection(None, 4, 4, [], [])
  const PADDED := Source([], [], [], [ABSOLUTE, ONE, FOUR], 0, 0, 0)

  lemma PaddedStart()
    ensures StartAlign(PADDED.secs) == 1
  {
    assert [FOUR][1..] == [] && StartAlign([FOUR]) == 1;
    var two := [ONE, FOUR];
    assert two[0] == ONE && two[1..] == [FOUR];
    assert StartAlign(two) == 1;
    assert PADDED.secs[0] == ABSOLUTE && PADDED.secs[1..] == two;
  }

  lemma PaddedCursors()
    ensures TableOfs(PADDED) == 24 && DataStart(PADDED.secs, 24) == 84
    ensures forall n :: 0 <= n <= 3 ==> DataCursor(PADDED.secs, 84, n) == 84
    ensures StartAlign(PADDED.secs) == 1 && IsPow2(1) && ImageEnd(PADDED) == 84
  {
    hide RoundUp, IsPow2, Place, StartAlign;
    PowOne();
    RoundsToFour(21, 24);
    StaysAtOne(84);
    RoundsToFour(84, 84);
    var secs := PADDED.secs;
    PaddedStart();
    assert secs[0] == ABSOLUTE && secs[1] == ONE && secs[2] == FOUR;
    assert DataCursor(secs, 84, 0) == 84;
    assert DataCursor(secs, 84, 1) == 84;
    assert DataCursor(secs, 84, 2) == 84;
    assert RelocCursor(secs, 84, 1) == 84 && RelocCursor(secs, 84, 2) == 84;
  }

  lemma PaddedAligns()
    ensures MaxAlign(PADDED.secs, true, 4) == 4 && MaxAlign(PADDED.secs, false, 1) == 4
    ensures SumNoload(PADDED.secs, 3) == 5
  {
    var secs := PADDED.secs;
    assert secs[..2] == [ABSOLUTE, ONE] && [ABSOLUTE, ONE][..1] == [ABSOLUTE] && [ABSOLUTE][..0] == [];
    assert MaxAlign([ABSOLUTE], true, 4) == 4 && MaxAlign([ABSOLUTE], false, 1) == 1;
    assert MaxAlign([ABSOLUTE, ONE], true, 4) == 4 && MaxAlign([ABSOLUTE, ONE], false, 1) == 1;
    assert SumNoload(secs, 1) == 0 && SumNoload(secs, 2) == 1;
  }

  lemma PaddedExtent()
    ensures NoloadOfs(Entries(PADDED), 3) == 8 && !NoPadding(Entries(PADDED), 3)
  {
    hide RoundUp, MultipleOf, TableOfs, DataStart, DataOfs;
    var t := Entries(PADDED);
    assert t[1].data == 0 && t[1].size == 1 && t[1].align == 1;
    assert t[2].data == 0 && t[2].size == 4 && t[2].align == 4;
    RoundUpIs(0, 1, 0);
    MultipleOfOne(0);
    assert NoloadOfs(t, 1) == 0 && NoloadOfs(t, 2) == 1;
    RoundsToFour(1, 4);
    assert NoloadSizes(t, 1) == 0 && NoloadSizes(t, 2) == 1;
    MultipleIsNoRemainder(1, 4);
  }

  lemma PaddedUsoFits(base: U32)
    requires base % 4 == 0 && base < 0x8000_0000
    ensures FileFits(PADDED) && HasDummy(PADDED) && RoomToLoad(PADDED, base)
  {
    hide RoundUp, MultipleOf, IsPow2, Entries, TableOfs, DataStart, DataCursor, SectionsEnd, MaxAlign, SumNoload,
         NoloadOfs, NoPadding;
    PaddedCursors();
    PaddedAligns();
    PaddedExtent();
    PaddedTable();
    Pow2Four();
    MultipleIsNoRemainder(base, 4);
  }

  lemma PaddedTable()
    ensures SectionsFit(PADDED.secs, 24) && ExportsEnd(PADDED) == 21
  {
    hide RoundUp, Place, IsPow2, RelocTableBytes, StartAlign;
    PaddedCursors();
  }

  /**
   A real overrun: one byte of NOLOAD data aligned to 1 and four bytes aligned to 4 take eight bytes at run time, but
   the load information asks for memory for five.
   */
  lemma PaddedUsoOverruns(base: U32)
    requires base % 4 == 0 && base < 0x8000_0000
    ensures FileFits(PADDED) && HasDummy(PADDED) && RoomToLoad(PADDED, base) && OffsetsFit(PADDED)
    ensures Expected(PADDED).NoloadBase(base) + NoloadOfs(Entries(PADDED), 3) > base + RamSize(InfoOf(PADDED))
  {
    hide RoomToLoad, Image, Entries, NoloadOfs, NoPadding, InfoOf, RamSize, ImageEnd, SectionsFit, TableOrNull,
         Encodable, OffsetsFit;
    PaddedUsoFits(base);
    FitsSoOffsetsFit(PADDED);
    PaddedExtent();
    LoadedNoload(PADDED, base);
  }
}
