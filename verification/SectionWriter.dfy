/**
 Section data, relocation tables and the section table of a USO file: the size, alignment and writing loops
 of tools/elf2uso.cpp (lines 410-475, 525-588).
 */
module SectionWriter {
  import opened Words
  import opened Alignment
  import opened OutFile
  import opened Records
  import R = Relocs
  import opened Fixups

  /** section_info; no data means a NOLOAD section. */
  datatype OutSection = OutSection(data: Option<seq<Byte>>, size: U32, align: U32,
                                   internal: seq<R.Reloc>, external: seq<R.Reloc>)

  /** Section 0 of every USO, for symbols that belong to no section. */
  const ABSOLUTE := OutSection(None, 0, 0, [], [])

  predicate SizesMatch(secs: seq<OutSection>) {
    forall i :: 0 <= i < |secs| && secs[i].data.Some? ==> |secs[i].data.value| == secs[i].size
  }

  // ----- Relocation tables

  function EntriesBytes(relocs: seq<R.Reloc>, n: nat): (b: seq<Byte>)
    requires n <= |relocs|
    ensures |b| == 12 * n
  {
    if n == 0 then [] else EntriesBytes(relocs, n - 1) + RelocBytes(relocs[n - 1])
  }

  /** The bytes of a table: none at all when it is empty, since it is then not written. */
  function RelocTableBytes(relocs: seq<R.Reloc>): (b: seq<Byte>)
    ensures |b| == RelocTableSize(relocs)
  {
    if relocs == [] then [] else WordBytes(Trunc32(|relocs|)) + EntriesBytes(relocs, |relocs|)
  }

  function RelocTableSize(relocs: seq<R.Reloc>): nat { if relocs == [] then 0 else 4 + 12 * |relocs| }

  /** A byte after a write: written, or there before, or in a gap. */
  lemma SpliceByte(f: seq<Byte>, c: Chunk, i: nat)
    requires c.bytes != [] && i < |Splice(f, c)|
    ensures Splice(f, c)[i] == if c.ofs <= i < c.End() then c.bytes[i - c.ofs] else if i < |f| then f[i] else 0
  {
  }

  /** Two writes in a row are one. */
  lemma SpliceJoin(f: seq<Byte>, ofs: nat, a: seq<Byte>, b: seq<Byte>)
    ensures Splice(Splice(f, Chunk(ofs, a)), Chunk(ofs + |a|, b)) == Splice(f, Chunk(ofs, a + b))
  {
    if a == [] {
      assert a + b == b;
    } else if b == [] {
      assert a + b == a;
    } else {
      hide Splice;
      var g, h := Splice(Splice(f, Chunk(ofs, a)), Chunk(ofs + |a|, b)), Splice(f, Chunk(ofs, a + b));
      assert |g| == |h|;
      forall i | 0 <= i < |g|
        ensures g[i] == h[i]
      {
        JoinedByte(f, ofs, a, b, i);
      }
    }
  }

  lemma JoinedByte(f: seq<Byte>, ofs: nat, a: seq<Byte>, b: seq<Byte>, i: nat)
    requires a != [] && b != []
    requires i < |Splice(Splice(f, Chunk(ofs, a)), Chunk(ofs + |a|, b))| == |Splice(f, Chunk(ofs, a + b))|
    ensures Splice(Splice(f, Chunk(ofs, a)), Chunk(ofs + |a|, b))[i] == Splice(f, Chunk(ofs, a + b))[i]
  {
    hide Splice;
    var first := Splice(f, Chunk(ofs, a));
    SpliceByte(first, Chunk(ofs + |a|, b), i);
    SpliceByte(f, Chunk(ofs, a + b), i);
    if i < |first| {
      SpliceByte(f, Chunk(ofs, a), i);
    }
  }

  /** uso_write_relocations, for a table that is not empty */
  method UsoWriteRelocations(file: OutputFile, ofs: nat, relocs: seq<R.Reloc>, little: bool)
    requires relocs != []
    modifies file
    ensures file.bytes == Splice(old(file.bytes), Chunk(ofs, RelocTableBytes(relocs)))
  {
    hide Splice, WordBytes, RelocBytes, Stored32, RelocTableBytes, EntriesBytes;
    ghost var f := file.bytes;
    file.Seek(ofs);
    file.Write(Stored32(little, Trunc32(|relocs|)));
    file.Seek(ofs + 4);
    TableStarts(relocs);
    for i := 0 to |relocs|
      invariant file.pos == ofs + 4 + 12 * i
      invariant file.bytes == Splice(f, Chunk(ofs, TableSoFar(relocs, i)))
    {
      OneMoreEntry(f, ofs, relocs, i);
      file.Write(RelocOnHost(relocs[i], little));
    }
    TableDone(relocs);
  }

  /** The table with its first n entries. */
  ghost function TableSoFar(relocs: seq<R.Reloc>, n: nat): (b: seq<Byte>)
    requires n <= |relocs|
    ensures |b| == 4 + 12 * n
  {
    WordBytes(Trunc32(|relocs|)) + EntriesBytes(relocs, n)
  }

  lemma TableStarts(relocs: seq<R.Reloc>)
    ensures TableSoFar(relocs, 0) == WordBytes(Trunc32(|relocs|))
  {
  }

  lemma TableDone(relocs: seq<R.Reloc>)
    requires relocs != []
    ensures TableSoFar(relocs, |relocs|) == RelocTableBytes(relocs)
  {
  }

  lemma OneMoreEntry(f: seq<Byte>, ofs: nat, relocs: seq<R.Reloc>, i: nat)
    requires i < |relocs|
    ensures Splice(Splice(f, Chunk(ofs, TableSoFar(relocs, i))), Chunk(ofs + 4 + 12 * i, RelocBytes(relocs[i])))
         == Splice(f, Chunk(ofs, TableSoFar(relocs, i + 1)))
  {
    hide Splice, WordBytes, RelocBytes;
    SpliceJoin(f, ofs, TableSoFar(relocs, i), RelocBytes(relocs[i]));
    assert TableSoFar(relocs, i + 1) == TableSoFar(relocs, i) + RelocBytes(relocs[i]);
  }

  function RelocOnHost(r: R.Reloc, little: bool): (b: seq<Byte>)
    ensures b == RelocBytes(r)
  {
    ThreeWords(r.offset, r.info, r.symOffset);
    Stored32(little, r.offset) + Stored32(little, r.info) + Stored32(little, r.symOffset)
  }

  /** The table a loader finds at an offset. */
  function RelocTableAt(f: seq<Byte>, ofs: nat): seq<R.Reloc>
    requires ofs + 4 <= |f| && ofs + 4 + 12 * Word(f, ofs) <= |f|
  {
    seq(Word(f, ofs), i requires 0 <= i < Word(f, ofs) => RelocAt(f, ofs + 4 + 12 * i))
  }

  lemma {:induction false} EntryInTable(relocs: seq<R.Reloc>, n: nat, i: nat)
    requires i < n <= |relocs|
    ensures EntriesBytes(relocs, n)[12 * i..12 * i + 12] == RelocBytes(relocs[i])
    decreases n
  {
    hide RelocBytes;
    var init := EntriesBytes(relocs, n - 1);
    if i < n - 1 {
      EntryInTable(relocs, n - 1, i);
      assert EntriesBytes(relocs, n)[..|init|] == init;
      assert EntriesBytes(relocs, n)[12 * i..12 * i + 12] == init[12 * i..12 * i + 12];
    }
  }

  lemma RelocTableRoundTrip(f: seq<Byte>, ofs: nat, relocs: seq<R.Reloc>)
    requires relocs != [] && |relocs| < 0x1_0000_0000 && Holds(f, Chunk(ofs, RelocTableBytes(relocs)))
    ensures ofs + 4 <= |f| && ofs + 4 + 12 * Word(f, ofs) <= |f|
    ensures RelocTableAt(f, ofs) == relocs
  {
    hide Word, WordBytes, RelocBytes, EntriesBytes, RelocAt;
    var b := RelocTableBytes(relocs);
    Part(f, ofs, b, 0, 4);
    assert b[0..4] == WordBytes(|relocs|);
    WordOfSlice(f, ofs, WordBytes(|relocs|));
    WordOfBytes(|relocs|);
    forall i | 0 <= i < |relocs|
      ensures RelocAt(f, ofs + 4 + 12 * i) == relocs[i]
    {
      EntryInTable(relocs, |relocs|, i);
      Part(f, ofs, b, 4 + 12 * i, 4 + 12 * i + 12);
      assert b[4 + 12 * i..4 + 12 * i + 12] == EntriesBytes(relocs, |relocs|)[12 * i..12 * i + 12];
      RelocRoundTrip(f, ofs + 4 + 12 * i, relocs[i]);
    }
  }

  // ----- Cursors

  /** align_val on a cursor, whatever the alignment; for a power of two it is rounding up (PlaceIs). */
  function Place(c: nat, align: U32): nat { AlignVal(Trunc32(c), align) }

  /** Where section data may go next, after the first n sections. */
  function DataCursor(secs: seq<OutSection>, start: nat, n: nat): nat
    requires n <= |secs|
  {
    if n == 0 then start
    else
      var c, s := DataCursor(secs, start, n - 1), secs[n - 1];
      if s.data.Some? then Place(c, s.align) + s.size else c
  }

  /** Where the data of section i goes. */
  function DataOfs(secs: seq<OutSection>, start: nat, i: nat): nat
    requires i < |secs|
  {
    Place(DataCursor(secs, start, i), secs[i].align)
  }

  /** Where the next relocation table goes, after the tables of the first n sections. */
  function RelocCursor(secs: seq<OutSection>, start: nat, n: nat): nat
    requires n <= |secs|
  {
    if n == 0 then start
    else RelocCursor(secs, start, n - 1) + RelocTableSize(secs[n - 1].internal) + RelocTableSize(secs[n - 1].external)
  }

  lemma {:induction false} DataCursorGrows(secs: seq<OutSection>, start: nat, m: nat, n: nat)
    requires m <= n <= |secs| && RoundsSafely(secs, start)
    ensures start <= DataCursor(secs, start, m) <= DataCursor(secs, start, n)
    decreases n
  {
    hide Place, IsPow2;
    if n > 0 && secs[n - 1].data.Some? {
      PlaceIs(DataCursor(secs, start, n - 1), secs[n - 1].align, secs[n - 1].size);
    }
    if m < n {
      DataCursorGrows(secs, start, m, n - 1);
    } else if m > 0 {
      DataCursorGrows(secs, start, m - 1, n - 1);
    }
  }

  lemma {:induction false} RelocCursorGrows(secs: seq<OutSection>, start: nat, m: nat, n: nat)
    requires m <= n <= |secs|
    ensures start <= RelocCursor(secs, start, m) <= RelocCursor(secs, start, n)
    decreases n
  {
    if m < n {
      RelocCursorGrows(secs, start, m, n - 1);
    } else if m > 0 {
      RelocCursorGrows(secs, start, m - 1, n - 1);
    }
  }

  /** Loaded sections are aligned to powers of two, and no cursor leaves the 32-bit range when it is rounded. */
  ghost predicate RoundsSafely(secs: seq<OutSection>, start: nat) {
    forall i :: 0 <= i < |secs| && secs[i].data.Some? ==>
      IsPow2(secs[i].align) && DataCursor(secs, start, i) + secs[i].align + secs[i].size <= 0x1_0000_0000
  }

  /** uso_calc_data_start_alignment */
  method UsoCalcDataStartAlignment(secs: seq<OutSection>) returns (align: U32)
    ensures align == StartAlign(secs)
    ensures if exists i :: 0 <= i < |secs| && secs[i].data.Some? then
              exists i :: 0 <= i < |secs| && secs[i].data.Some? && align == secs[i].align
                          && forall k :: 0 <= k < i ==> secs[k].data == None
            else align == 1
  {
    for i := 0 to |secs|
      invariant StartAlign(secs) == StartAlign(secs[i..])
      invariant forall k :: 0 <= k < i ==> secs[k].data == None
    {
      assert secs[i..][1..] == secs[i + 1..];
      if secs[i].data.Some? {
        return secs[i].align;
      }
    }
    align := 1;
  }

  /** The alignment of the first section with data. */
  function StartAlign(secs: seq<OutSection>): U32 {
    if secs == [] then 1 else if secs[0].data.Some? then secs[0].align else StartAlign(secs[1..])
  }

  lemma PlaceIs(c: nat, align: U32, size: nat)
    requires IsPow2(align) && c + align + size <= 0x1_0000_0000
    ensures align >= 1 && Place(c, align) == RoundUp(c, align)
    ensures c <= Place(c, align) && Place(c, align) + size < 0x1_0000_0000
  {
    hide AlignVal, RoundUp;
    AlignValRounds(c, align);
  }

  /** Alignment 0 sends section data to the very start of the file, where the header will be written. */
  lemma ZeroAlignGoesToStart(secs: seq<OutSection>, table: nat, i: nat)
    requires i < |secs| && secs[i].align == 0
    ensures PartAt(secs, table, i, 0).ofs == 0
  {
    hide AlignVal, DataCursor, DataStart;
    AlignValZero(Trunc32(DataCursor(secs, DataStart(secs, table), i)));
  }

  /** uso_get_reloc_ofs: the same walk as the writer's, so it ends at the writer's last data cursor. */
  method UsoGetRelocOfs(secs: seq<OutSection>, start: U32) returns (ofs: U32)
    requires forall n :: 0 <= n <= |secs| ==> DataCursor(secs, start, n) < 0x1_0000_0000
    ensures ofs == DataCursor(secs, start, |secs|)
  {
    hide AlignVal;
    ofs := start;
    for i := 0 to |secs|
      invariant ofs == DataCursor(secs, start, i)
    {
      assert DataCursor(secs, start, i + 1) < 0x1_0000_0000;
      if secs[i].data.Some? {
        ofs := AlignVal(ofs, secs[i].align);
        ofs := ofs + secs[i].size;
      }
    }
  }

  /** uso_get_align: the largest alignment of a loaded section, at least 4. */
  method UsoGetAlign(secs: seq<OutSection>) returns (align: U32)
    ensures align == MaxAlign(secs, true, 4)
    ensures 4 <= align && forall i :: 0 <= i < |secs| && secs[i].data.Some? ==> secs[i].align <= align
    ensures align == 4 || exists i :: 0 <= i < |secs| && secs[i].data.Some? && secs[i].align == align
  {
    align := 4;
    for i := 0 to |secs|
      invariant 4 <= align && align == MaxAlign(secs[..i], true, 4)
      invariant forall k :: 0 <= k < i && secs[k].data.Some? ==> secs[k].align <= align
      invariant align == 4 || exists k :: 0 <= k < i && secs[k].data.Some? && secs[k].align == align
    {
      assert secs[..i + 1][..i] == secs[..i];
      if secs[i].data.Some? && secs[i].align > align {
        align := secs[i].align;
      }
    }
    assert secs[..|secs|] == secs;
  }

  /** uso_get_noload_align: the largest alignment of a NOLOAD section, at least 1. */
  method UsoGetNoloadAlign(secs: seq<OutSection>) returns (align: U32)
    ensures align == MaxAlign(secs, false, 1)
    ensures 1 <= align && forall i :: 0 <= i < |secs| && secs[i].data == None ==> secs[i].align <= align
    ensures align == 1 || exists i :: 0 <= i < |secs| && secs[i].data == None && secs[i].align == align
  {
    align := 1;
    for i := 0 to |secs|
      invariant 1 <= align && align == MaxAlign(secs[..i], false, 1)
      invariant forall k :: 0 <= k < i && secs[k].data == None ==> secs[k].align <= align
      invariant align == 1 || exists k :: 0 <= k < i && secs[k].data == None && secs[k].align == align
    {
      assert secs[..i + 1][..i] == secs[..i];
      if secs[i].data == None && secs[i].align > align {
        align := secs[i].align;
      }
    }
    assert secs[..|secs|] == secs;
  }

  function MaxAlign(secs: seq<OutSection>, loaded: bool, least: U32): (m: U32)
    ensures least <= m
  {
    if secs == [] then least
    else
      var m, s := MaxAlign(secs[..|secs| - 1], loaded, least), secs[|secs| - 1];
      if s.data.Some? == loaded && s.align > m then s.align else m
  }

  /** uso_get_noload_size: the sizes of the NOLOAD sections, without the padding between them. */
  method UsoGetNoloadSize(secs: seq<OutSection>) returns (size: U32)
    ensures size == Trunc32(SumNoload(secs, |secs|))
  {
    size := 0;
    for i := 0 to |secs|
      invariant size == Trunc32(SumNoload(secs, i))
    {
      if secs[i].data == None {
        TruncCarries(SumNoload(secs, i), secs[i].size);
        size := Trunc32(size + secs[i].size);
      }
    }
  }

  function SumNoload(secs: seq<OutSection>, n: nat): nat
    requires n <= |secs|
  {
    if n == 0 then 0 else SumNoload(secs, n - 1) + if secs[n - 1].data == None then secs[n - 1].size else 0
  }

  // ----- Writing the sections

  /** Where the first section data may go, for a section table at `table`. */
  function DataStart(secs: seq<OutSection>, table: nat): nat {
    Place(table + 20 * |secs|, StartAlign(secs))
  }

  function RelocStart(secs: seq<OutSection>, table: nat): nat {
    RoundUp(DataCursor(secs, DataStart(secs, table), |secs|), 4)
  }

  function InternalOfs(secs: seq<OutSection>, table: nat, i: nat): nat
    requires i < |secs|
  {
    RelocCursor(secs, RelocStart(secs, table), i)
  }

  function ExternalOfs(secs: seq<OutSection>, table: nat, i: nat): nat
    requires i < |secs|
  {
    InternalOfs(secs, table, i) + RelocTableSize(secs[i].internal)
  }

  /** Where the last relocation table ends: the end of the sections' part of the file. */
  function SectionsEnd(secs: seq<OutSection>, table: nat): nat { RelocCursor(secs, RelocStart(secs, table), |secs|) }

  /** Entry i of the section table: offsets from the table, 0 for what is not there. */
  function Entry(secs: seq<OutSection>, table: nat, i: nat): Section
    requires i < |secs|
  {
    var s := secs[i];
    Section(if s.data.Some? then Trunc32(DataOfs(secs, DataStart(secs, table), i) - table) else 0, s.size, s.align,
            TableField(s.internal, InternalOfs(secs, table, i), table),
            TableField(s.external, ExternalOfs(secs, table, i), table))
  }

  /** A relocation table's offset from the section table, 0 when there is none. */
  function TableField(relocs: seq<R.Reloc>, ofs: nat, table: nat): U32 {
    if relocs == [] then 0 else Trunc32(ofs - table)
  }

  /** No cursor leaves the 32-bit range. Alignments may be anything. */
  predicate CursorsFit(secs: seq<OutSection>, table: nat) {
    && SizesMatch(secs)
    && table + 20 * |secs| < 0x1_0000_0000
    && (forall n :: 0 <= n <= |secs| ==> DataCursor(secs, DataStart(secs, table), n) < 0x1_0000_0000)
    && SectionsEnd(secs, table) < 0x1_0000_0000
  }

  /** Alignments are powers of two for sections with data, and everything stays below 4 GiB, rounding included. */
  ghost predicate SectionsFit(secs: seq<OutSection>, table: nat) {
    && SizesMatch(secs)
    && IsPow2(StartAlign(secs)) && table + 20 * |secs| + StartAlign(secs) <= 0x1_0000_0000
    && RoundsSafely(secs, DataStart(secs, table))
    && DataCursor(secs, DataStart(secs, table), |secs|) + 4 <= 0x1_0000_0000
    && SectionsEnd(secs, table) < 0x1_0000_0000
  }

  lemma FitsSoCursorsFit(secs: seq<OutSection>, table: nat)
    requires SectionsFit(secs, table)
    ensures CursorsFit(secs, table)
  {
    hide DataCursor, DataStart, SectionsEnd, StartAlign, RoundsSafely, IsPow2, SizesMatch;
    forall n | 0 <= n <= |secs|
      ensures DataCursor(secs, DataStart(secs, table), n) < 0x1_0000_0000
    {
      DataCursorGrows(secs, DataStart(secs, table), n, |secs|);
    }
    AlignIsPositive(StartAlign(secs));
  }

  lemma AlignIsPositive(a: U32)
    requires IsPow2(a)
    ensures a > 0
  {
  }

  /** The four writes for section i: data, internal and external relocations, table entry. */
  function PartAt(secs: seq<OutSection>, table: nat, i: nat, k: nat): Chunk
    requires i < |secs| && k < 4
  {
    var s := secs[i];
    if k == 0 then Chunk(DataOfs(secs, DataStart(secs, table), i), if s.data.Some? then s.data.value else [])
    else if k == 1 then Chunk(InternalOfs(secs, table, i), RelocTableBytes(s.internal))
    else if k == 2 then Chunk(ExternalOfs(secs, table, i), RelocTableBytes(s.external))
    else Chunk(table + 20 * i, SectionBytes(Entry(secs, table, i)))
  }

  function SectionChunks(secs: seq<OutSection>, table: nat, n: nat): (cs: seq<Chunk>)
    requires n <= |secs|
    ensures |cs| == 4 * n
  {
    seq(4 * n, x requires 0 <= x < 4 * n => PartAt(secs, table, x / 4, x % 4))
  }

  lemma FourMoreChunks(f: seq<Byte>, secs: seq<OutSection>, table: nat, i: nat)
    requires i < |secs|
    ensures Written(f, SectionChunks(secs, table, i + 1)) ==
            Splice(Splice(Splice(Splice(Written(f, SectionChunks(secs, table, i)),
              PartAt(secs, table, i, 0)), PartAt(secs, table, i, 1)), PartAt(secs, table, i, 2)),
              PartAt(secs, table, i, 3))
  {
    hide PartAt, Splice, Written;
    var cs := SectionChunks(secs, table, i);
    var a, b, c, d := PartAt(secs, table, i, 0), PartAt(secs, table, i, 1), PartAt(secs, table, i, 2),
                      PartAt(secs, table, i, 3);
    assert SectionChunks(secs, table, i + 1) == cs + [a] + [b] + [c] + [d];
    WrittenOne(f, cs, a);
    WrittenOne(f, cs + [a], b);
    WrittenOne(f, cs + [a] + [b], c);
    WrittenOne(f, cs + [a] + [b] + [c], d);
  }

  lemma EmptyWrite(f: seq<Byte>, ofs: nat)
    ensures Splice(f, Chunk(ofs, [])) == f
  {
  }

  /** uso_write_sections */
  method UsoWriteSections(file: OutputFile, table: nat, secs: seq<OutSection>, little: bool)
    requires CursorsFit(secs, table)
    modifies file
    ensures file.bytes == Written(old(file.bytes), SectionChunks(secs, table, |secs|))
  {
    hide DataCursor, AlignVal, RelocCursor, StartAlign, PartAt, SizesMatch;
    ghost var f := file.bytes;
    var startAlign := UsoCalcDataStartAlignment(secs);
    var dataOfs: U32 := AlignVal(table + 20 * |secs|, startAlign);
    var relocsOfs := UsoGetRelocOfs(secs, dataOfs);
    RelocsStartAligned(secs, table);
    relocsOfs := AlignVal(relocsOfs, 4);
    CursorsStart(secs, table);
    var data, relocs: nat := dataOfs, relocsOfs;
    for i := 0 to |secs|
      invariant data == DataCursor(secs, DataStart(secs, table), i)
      invariant relocs == RelocCursor(secs, RelocStart(secs, table), i)
      invariant file.bytes == Written(f, SectionChunks(secs, table, i))
    {
      data, relocs := WriteSection(file, table, secs, i, data, relocs, little);
      FourMoreChunks(f, secs, table, i);
    }
  }

  lemma Pow2Four()
    ensures IsPow2(4)
  {
    assert Pow2(2) == 4;
  }

  lemma AlignsToFour(c: nat)
    requires RoundUp(c, 4) < 0x1_0000_0000
    ensures c < 0x1_0000_0000 && AlignVal(c, 4) == RoundUp(c, 4)
  {
    hide AlignVal, RoundUp, IsPow2, MultipleOf;
    RoundUpIs(c, 4, RoundUp(c, 4));
    MultipleIsNoRemainder(RoundUp(c, 4), 4);
    Pow2Four();
    AlignValRounds(c, 4);
  }

  lemma RelocsStartAligned(secs: seq<OutSection>, table: nat)
    requires SectionsEnd(secs, table) < 0x1_0000_0000
    ensures DataCursor(secs, DataStart(secs, table), |secs|) < 0x1_0000_0000
    ensures AlignVal(DataCursor(secs, DataStart(secs, table), |secs|), 4) == RelocStart(secs, table)
  {
    hide AlignVal, RoundUp, DataCursor, DataStart, RelocCursor;
    RelocCursorGrows(secs, RelocStart(secs, table), 0, |secs|);
    AlignsToFour(DataCursor(secs, DataStart(secs, table), |secs|));
    CursorsStart(secs, table);
  }

  lemma CursorsStart(secs: seq<OutSection>, table: nat)
    ensures DataCursor(secs, DataStart(secs, table), 0) == DataStart(secs, table)
    ensures RelocCursor(secs, RelocStart(secs, table), 0) == RelocStart(secs, table)
    ensures SectionChunks(secs, table, 0) == []
  {
  }

  /** The loop body of uso_write_sections (tools/elf2uso.cpp:547-587). */
  method WriteSection(file: OutputFile, table: nat, secs: seq<OutSection>, i: nat, dataOfs: nat, relocsOfs: nat,
                      little: bool)
    returns (dataOfs': nat, relocsOfs': nat)
    requires i < |secs| && dataOfs == DataCursor(secs, DataStart(secs, table), i) < 0x1_0000_0000
    requires relocsOfs == RelocCursor(secs, RelocStart(secs, table), i)
    modifies file
    ensures dataOfs' == DataCursor(secs, DataStart(secs, table), i + 1)
    ensures relocsOfs' == RelocCursor(secs, RelocStart(secs, table), i + 1)
    ensures file.bytes ==
            Splice(Splice(Splice(Splice(old(file.bytes),
              PartAt(secs, table, i, 0)), PartAt(secs, table, i, 1)), PartAt(secs, table, i, 2)),
              PartAt(secs, table, i, 3))
  {
    hide *;
    SectionParts(secs, table, i, relocsOfs);
    ghost var f0 := file.bytes;
    var field, internalOfs, externalOfs: U32;
    field, dataOfs' := WriteData(file, table, secs, i, dataOfs);
    ghost var f1 := file.bytes;
    internalOfs, relocsOfs' := WriteTable(file, table, relocsOfs, secs[i].internal, little);
    ghost var f2 := file.bytes;
    externalOfs, relocsOfs' := WriteTable(file, table, relocsOfs', secs[i].external, little);
    ghost var f3 := file.bytes;
    var section := Section(field, secs[i].size, secs[i].align, internalOfs, externalOfs);
    WriteEntry(file, table + 20 * i, section, little);
    FourSplices(f0, f1, f2, f3, file.bytes, PartAt(secs, table, i, 0), PartAt(secs, table, i, 1),
                PartAt(secs, table, i, 2), PartAt(secs, table, i, 3));
  }

  method WriteEntry(file: OutputFile, ofs: nat, section: Section, little: bool)
    modifies file
    ensures file.bytes == Splice(old(file.bytes), Chunk(ofs, SectionBytes(section)))
  {
    hide *;
    file.Seek(ofs);
    file.Write(SectionOnHost(section, little));
  }

  lemma FourSplices(f0: seq<Byte>, f1: seq<Byte>, f2: seq<Byte>, f3: seq<Byte>, f4: seq<Byte>,
                    a: Chunk, b: Chunk, c: Chunk, d: Chunk)
    requires f1 == Splice(f0, a) && f2 == Splice(f1, b) && f3 == Splice(f2, c) && f4 == Splice(f3, d)
    ensures f4 == Splice(Splice(Splice(Splice(f0, a), b), c), d)
  {
    hide *;
  }

  lemma SectionParts(secs: seq<OutSection>, table: nat, i: nat, relocsOfs: nat)
    requires i < |secs| && relocsOfs == RelocCursor(secs, RelocStart(secs, table), i)
    ensures
      var s := secs[i];
      var externalOfs := relocsOfs + RelocTableSize(s.internal);
      && PartAt(secs, table, i, 1) == Chunk(relocsOfs, RelocTableBytes(s.internal))
      && PartAt(secs, table, i, 2) == Chunk(externalOfs, RelocTableBytes(s.external))
      && PartAt(secs, table, i, 3) == Chunk(table + 20 * i, SectionBytes(Entry(secs, table, i)))
      && Entry(secs, table, i) == Section(Entry(secs, table, i).data, s.size, s.align,
           TableField(s.internal, relocsOfs, table), TableField(s.external, externalOfs, table))
      && RelocCursor(secs, RelocStart(secs, table), i + 1) == externalOfs + RelocTableSize(s.external)
  {
    hide AlignVal, DataCursor, StartAlign;
  }

  /** The data of section i, when it has any: its offset in the entry, and the next data cursor. */
  method WriteData(file: OutputFile, table: nat, secs: seq<OutSection>, i: nat, dataOfs: nat)
    returns (field: U32, next: nat)
    requires i < |secs| && dataOfs == DataCursor(secs, DataStart(secs, table), i) < 0x1_0000_0000
    modifies file
    ensures field == Entry(secs, table, i).data
    ensures next == DataCursor(secs, DataStart(secs, table), i + 1)
    ensures file.bytes == Splice(old(file.bytes), PartAt(secs, table, i, 0))
  {
    hide AlignVal, StartAlign, Splice, RelocTableBytes, DataStart, RelocCursor;
    var s := secs[i];
    field, next := 0, dataOfs;
    if s.data.Some? {
      next := AlignVal(dataOfs, s.align);
      field := Trunc32(next - table);
      file.Seek(next);
      file.Write(s.data.value);
      next := next + s.size;
    } else {
      EmptyWrite(file.bytes, DataOfs(secs, DataStart(secs, table), i));
    }
  }

  /** One relocation table, when there is any: its offset in the entry, and where the next one goes. */
  method WriteTable(file: OutputFile, table: nat, ofs: nat, relocs: seq<R.Reloc>, little: bool)
    returns (field: U32, next: nat)
    modifies file
    ensures field == TableField(relocs, ofs, table)
    ensures next == ofs + RelocTableSize(relocs)
    ensures file.bytes == Splice(old(file.bytes), Chunk(ofs, RelocTableBytes(relocs)))
  {
    field, next := 0, ofs;
    if |relocs| > 0 {
      hide Splice, RelocTableBytes;
      field := Trunc32(ofs - table);
      UsoWriteRelocations(file, ofs, relocs, little);
      next := ofs + 4 + 12 * |relocs|;
    }
  }

  function SectionOnHost(s: Section, little: bool): (b: seq<Byte>)
    ensures b == SectionBytes(s)
  {
    FiveWords(s.data, s.size, s.align, s.internalRelocs, s.externalRelocs);
    Stored32(little, s.data) + Stored32(little, s.size) + Stored32(little, s.align)
    + Stored32(little, s.internalRelocs) + Stored32(little, s.externalRelocs)
  }

  // ----- The writes do not overlap

  /** The loops agree: data ends before relocations start, and the table ends before data starts. */
  lemma Regions(secs: seq<OutSection>, table: nat)
    requires SectionsFit(secs, table)
    ensures table + 20 * |secs| <= DataStart(secs, table)
    ensures DataStart(secs, table) <= DataCursor(secs, DataStart(secs, table), |secs|) <= RelocStart(secs, table)
    ensures RelocStart(secs, table) <= SectionsEnd(secs, table)
  {
    hide DataCursor, RelocCursor, StartAlign, Place, RoundUp, RoundsSafely, IsPow2, SizesMatch;
    PlaceIs(table + 20 * |secs|, StartAlign(secs), 0);
    DataCursorGrows(secs, DataStart(secs, table), 0, |secs|);
    RelocCursorGrows(secs, RelocStart(secs, table), 0, |secs|);
  }

  lemma DataPlace(secs: seq<OutSection>, table: nat, i: nat)
    requires SectionsFit(secs, table) && i < |secs| && secs[i].data.Some?
    ensures var d := DataStart(secs, table);
            && DataCursor(secs, d, i) <= DataOfs(secs, d, i)
            && DataOfs(secs, d, i) + secs[i].size == DataCursor(secs, d, i + 1)
  {
    hide Place, IsPow2, DataStart, SizesMatch, SectionsEnd;
    PlaceIs(DataCursor(secs, DataStart(secs, table), i), secs[i].align, secs[i].size);
  }

  lemma CursorGrows(secs: seq<OutSection>, table: nat, m: nat, n: nat)
    requires SectionsFit(secs, table) && m <= n <= |secs|
    ensures var d := DataStart(secs, table); d <= DataCursor(secs, d, m) <= DataCursor(secs, d, n)
  {
    hide DataCursor, DataStart, RoundsSafely, IsPow2, SizesMatch, SectionsEnd, StartAlign;
    DataCursorGrows(secs, DataStart(secs, table), m, n);
  }

  /** Where each write of section i lies, relative to the cursors before and after the section. */
  lemma PartPlace(secs: seq<OutSection>, table: nat, i: nat, k: nat)
    requires SectionsFit(secs, table) && i < |secs| && k < 4
    ensures
      var c := PartAt(secs, table, i, k);
      var d, r := DataStart(secs, table), RelocStart(secs, table);
      && (k == 0 && c.bytes != [] ==> DataCursor(secs, d, i) <= c.ofs && c.End() == DataCursor(secs, d, i + 1))
      && (k == 1 ==> c.ofs == RelocCursor(secs, r, i) && c.End() == ExternalOfs(secs, table, i))
      && (k == 2 ==> c.ofs == ExternalOfs(secs, table, i) && c.End() == RelocCursor(secs, r, i + 1))
      && (k == 3 ==> c.ofs == table + 20 * i && c.End() == c.ofs + 20)
      && RelocCursor(secs, r, i) <= ExternalOfs(secs, table, i) <= RelocCursor(secs, r, i + 1)
  {
    hide DataStart, RelocStart, SectionBytes, RelocTableBytes, DataCursor, Place, RoundsSafely, SectionsEnd;
    if secs[i].data.Some? {
      DataPlace(secs, table, i);
    }
  }

  /** The write stays inside its region: table, data or relocations. */
  lemma PartRegion(secs: seq<OutSection>, table: nat, i: nat, k: nat)
    requires SectionsFit(secs, table) && i < |secs| && k < 4 && PartAt(secs, table, i, k).bytes != []
    ensures
      var c := PartAt(secs, table, i, k);
      && (k == 0 ==> DataStart(secs, table) <= c.ofs && c.End() <= RelocStart(secs, table))
      && (k == 1 || k == 2 ==> RelocStart(secs, table) <= c.ofs && c.End() <= SectionsEnd(secs, table))
      && (k == 3 ==> table <= c.ofs && c.End() <= DataStart(secs, table))
      && table <= c.ofs && c.End() <= SectionsEnd(secs, table)
  {
    hide DataStart, RelocStart, PartAt, DataCursor, RelocCursor, SectionsFit;
    var d, r := DataStart(secs, table), RelocStart(secs, table);
    Regions(secs, table);
    PartPlace(secs, table, i, k);
    CursorGrows(secs, table, i, i + 1);
    CursorGrows(secs, table, i + 1, |secs|);
    RelocCursorGrows(secs, r, i, i + 1);
    RelocCursorGrows(secs, r, i + 1, |secs|);
  }

  lemma PartsApart(secs: seq<OutSection>, table: nat, i: nat, k: nat, j: nat, l: nat)
    requires SectionsFit(secs, table) && i < |secs| && k < 4 && j < |secs| && l < 4
    requires i < j || (i == j && k < l)
    ensures Apart(PartAt(secs, table, i, k), PartAt(secs, table, j, l))
  {
    hide DataStart, RelocStart, PartAt, DataCursor, RelocCursor, SectionsFit, SectionsEnd;
    if PartAt(secs, table, i, k).bytes != [] && PartAt(secs, table, j, l).bytes != [] {
      Regions(secs, table);
      PartRegion(secs, table, i, k);
      PartRegion(secs, table, j, l);
      PartPlace(secs, table, i, k);
      PartPlace(secs, table, j, l);
      if i < j {
        CursorGrows(secs, table, i + 1, j);
        RelocCursorGrows(secs, RelocStart(secs, table), i + 1, j);
      }
    }
  }

  /** All of it together: disjoint writes between the table and the end of the relocations. */
  lemma SectionsLayout(secs: seq<OutSection>, table: nat)
    requires SectionsFit(secs, table)
    ensures AllApart(SectionChunks(secs, table, |secs|))
    ensures Within(SectionChunks(secs, table, |secs|), table, SectionsEnd(secs, table))
  {
    hide PartAt, Apart, SectionsFit, SectionsEnd;
    var cs := SectionChunks(secs, table, |secs|);
    forall x, y | 0 <= x < y < |cs|
      ensures Apart(cs[x], cs[y])
    {
      PartsApart(secs, table, x / 4, x % 4, y / 4, y % 4);
    }
    forall x | 0 <= x < |cs| && cs[x].bytes != []
      ensures table <= cs[x].ofs && cs[x].End() <= SectionsEnd(secs, table)
    {
      PartRegion(secs, table, x / 4, x % 4);
    }
  }
}
