/**
 Turning the offsets of a freshly read USO into pointers, and placing its NOLOAD sections
 (src/uso.c:28-65, 152-189).
 */
module Fixups {
  import opened Words
  import opened Alignment
  import opened Symbols

  /** uso_section_t. In the file data is 0 for a NOLOAD section; at run time every field is a pointer. */
  datatype Section = Section(data: U32, size: U32, align: U32, internalRelocs: U32, externalRelocs: U32)

  /** uso_load_info_t */
  datatype LoadInfo = LoadInfo(usoSize: U32, usoAlign: U32, noloadSize: U32, noloadAlign: U32)

  /** get_uso_noload_start_ofs */
  function NoloadStartOfs(info: LoadInfo): nat { AlignVal(info.usoSize, info.noloadAlign) }

  /** get_uso_ram_size */
  function RamSize(info: LoadInfo): U32 { Trunc32(NoloadStartOfs(info) + info.noloadSize) }

  /** get_uso_ram_align */
  function RamAlign(info: LoadInfo): U32 {
    if info.usoAlign > info.noloadAlign then info.usoAlign else info.noloadAlign
  }

  // ----- The section table

  /** Where a NOLOAD section goes when the cursor is at p; alignment 0 leaves the cursor alone. */
  function Placed(p: U32, align: U32): U32 { if align > 0 then Trunc32(AlignVal(p, align)) else p }

  /** The NOLOAD cursor after sections 1 to n - 1. */
  function NoloadCursor(sections: seq<Section>, base: U32, n: nat): U32
    requires n <= |sections|
  {
    if n <= 1 then base
    else
      var p, s := NoloadCursor(sections, base, n - 1), sections[n - 1];
      if s.data != 0 then p else Trunc32(Placed(p, s.align) + s.size)
  }

  /** PTR_FIXUP of a pointer field that may be NULL. */
  function FixedUp(ptr: U32, base: U32): U32 { if ptr == 0 then 0 else Trunc32(base + ptr) }

  /** What the loader leaves in entry i. */
  function FixedSection(sections: seq<Section>, table: U32, noloadBase: U32, i: nat): Section
    requires i < |sections|
  {
    var s := sections[i];
    if i == 0 then s.(data := 0)
    else if s.data != 0 then
      s.(data := Trunc32(table + s.data), internalRelocs := FixedUp(s.internalRelocs, table),
         externalRelocs := FixedUp(s.externalRelocs, table))
    else s.(data := Placed(NoloadCursor(sections, noloadBase, i), s.align))
  }

  /** fixup_section_table: `table` is the address of the section table itself. */
  method FixupSectionTable(sections: array<Section>, table: U32, noloadBase: U32)
    requires 1 <= sections.Length
    modifies sections
    ensures forall i :: 0 <= i < sections.Length ==>
              sections[i] == FixedSection(old(sections[..]), table, noloadBase, i)
  {
    hide AlignVal, Trunc32;
    ghost var was := sections[..];
    var noload := noloadBase;
    for i := 1 to sections.Length
      invariant noload == NoloadCursor(was, noloadBase, i)
      invariant forall k :: 1 <= k < i ==> sections[k] == FixedSection(was, table, noloadBase, k)
      invariant forall k :: i <= k < sections.Length ==> sections[k] == was[k]
      invariant sections[0] == was[0]
    {
      var s := sections[i];
      if s.data != 0 {
        s := s.(data := Trunc32(table + s.data));
        if s.internalRelocs != 0 {
          s := s.(internalRelocs := Trunc32(table + s.internalRelocs));
        }
        if s.externalRelocs != 0 {
          s := s.(externalRelocs := Trunc32(table + s.externalRelocs));
        }
      } else {
        if s.align > 0 {
          noload := Trunc32(AlignVal(noload, s.align));
        }
        s := s.(data := noload);
        noload := Trunc32(noload + s.size);
      }
      sections[i] := s;
    }
    sections[0] := sections[0].(data := 0);
  }

  // ----- NOLOAD placement

  predicate IsNoload(s: Section) { s.data == 0 }

  /** Alignments as ELF has them: absent, or a power of two no larger than the recorded maximum. */
  ghost predicate AlignsUpTo(sections: seq<Section>, max: U32) {
    1 <= max && IsPow2(max) && forall i :: 0 <= i < |sections| && IsNoload(sections[i]) && sections[i].align > 0 ==>
                     IsPow2(sections[i].align) && sections[i].align <= max
  }

  function PlacedOfs(o: nat, align: U32): nat { if align > 0 then RoundUp(o, align) else o }

  /** Distance from the NOLOAD start to the cursor, without any wrap-around. */
  function NoloadOfs(sections: seq<Section>, n: nat): nat
    requires n <= |sections|
  {
    if n <= 1 then 0
    else
      var o, s := NoloadOfs(sections, n - 1), sections[n - 1];
      if IsNoload(s) then PlacedOfs(o, s.align) + s.size else o
  }

  /** The sizes alone, which is what uso_get_noload_size adds up. */
  function NoloadSizes(sections: seq<Section>, n: nat): nat
    requires n <= |sections|
  {
    if n <= 1 then 0
    else NoloadSizes(sections, n - 1) + if IsNoload(sections[n - 1]) then sections[n - 1].size else 0
  }

  lemma {:induction false} OffsetsGrow(sections: seq<Section>, m: nat, n: nat)
    requires m <= n <= |sections|
    ensures NoloadOfs(sections, m) <= NoloadOfs(sections, n)
    decreases n
  {
    if m < n {
      OffsetsGrow(sections, m, n - 1);
    }
  }

  /** The block that holds the NOLOAD sections is aligned for all of them and does not wrap. */
  ghost predicate RoomFor(sections: seq<Section>, base: U32, max: U32) {
    && AlignsUpTo(sections, max)
    && MultipleOf(base, max)
    && base + NoloadOfs(sections, |sections|) + max <= 0x1_0000_0000
  }

  lemma {:induction false} CursorIsOffset(sections: seq<Section>, base: U32, max: U32, n: nat)
    requires RoomFor(sections, base, max) && n <= |sections|
    ensures NoloadCursor(sections, base, n) == base + NoloadOfs(sections, n)
  {
    hide IsPow2, MultipleOf, Placed, PlacedOfs;
    OffsetsGrow(sections, n, |sections|);
    if n > 1 {
      CursorIsOffset(sections, base, max, n - 1);
      if IsNoload(sections[n - 1]) {
        PlacedAtOffset(sections, base, max, n - 1);
      }
    }
  }

  lemma PlacedAtOffset(sections: seq<Section>, base: U32, max: U32, i: nat)
    requires RoomFor(sections, base, max) && i < |sections| && IsNoload(sections[i])
    ensures var o := NoloadOfs(sections, i);
            && base + o + max <= 0x1_0000_0000
            && Placed(base + o, sections[i].align) == base + PlacedOfs(o, sections[i].align)
  {
    hide NoloadOfs, IsPow2, MultipleOf, Placed, PlacedOfs;
    OffsetsGrow(sections, i, |sections|);
    PlacedFromBase(base, NoloadOfs(sections, i), sections[i].align, max);
  }

  lemma PlacedFromBase(base: U32, o: nat, a: U32, max: U32)
    requires 1 <= max && IsPow2(max) && MultipleOf(base, max) && base + o + max <= 0x1_0000_0000
    requires a > 0 ==> IsPow2(a) && a <= max
    ensures Placed(base + o, a) == base + PlacedOfs(o, a)
    ensures a > 0 ==> MultipleOf(base + PlacedOfs(o, a), a)
  {
    hide RoundUp, AlignVal, IsPow2, MultipleOf;
    if a > 0 {
      AlignValFromBase(base, o, a, max);
    }
  }

  /** The address of a NOLOAD section at run time. */
  function NoloadAddr(sections: seq<Section>, table: U32, base: U32, i: nat): U32
    requires i < |sections|
  {
    FixedSection(sections, table, base, i).data
  }

  /** NOLOAD sections are aligned, in order, and share no byte. */
  lemma NoloadPlacement(sections: seq<Section>, table: U32, base: U32, max: U32, i: nat, j: nat)
    requires RoomFor(sections, base, max)
    requires 1 <= i < j < |sections| && IsNoload(sections[i]) && IsNoload(sections[j])
    ensures base <= NoloadAddr(sections, table, base, i)
    ensures NoloadAddr(sections, table, base, i) + sections[i].size <= NoloadAddr(sections, table, base, j)
    ensures NoloadAddr(sections, table, base, j) + sections[j].size <= base + NoloadOfs(sections, |sections|)
    ensures sections[i].align > 0 ==> MultipleOf(NoloadAddr(sections, table, base, i), sections[i].align)
    ensures sections[j].align > 0 ==> MultipleOf(NoloadAddr(sections, table, base, j), sections[j].align)
  {
    NoloadAt(sections, table, base, max, i);
    NoloadAt(sections, table, base, max, j);
    OffsetsGrow(sections, i + 1, j);
    OffsetsGrow(sections, j + 1, |sections|);
  }

  lemma NoloadAt(sections: seq<Section>, table: U32, base: U32, max: U32, i: nat)
    requires RoomFor(sections, base, max) && 1 <= i < |sections| && IsNoload(sections[i])
    ensures NoloadAddr(sections, table, base, i) == base + PlacedOfs(NoloadOfs(sections, i), sections[i].align)
    ensures sections[i].align > 0 ==> MultipleOf(NoloadAddr(sections, table, base, i), sections[i].align)
  {
    hide NoloadOfs, IsPow2, MultipleOf, Placed, PlacedOfs;
    CursorIsOffset(sections, base, max, i);
    PlacedAtOffset(sections, base, max, i);
    PlacedFromBase(base, NoloadOfs(sections, i), sections[i].align, max);
  }

  /** Every NOLOAD section starts where the sizes before it end: nothing is lost to padding. */
  predicate NoPadding(sections: seq<Section>, n: nat)
    requires n <= |sections|
  {
    forall i :: 1 <= i < n && IsNoload(sections[i]) && sections[i].align > 0 ==>
      MultipleOf(NoloadSizes(sections, i), sections[i].align)
  }

  /**
   The sections take at least the sum of their sizes, which is all that noload_size records; they take
   exactly that, and so fit the allocated block, if and only if no section needs padding.
   */
  lemma {:induction false} ExtentIsSumOfSizes(sections: seq<Section>, n: nat)
    requires n <= |sections|
    ensures NoloadSizes(sections, n) <= NoloadOfs(sections, n)
    ensures NoloadOfs(sections, n) == NoloadSizes(sections, n) <==> NoPadding(sections, n)
  {
    hide MultipleOf, RoundUp;
    if n > 1 {
      ExtentIsSumOfSizes(sections, n - 1);
      var last, o := sections[n - 1], NoloadSizes(sections, n - 1);
      if last.align > 0 {
        RoundUpIs(o, last.align, o);
      }
      assert NoPadding(sections, n) ==
        (NoPadding(sections, n - 1) && (IsNoload(last) && last.align > 0 ==> MultipleOf(o, last.align)));
    }
  }

  /** The memory the loader allocates for a USO covers its NOLOAD sections iff none needs padding. */
  lemma NoloadFitsBlock(sections: seq<Section>, info: LoadInfo, usoBase: U32)
    requires info.noloadSize == NoloadSizes(sections, |sections|)
    requires NoloadStartOfs(info) + info.noloadSize < 0x1_0000_0000
    ensures usoBase + NoloadStartOfs(info) + NoloadOfs(sections, |sections|) <= usoBase + RamSize(info)
            <==> NoPadding(sections, |sections|)
  {
    hide AlignVal, NoPadding, NoloadOfs, NoloadSizes;
    ExtentIsSumOfSizes(sections, |sections|);
  }

  // ----- Export symbols

  /** Exports point into their section; section 0 stands for absolute addresses. */
  function ExportsFixed(t: SymbolTable, sections: seq<Section>): (r: SymbolTable)
    requires forall i :: 0 <= i < |t| ==> t[i].section < |sections|
    ensures |r| == |t|
  {
    seq(|t|, i requires 0 <= i < |t| => t[i].(ptr := Trunc32(sections[t[i].section].data + t[i].ptr)))
  }

  /** fixup_export_syms: adds the section address to every export, in place. */
  method FixupExportSyms(symTable: array<Symbol>, sections: array<Section>)
    requires forall i :: 0 <= i < symTable.Length ==> symTable[i].section < sections.Length
    modifies symTable
    ensures symTable[..] == ExportsFixed(old(symTable[..]), sections[..])
    ensures forall i :: 0 <= i < symTable.Length ==>
              var s := old(symTable[i]);
              symTable[i] == Symbol(s.name, (sections[s.section].data + s.ptr) % 0x1_0000_0000, s.section, s.nameLen)
  {
    ghost var was := symTable[..];
    for i := 0 to symTable.Length
      invariant forall k :: 0 <= k < i ==>
                  symTable[k] == was[k].(ptr := Trunc32(sections[was[k].section].data + was[k].ptr))
      invariant forall k :: i <= k < symTable.Length ==> symTable[k] == was[k]
    {
      symTable[i] := symTable[i].(ptr := Trunc32(sections[symTable[i].section].data + symTable[i].ptr));
    }
  }

  // ----- A USO file as the loader reads it

  /** The structures of a USO in RAM before any fixup. */
  datatype UsoImage = UsoImage(info: LoadInfo, sectionsOfs: U32, sections: seq<Section>,
                               imports: Option<SymbolTable>, exports: Option<SymbolTable>)
  {
    predicate WellFormed() {
      && 1 <= |sections|
      && (imports.Some? ==> Sorted(imports.value))
      && (exports.Some? ==> Sorted(exports.value))
      && (exports.Some? ==> forall i :: 0 <= i < |exports.value| ==> exports.value[i].section < |sections|)
    }

    /** Where the section table and the NOLOAD sections are when the USO is at `base`. */
    function TableAddr(base: U32): U32 { Trunc32(base + sectionsOfs) }
    function NoloadBase(base: U32): U32 { Trunc32(base as int + NoloadStartOfs(info)) }
  }

  function FixedTable(image: UsoImage, base: U32): (r: seq<Section>)
    ensures |r| == |image.sections|
  {
    seq(|image.sections|, i requires 0 <= i < |image.sections| =>
      FixedSection(image.sections, image.TableAddr(base), image.NoloadBase(base), i))
  }

  /** The export table once the USO sits at `base`. */
  function ExportsAt(image: UsoImage, base: U32): Option<SymbolTable>
    requires image.WellFormed()
  {
    if image.exports == None then None else Some(ExportsFixed(image.exports.value, FixedTable(image, base)))
  }
}
