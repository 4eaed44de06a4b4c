/** Choosing the sections of a USO: section_collect of tools/elf2uso.cpp (lines 99-109, 248-282). */
module SectionCollect {
  import opened Words
  import opened CStrings
  import opened ElfInput
  import opened SymCollect
  import W = SectionWriter

  /** A section of the ELF file: SHF_ALLOC, SHT_NOBITS, and the data the ELF reader has for it. */
  datatype ElfSection = ElfSection(name: Name, alloc: bool, nobits: bool, size: U32, align: U32,
                                   data: Option<seq<Byte>>)

  /** An output section before its relocations are built, with the ELF section that holds them, 0 for none. */
  datatype OutputSection = OutputSection(relocs: U16, section: W.OutSection)

  const REL_PREFIX: Name := Ascii(".rel")

  const DUMMY := OutputSection(0, W.ABSOLUTE)

  /** The first section of that name, section 0 aside; 0 when there is none. */
  predicate FirstNamed(sections: seq<ElfSection>, name: Name, index: nat) {
    && (index == 0 || (index < |sections| && sections[index].name == name))
    && (forall k :: 1 <= k < |sections| && (index == 0 || k < index) ==> sections[k].name != name)
  }

  lemma FirstNamedIsUnique(sections: seq<ElfSection>, name: Name, i: nat, j: nat)
    requires FirstNamed(sections, name, i) && FirstNamed(sections, name, j)
    ensures i == j
  {
    if i != 0 && j != 0 {
      assert sections[i].name == sections[j].name == name;
    }
  }

  /** elf_find_section */
  method ElfFindSection(sections: seq<ElfSection>, name: Name) returns (index: U16)
    requires |sections| < 0x1_0000
    ensures FirstNamed(sections, name, index)
  {
    var i := 1;
    while i < |sections|
      invariant forall k :: 1 <= k < i && k < |sections| ==> sections[k].name != name
      invariant 1 <= i
    {
      if sections[i].name == name {
        return i;
      }
      i := i + 1;
    }
    index := 0;
  }

  /** What section i contributes: NOBITS sections have neither data nor relocations. */
  predicate Describes(sections: seq<ElfSection>, i: nat, c: OutputSection)
    requires i < |sections|
  {
    var s := sections[i];
    && c.section == W.OutSection(if s.nobits then None else s.data, s.size, s.align, [], [])
    && if s.nobits then c.relocs == 0 else FirstNamed(sections, REL_PREFIX + s.name, c.relocs)
  }

  ghost predicate Hit(secMap: SectionMap, p: int) {
    exists i :: i in secMap && secMap[i] == p
  }

  /** The sections below n that are loaded, in order, behind the absolute section, and where the map sends them. */
  ghost predicate Maps(sections: seq<ElfSection>, n: nat, secMap: SectionMap, out: seq<OutputSection>)
    requires n <= |sections|
  {
    && out != [] && out[0] == DUMMY && SHN_UNDEF in secMap && secMap[SHN_UNDEF] == 0
    && (forall i :: i in secMap <==> i == SHN_UNDEF || (1 <= i < n && sections[i].alloc))
    && (forall i :: i in secMap && i != SHN_UNDEF ==>
          1 <= secMap[i] < |out| && Describes(sections, i, out[secMap[i]]))
    && (forall i, j :: i in secMap && j in secMap && i < j ==> secMap[i] < secMap[j])
    && (forall p :: 0 <= p < |out| ==> Hit(secMap, p))
  }

  /** section_collect */
  method CollectSections(sections: seq<ElfSection>) returns (secMap: SectionMap, out: seq<OutputSection>)
    requires 1 <= |sections| < 0x1_0000
    ensures Maps(sections, |sections|, secMap, out)
  {
    hide *;
    secMap, out := map[SHN_UNDEF := 0], [DUMMY];
    NothingMapped(sections);
    for i := 1 to |sections|
      invariant |out| <= i && Maps(sections, i, secMap, out)
    {
      var s := sections[i];
      if s.alloc {
        var c: OutputSection;
        if s.nobits {
          c := OutputSection(0, W.OutSection(None, s.size, s.align, [], []));
        } else {
          var relocs := ElfFindSection(sections, REL_PREFIX + s.name);
          c := OutputSection(relocs, W.OutSection(s.data, s.size, s.align, [], []));
        }
        DescribesIs(sections, i, c);
        MapsOneMore(sections, i, secMap, out, c);
        secMap := secMap[i := |out|];
        out := out + [c];
      } else {
        MapsNext(sections, i, secMap, out);
      }
    }
  }

  lemma NothingMapped(sections: seq<ElfSection>)
    requires 1 <= |sections|
    ensures Maps(sections, 1, map[SHN_UNDEF := 0], [DUMMY])
  {
    var m: SectionMap := map[SHN_UNDEF := 0];
    assert m[SHN_UNDEF] == 0 && Hit(m, 0);
  }

  lemma MapsNext(sections: seq<ElfSection>, i: nat, secMap: SectionMap, out: seq<OutputSection>)
    requires 1 <= i < |sections| && Maps(sections, i, secMap, out) && !sections[i].alloc
    ensures Maps(sections, i + 1, secMap, out)
  {
    hide Describes;
  }

  lemma DescribesIs(sections: seq<ElfSection>, i: nat, c: OutputSection)
    requires i < |sections|
    requires var s := sections[i];
             && c.section == W.OutSection(if s.nobits then None else s.data, s.size, s.align, [], [])
             && if s.nobits then c.relocs == 0 else FirstNamed(sections, REL_PREFIX + s.name, c.relocs)
    ensures Describes(sections, i, c)
  {
  }

  lemma MapsOneMore(sections: seq<ElfSection>, i: U16, secMap: SectionMap, out: seq<OutputSection>, c: OutputSection)
    requires 1 <= i < |sections| && Maps(sections, i, secMap, out) && sections[i].alloc && Describes(sections, i, c)
    requires |out| < 0x1_0000
    ensures Maps(sections, i + 1, secMap[i := |out|], out + [c])
  {
    hide Describes;
    var m: SectionMap, o := secMap[i := |out|], out + [c];
    forall p | 0 <= p < |o|
      ensures Hit(m, p)
    {
      if p == |out| {
        assert m[i] == p;
      } else {
        assert Hit(secMap, p);
        var k :| k in secMap && secMap[k] == p;
        assert m[k] == p;
      }
    }
  }

  /** Every loaded section has its own output section, no output section is left over, and all others fall back to 0. */
  lemma MapIsExact(sections: seq<ElfSection>, secMap: SectionMap, out: seq<OutputSection>, i: U16, j: U16)
    requires Maps(sections, |sections|, secMap, out) && 1 <= i < |sections| && 1 <= j < |sections|
    ensures OutputIndex(secMap, i) < |out|
    ensures OutputIndex(secMap, i) != 0 <==> sections[i].alloc
    ensures sections[i].alloc && sections[j].alloc && i != j ==> OutputIndex(secMap, i) != OutputIndex(secMap, j)
    ensures sections[i].alloc ==> Describes(sections, i, out[OutputIndex(secMap, i)])
  {
    hide Describes;
  }
}
