/**
 From ELF relocations to the two tables of a USO section (reloc_build of tools/elf2uso.cpp), and what the
 loader finally makes of them.
 */
module RelocBuild {
  import opened Words
  import opened MipsAbi
  import opened Relocs
  import opened ElfInput
  import opened SymCollect

  /** Symbols and maps the tool works with. */
  datatype Context = Context(symbols: seq<ElfSymbol>, secMap: SectionMap, importMap: map<nat, nat>)

  /** Whether the relocation refers to an undefined symbol. */
  predicate IsExternal(r: ElfReloc, ctx: Context)
    requires r.symbol < |ctx.symbols|
  {
    ctx.symbols[r.symbol].section == SHN_UNDEF
  }

  predicate SymbolsExist(relocs: seq<ElfReloc>, ctx: Context) {
    forall k :: 0 <= k < |relocs| ==> relocs[k].symbol < |ctx.symbols|
  }

  /** (type << 26) | (index & 0x3FFFFFF) */
  function Info(kind: Byte, index: nat): U32 { 0x400_0000 * (kind % 64) + index % 0x400_0000 }

  /** A map lookup that yields 0 for a missing key, as operator[] does. */
  function ImportIndex(ctx: Context, y: nat): nat { if y in ctx.importMap then ctx.importMap[y] else 0 }

  function Packed(r: ElfReloc, ctx: Context): Reloc
    requires r.symbol < |ctx.symbols|
  {
    var s := ctx.symbols[r.symbol];
    if IsExternal(r, ctx) then Reloc(r.offset, Info(r.kind, ImportIndex(ctx, r.symbol)), 0)
    else Reloc(r.offset, Info(r.kind, OutputIndex(ctx.secMap, s.section)), s.value)
  }

  /** Which of the first n relocations go to the external (or internal) table, in order. */
  function Chosen(relocs: seq<ElfReloc>, ctx: Context, external: bool, n: nat): (ks: seq<nat>)
    requires SymbolsExist(relocs, ctx) && n <= |relocs|
    ensures forall p :: 0 <= p < |ks| ==> ks[p] < n && IsExternal(relocs[ks[p]], ctx) == external
    ensures forall p, q :: 0 <= p < q < |ks| ==> ks[p] < ks[q]
  {
    if n == 0 then []
    else Chosen(relocs, ctx, external, n - 1) + if IsExternal(relocs[n - 1], ctx) == external then [n - 1] else []
  }

  function Table(relocs: seq<ElfReloc>, ctx: Context, external: bool, n: nat): (t: seq<Reloc>)
    requires SymbolsExist(relocs, ctx) && n <= |relocs|
    ensures |t| == |Chosen(relocs, ctx, external, n)|
  {
    var ks := Chosen(relocs, ctx, external, n);
    seq(|ks|, p requires 0 <= p < |ks| => Packed(relocs[ks[p]], ctx))
  }

  /** reloc_build for one section: an order-preserving split. */
  method RelocBuild(relocs: seq<ElfReloc>, ctx: Context) returns (internal: seq<Reloc>, external: seq<Reloc>)
    requires SymbolsExist(relocs, ctx)
    ensures internal == Table(relocs, ctx, false, |relocs|)
    ensures external == Table(relocs, ctx, true, |relocs|)
  {
    hide Chosen, Table, OutputIndex, ImportIndex;
    NothingBuilt(relocs, ctx);
    internal, external := [], [];
    for j := 0 to |relocs|
      invariant internal == Table(relocs, ctx, false, j)
      invariant external == Table(relocs, ctx, true, j)
    {
      TableGrows(relocs, ctx, false, j);
      TableGrows(relocs, ctx, true, j);
      var r := relocs[j];
      var info: U32 := 0x400_0000 * (r.kind % 64);
      var s := ctx.symbols[r.symbol];
      if s.section == SHN_UNDEF {
        info := info + ImportIndex(ctx, r.symbol) % 0x400_0000;
        external := external + [Reloc(r.offset, info, 0)];
      } else {
        info := info + OutputIndex(ctx.secMap, s.section) % 0x400_0000;
        internal := internal + [Reloc(r.offset, info, s.value)];
      }
    }
  }

  lemma NothingBuilt(relocs: seq<ElfReloc>, ctx: Context)
    requires SymbolsExist(relocs, ctx)
    ensures Table(relocs, ctx, false, 0) == [] && Table(relocs, ctx, true, 0) == []
  {
  }

  lemma TableGrows(relocs: seq<ElfReloc>, ctx: Context, external: bool, j: nat)
    requires SymbolsExist(relocs, ctx) && j < |relocs|
    ensures Table(relocs, ctx, external, j + 1) ==
            Table(relocs, ctx, external, j) +
            if IsExternal(relocs[j], ctx) == external then [Packed(relocs[j], ctx)] else []
  {
    hide Packed;
  }

  /** Where relocation k ends up in its table. */
  function Rank(relocs: seq<ElfReloc>, ctx: Context, external: bool, k: nat): nat
    requires SymbolsExist(relocs, ctx) && k <= |relocs|
  {
    |Chosen(relocs, ctx, external, k)|
  }

  lemma {:induction false} ChosenAtRank(relocs: seq<ElfReloc>, ctx: Context, external: bool, k: nat, n: nat)
    requires SymbolsExist(relocs, ctx) && k < n <= |relocs| && IsExternal(relocs[k], ctx) == external
    ensures Rank(relocs, ctx, external, k) < |Chosen(relocs, ctx, external, n)|
    ensures Chosen(relocs, ctx, external, n)[Rank(relocs, ctx, external, k)] == k
    decreases n
  {
    if k < n - 1 {
      ChosenAtRank(relocs, ctx, external, k, n - 1);
      var ks := Chosen(relocs, ctx, external, n - 1);
      assert Chosen(relocs, ctx, external, n)[..|ks|] == ks;
    }
  }

  lemma Unpacked(kind: Byte, index: nat)
    requires kind < 64 && index < 0x400_0000
    ensures Info(kind, index) / 0x400_0000 == kind && Info(kind, index) % 0x400_0000 == index
  {
  }

  // ----- What the program ends up with

  /** Every symbol index fits the table it is packed into, and undefined symbols were imported. */
  ghost predicate GoodInput(relocs: seq<ElfReloc>, ctx: Context, imports: seq<SymbolInfo>, scope: Scope, size: nat) {
    && SymbolsExist(relocs, ctx)
    && MapsImports(ctx.importMap, imports)
    && |imports| == |scope.imports| < 0x400_0000
    && (forall s :: s in ctx.secMap ==> ctx.secMap[s] < |scope.sections|)
    && 1 <= |scope.sections|
    && (forall k :: 0 <= k < |relocs| ==>
          && KnownType(relocs[k].kind)
          && relocs[k].offset + 4 <= size
          && (IsExternal(relocs[k], ctx) ==> relocs[k].symbol in ctx.importMap))
    && (forall k, m :: 0 <= k < m < |relocs| ==>
          relocs[k].offset + 4 <= relocs[m].offset || relocs[m].offset + 4 <= relocs[k].offset)
  }

  /** Run-time address of an ELF symbol: where its name was resolved, or its section's address plus its value. */
  function RuntimeAddr(ctx: Context, scope: Scope, y: nat): U32
    requires y < |ctx.symbols|
    requires ctx.symbols[y].section == SHN_UNDEF ==> ImportIndex(ctx, y) < |scope.imports|
    requires OutputIndex(ctx.secMap, ctx.symbols[y].section) < |scope.sections|
  {
    var s := ctx.symbols[y];
    if s.section == SHN_UNDEF then scope.imports[ImportIndex(ctx, y)]
    else Trunc32(scope.sections[OutputIndex(ctx.secMap, s.section)] + s.value)
  }

  lemma PackedIsFaithful(relocs: seq<ElfReloc>, ctx: Context, imports: seq<SymbolInfo>, scope: Scope, size: nat, k: nat)
    requires GoodInput(relocs, ctx, imports, scope, size) && k < |relocs|
    ensures
      var r, p := relocs[k], Packed(relocs[k], ctx);
      && p.offset == r.offset && p.Type() == r.kind
      && p.TargetIndex() < (if IsExternal(r, ctx) then |scope.imports| else |scope.sections|)
      && (r.symbol in ctx.importMap ==> ImportIndex(ctx, r.symbol) < |scope.imports|)
      && (IsExternal(r, ctx) ==> r.symbol in ctx.importMap)
      && OutputIndex(ctx.secMap, ctx.symbols[r.symbol].section) < |scope.sections|
      && SymAddr(p, scope, !IsExternal(r, ctx)) == RuntimeAddr(ctx, scope, r.symbol)
  {
    var r := relocs[k];
    if IsExternal(r, ctx) {
      Unpacked(r.kind, ImportIndex(ctx, r.symbol));
    } else {
      Unpacked(r.kind, OutputIndex(ctx.secMap, ctx.symbols[r.symbol].section));
    }
  }

  lemma TableEntry(relocs: seq<ElfReloc>, ctx: Context, external: bool, p: nat)
    requires SymbolsExist(relocs, ctx) && p < |Chosen(relocs, ctx, external, |relocs|)|
    ensures Table(relocs, ctx, external, |relocs|)[p] ==
            Packed(relocs[Chosen(relocs, ctx, external, |relocs|)[p]], ctx)
  {
  }

  /** The tables the tool builds are fit for the loader. */
  lemma TablesAreLinkable(relocs: seq<ElfReloc>, ctx: Context, imports: seq<SymbolInfo>, scope: Scope, size: nat)
    requires GoodInput(relocs, ctx, imports, scope, size)
    ensures LinkableWith(Table(relocs, ctx, false, |relocs|), Table(relocs, ctx, true, |relocs|), scope, size)
  {
    hide Packed, Chosen, Table, MapsImports;
    var n := |relocs|;
    forall external, p | 0 <= p < |Table(relocs, ctx, external, n)|
      ensures var k := Chosen(relocs, ctx, external, n)[p];
              var r := Table(relocs, ctx, external, n)[p];
              && r.offset == relocs[k].offset
              && r.TargetIndex() < if external then |scope.imports| else |scope.sections|
    {
      TableEntry(relocs, ctx, external, p);
      PackedIsFaithful(relocs, ctx, imports, scope, size, Chosen(relocs, ctx, external, n)[p]);
    }
  }

  /**
   The LO16 at m is the one the HI16 at k belongs to: a later one for the same symbol, with no LO16 for
   another symbol of the same kind (undefined or not) in between.
   */
  predicate PairsUp(relocs: seq<ElfReloc>, ctx: Context, k: nat, m: nat)
    requires SymbolsExist(relocs, ctx)
  {
    && k < m < |relocs|
    && relocs[k].kind == R_MIPS_HI16 && relocs[m].kind == R_MIPS_LO16
    && relocs[k].symbol == relocs[m].symbol
    && forall x :: k < x < m && relocs[x].kind == R_MIPS_LO16 ==>
         IsExternal(relocs[x], ctx) != IsExternal(relocs[k], ctx)
  }

  /** No LO16 that the HI16 at k could be paired with follows it. */
  predicate Unpaired(relocs: seq<ElfReloc>, ctx: Context, k: nat)
    requires SymbolsExist(relocs, ctx) && k < |relocs|
  {
    forall x :: k < x < |relocs| && relocs[x].kind == R_MIPS_LO16 ==>
      IsExternal(relocs[x], ctx) != IsExternal(relocs[k], ctx)
  }

  /** Where relocation k is found in its table, and what it holds there. */
  lemma EntryOf(relocs: seq<ElfReloc>, ctx: Context, imports: seq<SymbolInfo>, scope: Scope, size: nat, k: nat)
    requires GoodInput(relocs, ctx, imports, scope, size) && k < |relocs|
    ensures
      var ext := IsExternal(relocs[k], ctx);
      var table, p := Table(relocs, ctx, ext, |relocs|), Rank(relocs, ctx, ext, k);
      && p < |table| && Chosen(relocs, ctx, ext, |relocs|)[p] == k
      && table[p] == Packed(relocs[k], ctx)
      && table[p].offset == relocs[k].offset && table[p].Type() == relocs[k].kind
  {
    hide MapsImports, Chosen;
    var ext := IsExternal(relocs[k], ctx);
    ChosenAtRank(relocs, ctx, ext, k, |relocs|);
    TableEntry(relocs, ctx, ext, Rank(relocs, ctx, ext, k));
    PackedIsFaithful(relocs, ctx, imports, scope, size, k);
  }

  /** The types in a table are those of the relocations it was made from. */
  lemma TypeAt(relocs: seq<ElfReloc>, ctx: Context, imports: seq<SymbolInfo>, scope: Scope, size: nat, ext: bool,
               q: nat)
    requires GoodInput(relocs, ctx, imports, scope, size) && q < |Table(relocs, ctx, ext, |relocs|)|
    ensures Table(relocs, ctx, ext, |relocs|)[q].Type() == relocs[Chosen(relocs, ctx, ext, |relocs|)[q]].kind
  {
    hide MapsImports, Chosen, Table;
    TableEntry(relocs, ctx, ext, q);
    PackedIsFaithful(relocs, ctx, imports, scope, size, Chosen(relocs, ctx, ext, |relocs|)[q]);
  }

  /** Splitting keeps pairs together: the next LO16 in the table is the right one. */
  lemma SplitKeepsPairs(relocs: seq<ElfReloc>, ctx: Context, imports: seq<SymbolInfo>, scope: Scope, size: nat,
                        k: nat, m: nat)
    requires GoodInput(relocs, ctx, imports, scope, size) && PairsUp(relocs, ctx, k, m)
    ensures
      var ext := IsExternal(relocs[k], ctx);
      var table := Table(relocs, ctx, ext, |relocs|);
      && Rank(relocs, ctx, ext, k) < |table|
      && NextLo16(table, Rank(relocs, ctx, ext, k) + 1) == Rank(relocs, ctx, ext, m) < |table|
  {
    hide MapsImports, Chosen, Table, Packed, NextLo16;
    var ext, n := IsExternal(relocs[k], ctx), |relocs|;
    var table := Table(relocs, ctx, ext, n);
    EntryOf(relocs, ctx, imports, scope, size, k);
    EntryOf(relocs, ctx, imports, scope, size, m);
    var p, r := Rank(relocs, ctx, ext, k), Rank(relocs, ctx, ext, m);
    assert p < r;
    var q := NextLo16(table, p + 1);
    if q < r {
      TypeAt(relocs, ctx, imports, scope, size, ext, q);
    }
  }

  /** Splitting keeps the order. */
  lemma RanksGrow(relocs: seq<ElfReloc>, ctx: Context, imports: seq<SymbolInfo>, scope: Scope, size: nat, k: nat,
                  m: nat)
    requires GoodInput(relocs, ctx, imports, scope, size) && k < m < |relocs|
    requires IsExternal(relocs[k], ctx) == IsExternal(relocs[m], ctx)
    ensures var ext := IsExternal(relocs[k], ctx); Rank(relocs, ctx, ext, k) < Rank(relocs, ctx, ext, m)
  {
    hide MapsImports, Chosen, Table, Packed;
    EntryOf(relocs, ctx, imports, scope, size, k);
    EntryOf(relocs, ctx, imports, scope, size, m);
  }

  /**
   The loader pairs by position. A HI16 finds the LO16 of its own symbol if and only if no LO16 for another symbol of
   the same kind lies between them.
   */
  lemma PairedByPosition(relocs: seq<ElfReloc>, ctx: Context, imports: seq<SymbolInfo>, scope: Scope, size: nat,
                         k: nat, m: nat)
    requires GoodInput(relocs, ctx, imports, scope, size) && k < m < |relocs|
    requires relocs[k].kind == R_MIPS_HI16 && relocs[m].kind == R_MIPS_LO16 && relocs[k].symbol == relocs[m].symbol
    ensures
      var ext := IsExternal(relocs[k], ctx);
      var table := Table(relocs, ctx, ext, |relocs|);
      && Rank(relocs, ctx, ext, k) < |table|
      && (NextLo16(table, Rank(relocs, ctx, ext, k) + 1) == Rank(relocs, ctx, ext, m) <==> PairsUp(relocs, ctx, k, m))
  {
    hide MapsImports, Chosen, Table, Packed, NextLo16, Rank;
    EntryOf(relocs, ctx, imports, scope, size, k);
    if PairsUp(relocs, ctx, k, m) {
      SplitKeepsPairs(relocs, ctx, imports, scope, size, k, m);
    } else {
      var x :| k < x < m && relocs[x].kind == R_MIPS_LO16 && IsExternal(relocs[x], ctx) == IsExternal(relocs[k], ctx);
      EntryOf(relocs, ctx, imports, scope, size, x);
      RanksGrow(relocs, ctx, imports, scope, size, k, x);
      RanksGrow(relocs, ctx, imports, scope, size, x, m);
    }
  }

  const UNDEFINED := ElfSymbol([0x61], 0, 1, 0, SHN_UNDEF, STV_DEFAULT)
  const TWO_IMPORTS :=
    Context([UNDEFINED, UNDEFINED, UNDEFINED.(name := [0x62])], map[SHN_UNDEF := 0], map[1 := 0, 2 := 1])
  const INTERLEAVED :=
    [ElfReloc(0, 1, R_MIPS_HI16), ElfReloc(4, 2, R_MIPS_LO16), ElfReloc(8, 1, R_MIPS_LO16)]

  lemma InterleavedIsGood()
    ensures
      var imports := [ImportOf(1, TWO_IMPORTS.symbols[1]), ImportOf(2, TWO_IMPORTS.symbols[2])];
      GoodInput(INTERLEAVED, TWO_IMPORTS, imports, Scope([0], [0x8000_0000, 0x8001_0000]), 12)
  {
  }

  lemma InterleavedTable()
    ensures Chosen(INTERLEAVED, TWO_IMPORTS, true, 0) == [] && Chosen(INTERLEAVED, TWO_IMPORTS, true, 1) == [0]
    ensures Chosen(INTERLEAVED, TWO_IMPORTS, true, 3) == [0, 1, 2]
  {
    assert Chosen(INTERLEAVED, TWO_IMPORTS, true, 1) == [0];
    assert Chosen(INTERLEAVED, TWO_IMPORTS, true, 2) == [0, 1];
  }

  /** A HI16 for one import, then a LO16 for another, then its own: it is paired with the wrong one. */
  lemma WrongPair()
    ensures
      var imports := [ImportOf(1, TWO_IMPORTS.symbols[1]), ImportOf(2, TWO_IMPORTS.symbols[2])];
      GoodInput(INTERLEAVED, TWO_IMPORTS, imports, Scope([0], [0x8000_0000, 0x8001_0000]), 12)
    ensures !PairsUp(INTERLEAVED, TWO_IMPORTS, 0, 2)
    ensures Rank(INTERLEAVED, TWO_IMPORTS, true, 0) == 0 && Rank(INTERLEAVED, TWO_IMPORTS, true, 1) == 1
    ensures NextLo16(Table(INTERLEAVED, TWO_IMPORTS, true, 3), 1) == 1
  {
    hide Chosen, GoodInput;
    InterleavedIsGood();
    InterleavedTable();
    assert INTERLEAVED[1].kind == R_MIPS_LO16;
    Unpacked(R_MIPS_LO16, 1);
  }

  lemma UnpairedStaysUnpaired(relocs: seq<ElfReloc>, ctx: Context, imports: seq<SymbolInfo>, scope: Scope, size: nat,
                              k: nat)
    requires GoodInput(relocs, ctx, imports, scope, size) && k < |relocs| && Unpaired(relocs, ctx, k)
    ensures
      var ext := IsExternal(relocs[k], ctx);
      var table := Table(relocs, ctx, ext, |relocs|);
      Rank(relocs, ctx, ext, k) < |table| && NextLo16(table, Rank(relocs, ctx, ext, k) + 1) == |table|
  {
    hide MapsImports, Chosen, Table, Packed, NextLo16;
    var ext, n := IsExternal(relocs[k], ctx), |relocs|;
    var table := Table(relocs, ctx, ext, n);
    EntryOf(relocs, ctx, imports, scope, size, k);
    var p := Rank(relocs, ctx, ext, k);
    var q := NextLo16(table, p + 1);
    if q < |table| {
      TypeAt(relocs, ctx, imports, scope, size, ext, q);
    }
  }

  /** A section linked with the tables built from its ELF relocations. */
  ghost predicate Relocated(relocs: seq<ElfReloc>, ctx: Context, imports: seq<SymbolInfo>, scope: Scope,
                            bytes: seq<Byte>, out: seq<Byte>)
    requires GoodInput(relocs, ctx, imports, scope, |bytes|)
  {
    TablesAreLinkable(relocs, ctx, imports, scope, |bytes|);
    Linked(bytes, out, Table(relocs, ctx, false, |relocs|), Table(relocs, ctx, true, |relocs|), scope)
  }

  /** The linked word of relocation k in terms of the ELF file. */
  lemma LinkedElfWord(relocs: seq<ElfReloc>, ctx: Context, imports: seq<SymbolInfo>, scope: Scope,
                      bytes: seq<Byte>, out: seq<Byte>, k: nat)
    requires GoodInput(relocs, ctx, imports, scope, |bytes|) && k < |relocs|
    requires Relocated(relocs, ctx, imports, scope, bytes, out)
    ensures
      var r := relocs[k];
      var ext := IsExternal(r, ctx);
      var table, p := Table(relocs, ctx, ext, |relocs|), Rank(relocs, ctx, ext, k);
      && p < |table| && |out| == |bytes|
      && (forall i :: 0 <= i < |table| ==> table[i].offset + 4 <= |bytes|)
      && (r.symbol in ctx.importMap ==> ImportIndex(ctx, r.symbol) < |scope.imports|)
      && (ext ==> r.symbol in ctx.importMap)
      && OutputIndex(ctx.secMap, ctx.symbols[r.symbol].section) < |scope.sections|
      && Word(out, r.offset) == LoaderWord(r.kind, Word(bytes, r.offset), RuntimeAddr(ctx, scope, r.symbol),
                                           PairedLo(bytes, table, p))
  {
    TablesAreLinkable(relocs, ctx, imports, scope, |bytes|);
    hide MapsImports, Chosen, Table, Packed, NextLo16, LoaderWord, Word, SymAddr, PairedLo, RuntimeAddr, ImportIndex;
    EntryOf(relocs, ctx, imports, scope, |bytes|, k);
    PackedIsFaithful(relocs, ctx, imports, scope, |bytes|, k);
  }

  /**
   End to end: every relocation of the ELF file leaves the word that the ABI asks for, with S the run-time
   address of the ELF symbol. For a HI16 this holds exactly when the immediate of its LO16 is not 0x8000.
   */
  lemma EndToEnd(relocs: seq<ElfReloc>, ctx: Context, imports: seq<SymbolInfo>, scope: Scope,
                 bytes: seq<Byte>, out: seq<Byte>, k: nat, m: nat, place: U32)
    requires GoodInput(relocs, ctx, imports, scope, |bytes|) && k < |relocs| && m < |relocs|
    requires Relocated(relocs, ctx, imports, scope, bytes, out)
    requires relocs[k].kind == R_MIPS_HI16 ==> PairsUp(relocs, ctx, k, m)
    ensures
      var r := relocs[k];
      var lo := Trunc16(Word(bytes, relocs[m].offset));
      && (IsExternal(r, ctx) ==> ImportIndex(ctx, r.symbol) < |scope.imports|)
      && OutputIndex(ctx.secMap, ctx.symbols[r.symbol].section) < |scope.sections|
      && |out| == |bytes|
      && (Word(out, r.offset) == AbiWord(r.kind, Word(bytes, r.offset), RuntimeAddr(ctx, scope, r.symbol), lo, place,
                                         !IsExternal(r, ctx))
          <==> !(r.kind == R_MIPS_HI16 && lo == 0x8000))
  {
    hide MapsImports, Chosen, Table, Packed, NextLo16, LoaderWord, AbiWord, Word, RuntimeAddr, ImportIndex, Relocated;
    var r := relocs[k];
    var lo := Trunc16(Word(bytes, relocs[m].offset));
    LinkedElfWord(relocs, ctx, imports, scope, bytes, out, k);
    var s := RuntimeAddr(ctx, scope, r.symbol);
    LoaderMeetsAbi(r.kind, Word(bytes, r.offset), s, lo, place, !IsExternal(r, ctx));
    if r.kind == R_MIPS_HI16 {
      SplitKeepsPairs(relocs, ctx, imports, scope, |bytes|, k, m);
      EntryOf(relocs, ctx, imports, scope, |bytes|, m);
    } else {
      PairUnused(r.kind, Word(bytes, r.offset), s, lo,
        PairedLo(bytes, Table(relocs, ctx, IsExternal(r, ctx), |relocs|), Rank(relocs, ctx, IsExternal(r, ctx), k)));
    }
  }

  lemma PairUnused(t: int, w: U32, s: U32, lo: U16, other: Option<U16>)
    requires t != R_MIPS_HI16
    ensures LoaderWord(t, w, s, Some(lo)) == LoaderWord(t, w, s, other)
  {
  }

  /** The address a HI16/LO16 pair denotes moves by exactly S, unless the immediate was 0x8000. */
  lemma EndToEndPair(relocs: seq<ElfReloc>, ctx: Context, imports: seq<SymbolInfo>, scope: Scope,
                     bytes: seq<Byte>, out: seq<Byte>, k: nat, m: nat)
    requires GoodInput(relocs, ctx, imports, scope, |bytes|) && PairsUp(relocs, ctx, k, m)
    requires Relocated(relocs, ctx, imports, scope, bytes, out)
    ensures
      var hi, lo := Trunc16(Word(bytes, relocs[k].offset)), Trunc16(Word(bytes, relocs[m].offset));
      && |out| == |bytes|
      && (IsExternal(relocs[k], ctx) ==> ImportIndex(ctx, relocs[k].symbol) < |scope.imports|)
      && OutputIndex(ctx.secMap, ctx.symbols[relocs[k].symbol].section) < |scope.sections|
      && (Ahl(Trunc16(Word(out, relocs[k].offset)), Trunc16(Word(out, relocs[m].offset)))
            == Trunc32(Ahl(hi, lo) + RuntimeAddr(ctx, scope, relocs[k].symbol))
          <==> lo != 0x8000)
  {
    hide MapsImports, Chosen, Table, Packed, NextLo16, LoaderWord, Word, RuntimeAddr, ImportIndex, Relocated, Ahl,
         Trunc16, Trunc32;
    LinkedElfWord(relocs, ctx, imports, scope, bytes, out, k);
    LinkedElfWord(relocs, ctx, imports, scope, bytes, out, m);
    SplitKeepsPairs(relocs, ctx, imports, scope, |bytes|, k, m);
    EntryOf(relocs, ctx, imports, scope, |bytes|, m);
    var s := RuntimeAddr(ctx, scope, relocs[k].symbol);
    var w := Word(bytes, relocs[m].offset);
    HiLoPair(Word(bytes, relocs[k].offset), w, s);
    PairUnused(R_MIPS_LO16, w, s, 0, None);
    PairUnused(R_MIPS_LO16, w, s, 0,
      PairedLo(bytes, Table(relocs, ctx, IsExternal(relocs[m], ctx), |relocs|),
               Rank(relocs, ctx, IsExternal(relocs[m], ctx), m)));
  }

  /** A HI16 without a LO16 to pair with is left as it was. */
  lemma UnpairedUnchanged(relocs: seq<ElfReloc>, ctx: Context, imports: seq<SymbolInfo>, scope: Scope,
                          bytes: seq<Byte>, out: seq<Byte>, k: nat)
    requires GoodInput(relocs, ctx, imports, scope, |bytes|) && k < |relocs|
    requires Relocated(relocs, ctx, imports, scope, bytes, out)
    requires relocs[k].kind == R_MIPS_HI16 && Unpaired(relocs, ctx, k)
    ensures |out| == |bytes| && Word(out, relocs[k].offset) == Word(bytes, relocs[k].offset)
  {
    hide MapsImports, Chosen, Table, Packed, NextLo16, Word, RuntimeAddr, ImportIndex, Relocated;
    LinkedElfWord(relocs, ctx, imports, scope, bytes, out, k);
    UnpairedStaysUnpaired(relocs, ctx, imports, scope, |bytes|, k);
  }
}
