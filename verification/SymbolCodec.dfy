/**
 Symbol tables in a file: uso_write_symbol_table and sym_get_data_size (tools/elf2uso.cpp), the reader of
 tools/make_uso_externs.cpp, and the view the loader has of the same bytes.
 */
module SymbolCodec {
  import opened Words
  import opened CStrings
  import opened HostOrder
  import opened OutFile
  import opened Records
  import opened ElfInput
  import S = Symbols

  // ----- Layout: count, then the entries, then the names

  /** Total length of the first n names with their terminators. */
  function NamesSize(syms: seq<SymbolInfo>, n: nat): nat
    requires n <= |syms|
  {
    if n == 0 then 0 else NamesSize(syms, n - 1) + |syms[n - 1].name| + 1
  }

  /** Offset of name i from the start of the table. */
  function NameOfs(syms: seq<SymbolInfo>, i: nat): nat
    requires i <= |syms|
  {
    4 + 12 * |syms| + NamesSize(syms, i)
  }

  function TableSize(syms: seq<SymbolInfo>): nat { NameOfs(syms, |syms|) }

  lemma {:induction false} NamesGrow(syms: seq<SymbolInfo>, i: nat, j: nat)
    requires i < j <= |syms|
    ensures NamesSize(syms, i) + |syms[i].name| + 1 <= NamesSize(syms, j)
    decreases j
  {
    if i < j - 1 {
      NamesGrow(syms, i, j - 1);
    }
  }

  /** sym_get_data_size */
  method SymGetDataSize(syms: seq<SymbolInfo>) returns (size: U32)
    ensures size == Trunc32(TableSize(syms))
  {
    size := Trunc32(4 + 12 * |syms|);
    for i := 0 to |syms|
      invariant size == Trunc32(NameOfs(syms, i))
    {
      TruncCarries(NameOfs(syms, i), |syms[i].name| + 1);
      size := Trunc32(size + |syms[i].name| + 1);
    }
  }

  /** The length field: 15 bits of length and the weak mark on top. */
  function NameLen(s: SymbolInfo): U16
    requires |s.name| < 0x8000
  {
    if s.weak then 0x8000 + |s.name| else |s.name|
  }

  predicate Encodable(syms: seq<SymbolInfo>) {
    && TableSize(syms) < 0x1_0000_0000
    && forall i :: 0 <= i < |syms| ==> |syms[i].name| < 32767 && NulFree(syms[i].name)
  }

  function Record(syms: seq<SymbolInfo>, i: nat): SymbolRecord
    requires Encodable(syms) && i < |syms|
  {
    SymbolRecord(Trunc32(NameOfs(syms, i)), syms[i].addr, syms[i].section, NameLen(syms[i]))
  }

  /** The i-th write: the count first, then entry and name of each symbol in turn. */
  function ChunkAt(syms: seq<SymbolInfo>, ofs: nat, i: nat): Chunk
    requires Encodable(syms) && i < 1 + 2 * |syms|
  {
    if i == 0 then Chunk(ofs, WordBytes(Trunc32(|syms|)))
    else if i % 2 == 1 then Chunk(ofs + 4 + 12 * (i / 2), SymbolBytes(Record(syms, i / 2)))
    else Chunk(ofs + NameOfs(syms, i / 2 - 1), syms[i / 2 - 1].name + [0])
  }

  /** What has been written after n symbols. */
  function TableChunks(syms: seq<SymbolInfo>, ofs: nat, n: nat): (cs: seq<Chunk>)
    requires Encodable(syms) && n <= |syms|
    ensures |cs| == 1 + 2 * n
  {
    seq(1 + 2 * n, i requires 0 <= i < 1 + 2 * n => ChunkAt(syms, ofs, i))
  }

  /** uso_write_symbol_table */
  method UsoWriteSymbolTable(file: OutputFile, ofs: nat, syms: seq<SymbolInfo>, little: bool)
    requires Encodable(syms)
    modifies file
    ensures file.bytes == Written(old(file.bytes), TableChunks(syms, ofs, |syms|))
  {
    hide *;
    ghost var f := file.bytes;
    var nameOfs := 4 + 12 * |syms|;
    file.Seek(ofs);
    file.Write(Stored32(little, Trunc32(|syms|)));
    FirstChunk(f, syms, ofs);
    for i := 0 to |syms|
      invariant nameOfs == NameOfs(syms, i)
      invariant file.bytes == Written(f, TableChunks(syms, ofs, i))
    {
      WriteSymbol(file, ofs, syms, i, nameOfs, little);
      TwoMoreChunks(f, syms, ofs, i);
      NextName(syms, i);
      nameOfs := nameOfs + |syms[i].name| + 1;
    }
  }

  /** The loop body of uso_write_symbol_table (tools/elf2uso.cpp:498-521). */
  method WriteSymbol(file: OutputFile, ofs: nat, syms: seq<SymbolInfo>, i: nat, nameOfs: nat, little: bool)
    requires Encodable(syms) && i < |syms| && nameOfs == NameOfs(syms, i)
    modifies file
    ensures file.bytes == Splice(Splice(old(file.bytes), Chunk(4 + ofs + 12 * i, SymbolBytes(Record(syms, i)))),
                                 Chunk(ofs + NameOfs(syms, i), syms[i].name + [0]))
  {
    hide *;
    var record := RecordOnHost(syms, i, nameOfs, little);
    file.Seek(4 + ofs + 12 * i);
    file.Write(record);
    file.Seek(ofs + nameOfs);
    file.Write(syms[i].name + [0]);
  }

  /** The entry with every field swapped and stored as the host does. */
  function RecordOnHost(syms: seq<SymbolInfo>, i: nat, nameOfs: nat, little: bool): (b: seq<Byte>)
    requires Encodable(syms) && i < |syms| && nameOfs == NameOfs(syms, i)
    ensures b == SymbolBytes(Record(syms, i))
  {
    SymbolBytesAre(Record(syms, i));
    Stored32(little, Trunc32(nameOfs)) + Stored32(little, syms[i].addr) + Stored16(little, syms[i].section)
    + Stored16(little, NameLenField(syms, i))
  }

  lemma FirstChunk(f: seq<Byte>, syms: seq<SymbolInfo>, ofs: nat)
    requires Encodable(syms)
    ensures Written(f, TableChunks(syms, ofs, 0)) == Splice(f, Chunk(ofs, WordBytes(Trunc32(|syms|))))
    ensures NameOfs(syms, 0) == 4 + 12 * |syms|
  {
    hide Splice, WordBytes;
    WrittenOne(f, [], ChunkAt(syms, ofs, 0));
    assert TableChunks(syms, ofs, 0) == [] + [ChunkAt(syms, ofs, 0)];
  }

  lemma NextName(syms: seq<SymbolInfo>, i: nat)
    requires i < |syms|
    ensures NameOfs(syms, i + 1) == NameOfs(syms, i) + |syms[i].name| + 1
  {
  }

  /** The name_len field as computed by or-ing in the weak mark. */
  function NameLenField(syms: seq<SymbolInfo>, i: nat): (n: U16)
    requires Encodable(syms) && i < |syms|
    ensures n == Record(syms, i).nameLen
  {
    var len := Trunc16(|syms[i].name|);
    if syms[i].weak && len < 0x8000 then len + 0x8000 else len
  }

  lemma SymbolBytesAre(r: SymbolRecord)
    ensures SymbolBytes(r) == WordBytes(r.nameOfs) + WordBytes(r.addr) + HalfBytes(r.section) + HalfBytes(r.nameLen)
  {
    ThreeWords(r.nameOfs, r.addr, 0);
  }

  lemma TwoMoreChunks(f: seq<Byte>, syms: seq<SymbolInfo>, ofs: nat, i: nat)
    requires Encodable(syms) && i < |syms|
    ensures Written(f, TableChunks(syms, ofs, i + 1)) ==
            Splice(Splice(Written(f, TableChunks(syms, ofs, i)),
                          Chunk(4 + ofs + 12 * i, SymbolBytes(Record(syms, i)))),
                   Chunk(ofs + NameOfs(syms, i), syms[i].name + [0]))
  {
    hide Splice, Encodable, SymbolBytes, Written;
    var cs := TableChunks(syms, ofs, i);
    var c, d := ChunkAt(syms, ofs, 1 + 2 * i), ChunkAt(syms, ofs, 2 + 2 * i);
    assert TableChunks(syms, ofs, i + 1) == cs + [c] + [d];
    WrittenOne(f, cs + [c], d);
    WrittenOne(f, cs, c);
  }

  // ----- The writes do not overlap and stay inside the table

  lemma ChunkPlace(syms: seq<SymbolInfo>, ofs: nat, i: nat)
    requires Encodable(syms) && i < 1 + 2 * |syms|
    ensures
      var c := ChunkAt(syms, ofs, i);
      && ofs <= c.ofs && c.End() <= ofs + TableSize(syms)
      && (i == 0 ==> c.End() == ofs + 4)
      && (i % 2 == 1 ==> c.ofs == ofs + 4 + 12 * (i / 2) && c.End() == c.ofs + 12 <= ofs + 4 + 12 * |syms|)
      && (i != 0 && i % 2 == 0 ==> ofs + 4 + 12 * |syms| <= c.ofs)
  {
    hide SymbolBytes, WordBytes, NulFree;
    if i != 0 && i % 2 == 0 {
      NamesGrow(syms, i / 2 - 1, |syms|);
    }
  }

  lemma NamesApart(syms: seq<SymbolInfo>, ofs: nat, i: nat, j: nat)
    requires Encodable(syms) && i < j < |syms|
    ensures ChunkAt(syms, ofs, 2 + 2 * i).End() <= ChunkAt(syms, ofs, 2 + 2 * j).ofs
  {
    NamesGrow(syms, i, j);
  }

  lemma ChunksApart(syms: seq<SymbolInfo>, ofs: nat, i: nat, j: nat)
    requires Encodable(syms) && i < j < 1 + 2 * |syms|
    ensures Apart(ChunkAt(syms, ofs, i), ChunkAt(syms, ofs, j))
  {
    hide ChunkAt, Encodable, TableSize;
    ChunkPlace(syms, ofs, i);
    ChunkPlace(syms, ofs, j);
    if i != 0 && i % 2 == 0 && j % 2 == 0 {
      NamesApart(syms, ofs, i / 2 - 1, j / 2 - 1);
    }
  }

  lemma TableLayout(syms: seq<SymbolInfo>, ofs: nat)
    requires Encodable(syms)
    ensures AllApart(TableChunks(syms, ofs, |syms|))
    ensures Within(TableChunks(syms, ofs, |syms|), ofs, ofs + TableSize(syms))
  {
    hide ChunkAt, Encodable, TableSize, Apart;
    var cs := TableChunks(syms, ofs, |syms|);
    forall i, j | 0 <= i < j < |cs|
      ensures Apart(cs[i], cs[j])
    {
      ChunksApart(syms, ofs, i, j);
    }
    forall i | 0 <= i < |cs|
      ensures ofs <= cs[i].ofs && cs[i].End() <= ofs + TableSize(syms)
    {
      ChunkPlace(syms, ofs, i);
    }
  }

  /** A file that holds a symbol table at an offset. */
  predicate HasTable(f: seq<Byte>, ofs: nat, syms: seq<SymbolInfo>)
    requires Encodable(syms)
  {
    forall i :: 0 <= i < 1 + 2 * |syms| ==> Holds(f, ChunkAt(syms, ofs, i))
  }

  /** Writing the table puts it into the file. */
  lemma WrittenHasTable(f: seq<Byte>, ofs: nat, syms: seq<SymbolInfo>)
    requires Encodable(syms)
    ensures HasTable(Written(f, TableChunks(syms, ofs, |syms|)), ofs, syms)
  {
    TableLayout(syms, ofs);
    hide ChunkAt, Encodable, TableSize, Apart, Holds, Written;
    var cs := TableChunks(syms, ofs, |syms|);
    forall i | 0 <= i < |cs|
      ensures Holds(Written(f, cs), ChunkAt(syms, ofs, i))
    {
      AllHold(f, cs, i);
    }
  }

  // ----- Reading entries back

  lemma ReadCount(f: seq<Byte>, ofs: nat, syms: seq<SymbolInfo>)
    requires Encodable(syms) && HasTable(f, ofs, syms)
    ensures ofs + 4 <= |f| && Word(f, ofs) == |syms|
  {
    hide Word, WordBytes;
    assert Holds(f, ChunkAt(syms, ofs, 0));
    WordOfSlice(f, ofs, WordBytes(|syms|));
    WordOfBytes(|syms|);
  }

  lemma ReadRecord(f: seq<Byte>, ofs: nat, syms: seq<SymbolInfo>, i: nat)
    requires Encodable(syms) && HasTable(f, ofs, syms) && i < |syms|
    ensures ofs + 4 + 12 * i + 12 <= |f| && SymbolAt(f, ofs + 4 + 12 * i) == Record(syms, i)
  {
    hide SymbolBytes, SymbolAt;
    var c := ChunkAt(syms, ofs, 1 + 2 * i);
    assert Holds(f, c) && c == Chunk(ofs + 4 + 12 * i, SymbolBytes(Record(syms, i)));
    SymbolRoundTrip(f, ofs + 4 + 12 * i, Record(syms, i));
  }

  lemma ReadName(f: seq<Byte>, ofs: nat, syms: seq<SymbolInfo>, i: nat)
    requires Encodable(syms) && HasTable(f, ofs, syms) && i < |syms|
    ensures
      var p, s := ofs + NameOfs(syms, i), syms[i].name;
      && NameOfs(syms, i) < 0x1_0000_0000
      && p + |s| + 1 <= |f| && f[p..p + |s|] == s && f[p + |s|] == 0
  {
    NamesGrow(syms, i, |syms|);
    var p, s := ofs + NameOfs(syms, i), syms[i].name;
    var c := ChunkAt(syms, ofs, 2 + 2 * i);
    assert Holds(f, c) && c == Chunk(p, s + [0]);
    hide NameOfs, Encodable, ChunkAt;
    Part(f, p, s + [0], 0, |s|);
    assert (s + [0])[0..|s|] == s;
    assert f[p..p + |s| + 1][|s|] == 0;
  }

  /** uso_symbol_info of make_uso_externs */
  datatype UsoSymbol = UsoSymbol(name: Name, addr: U32, section: U16, weak: bool)

  /** file_read: it fails past the end of the file, and also when no bytes are asked for. */
  function FileRead(f: seq<Byte>, ofs: nat, size: nat): (r: Option<seq<Byte>>)
    ensures r.Some? ==> |r.value| == size && ofs + size <= |f| && r.value == f[ofs..ofs + size]
  {
    if size > 0 && ofs + size <= |f| then Some(f[ofs..ofs + size]) else None
  }

  /** One entry as the reader sees it, None when a read fails. */
  function ReadSymbol(f: seq<Byte>, ofs: nat, i: nat): Option<UsoSymbol> {
    if FileRead(f, 4 + ofs + 12 * i, 12) == None then None
    else
      var rec := SymbolAt(f, 4 + ofs + 12 * i);
      var name := FileRead(f, ofs + rec.nameOfs, rec.nameLen % 0x8000);
      if name == None then None
      else Some(UsoSymbol(CString(name.value + [0]), rec.addr, rec.section, rec.nameLen / 0x8000 == 1))
  }

  function ReadFirst(f: seq<Byte>, ofs: nat, n: nat): Option<seq<UsoSymbol>> {
    if n == 0 then Some([])
    else
      var init, last := ReadFirst(f, ofs, n - 1), ReadSymbol(f, ofs, n - 1);
      if init == None || last == None then None else Some(init.value + [last.value])
  }

  function ReadTable(f: seq<Byte>, ofs: nat): Option<seq<UsoSymbol>> {
    if ofs == 0 then Some([])
    else if FileRead(f, ofs, 4) == None then None
    else ReadFirst(f, ofs, Word(f, ofs))
  }

  /** The bytes of an entry, fetched field by field as the host has them and swapped. */
  function FetchSymbol(b: seq<Byte>, little: bool): (r: SymbolRecord)
    requires |b| == 12
    ensures r == SymbolAt(b, 0)
  {
    FetchedFields(b, little);
    SymbolRecord(SwapU32(little, HostWord(little, b[0..4])), SwapU32(little, HostWord(little, b[4..8])),
                 SwapU16(little, HostHalf(little, b[8..10])), SwapU16(little, HostHalf(little, b[10..12])))
  }

  lemma FetchedFields(b: seq<Byte>, little: bool)
    requires |b| == 12
    ensures SwapU32(little, HostWord(little, b[0..4])) == Word(b, 0)
    ensures SwapU32(little, HostWord(little, b[4..8])) == Word(b, 4)
    ensures SwapU16(little, HostHalf(little, b[8..10])) == Half(b, 8)
    ensures SwapU16(little, HostHalf(little, b[10..12])) == Half(b, 10)
  {
    hide SwapU32, SwapU16, HostWord, HostHalf, Word, Half;
    FetchedWord(b, 0, little);
    FetchedWord(b, 4, little);
    FetchedHalf(b, 8, little);
    FetchedHalf(b, 10, little);
  }

  /** uso_read_symbol: the entry on any host, None for the exit after a failed read. */
  method UsoReadSymbol(f: seq<Byte>, ofs: nat, little: bool) returns (rec: Option<SymbolRecord>)
    ensures rec == if ofs + 12 <= |f| then Some(SymbolAt(f, ofs)) else None
  {
    hide Word, Half, SwapU32, SwapU16, HostWord, HostHalf, FetchSymbol;
    var bytes := FileRead(f, ofs, 12);
    if bytes == None {
      return None;
    }
    var b := bytes.value;
    SameEntry(f, ofs, b);
    rec := Some(FetchSymbol(b, little));
  }

  lemma SameEntry(f: seq<Byte>, ofs: nat, b: seq<Byte>)
    requires ofs + 12 <= |f| && b == f[ofs..ofs + 12]
    ensures SymbolAt(b, 0) == SymbolAt(f, ofs)
  {
    hide Word, Half;
    WordWithin(f, ofs, b, 0);
    WordWithin(f, ofs, b, 4);
    HalfWithin(f, ofs, b, 8);
    HalfWithin(f, ofs, b, 10);
  }

  /** uso_read_symbol_name: the buffer gets a terminator behind what was read. */
  method UsoReadSymbolName(f: seq<Byte>, ofs: nat, len: nat) returns (name: Option<Name>)
    ensures name == if len > 0 && ofs + len <= |f| then Some(CString(f[ofs..ofs + len] + [0])) else None
  {
    hide CString;
    var bytes := FileRead(f, ofs, len);
    if bytes == None {
      return None;
    }
    name := Some(CString(bytes.value + [0]));
  }

  /** uso_get_sym_table_count */
  method UsoGetSymTableCount(f: seq<Byte>, ofs: nat, little: bool) returns (count: Option<U32>)
    ensures count == if ofs + 4 <= |f| then Some(Word(f, ofs)) else None
  {
    hide Word, SwapU32, HostWord;
    var bytes := FileRead(f, ofs, 4);
    if bytes == None {
      return None;
    }
    FetchedBigEndian(little, bytes.value);
    WordOfSlice(f, ofs, bytes.value);
    count := Some(SwapU32(little, HostWord(little, bytes.value)));
  }

  /** uso_read_symbol_table: None stands for the exit after a failed read. */
  method UsoReadSymbolTable(f: seq<Byte>, ofs: nat, little: bool) returns (list: Option<seq<UsoSymbol>>)
    ensures list == ReadTable(f, ofs)
  {
    hide Word, SymbolAt, ReadSymbol, CString;
    if ofs == 0 {
      return Some([]);
    }
    var numSymbols := UsoGetSymTableCount(f, ofs, little);
    if numSymbols == None {
      return None;
    }
    var syms: seq<UsoSymbol> := [];
    for i := 0 to numSymbols.value
      invariant ReadFirst(f, ofs, i) == Some(syms)
    {
      var sym := ReadOne(f, ofs, i, little);
      if sym == None {
        ReadFirstStops(f, ofs, i + 1, numSymbols.value);
        return None;
      }
      syms := syms + [sym.value];
    }
    list := Some(syms);
  }

  /** The loop body of uso_read_symbol_table (tools/make_uso_externs.cpp:136-148). */
  method ReadOne(f: seq<Byte>, ofs: nat, i: nat, little: bool) returns (sym: Option<UsoSymbol>)
    ensures sym == ReadSymbol(f, ofs, i)
  {
    hide SymbolAt, CString;
    var rec := UsoReadSymbol(f, 4 + ofs + 12 * i, little);
    if rec == None {
      return None;
    }
    var weak := rec.value.nameLen / 0x8000 == 1;
    var name := UsoReadSymbolName(f, ofs + rec.value.nameOfs, rec.value.nameLen % 0x8000);
    if name == None {
      return None;
    }
    sym := Some(UsoSymbol(name.value, rec.value.addr, rec.value.section, weak));
  }

  lemma {:induction false} ReadFirstStops(f: seq<Byte>, ofs: nat, m: nat, n: nat)
    requires m <= n && ReadFirst(f, ofs, m) == None
    ensures ReadFirst(f, ofs, n) == None
    decreases n
  {
    hide ReadSymbol;
    if m < n {
      ReadFirstStops(f, ofs, m, n - 1);
    }
  }

  function AsRead(s: SymbolInfo): UsoSymbol { UsoSymbol(s.name, s.addr, s.section, s.weak) }

  function AllRead(syms: seq<SymbolInfo>, n: nat): (r: seq<UsoSymbol>)
    requires n <= |syms|
    ensures |r| == n && forall i :: 0 <= i < n ==> r[i] == AsRead(syms[i])
  {
    seq(n, i requires 0 <= i < n => AsRead(syms[i]))
  }

  lemma ReadWrittenSymbol(f: seq<Byte>, ofs: nat, syms: seq<SymbolInfo>, i: nat)
    requires Encodable(syms) && HasTable(f, ofs, syms) && i < |syms|
    ensures ReadSymbol(f, ofs, i) == if syms[i].name == [] then None else Some(AsRead(syms[i]))
  {
    hide SymbolAt, HasTable, Encodable;
    ReadRecord(f, ofs, syms, i);
    ReadName(f, ofs, syms, i);
    LengthField(syms, i);
    var s := syms[i].name;
    CStringOfTerminated(s, []);
    assert s + [0] + [] == s + [0];
  }

  lemma LengthField(syms: seq<SymbolInfo>, i: nat)
    requires Encodable(syms) && i < |syms|
    ensures NulFree(syms[i].name)
    ensures NameLen(syms[i]) % 0x8000 == |syms[i].name|
    ensures NameLen(syms[i]) / 0x8000 == if syms[i].weak then 1 else 0
  {
  }

  /**
   Reading what was written gives back every name, address, section and weak mark, provided no name is
   empty: the reader takes a read of zero bytes for a failure.
   */
  lemma TableRoundTrip(f: seq<Byte>, ofs: nat, syms: seq<SymbolInfo>)
    requires Encodable(syms) && ofs > 0 && HasTable(f, ofs, syms)
    ensures ReadTable(f, ofs) ==
            if forall i :: 0 <= i < |syms| ==> syms[i].name != [] then Some(AllRead(syms, |syms|)) else None
  {
    hide HasTable, Encodable, ReadSymbol, Word;
    ReadCount(f, ofs, syms);
    if i :| 0 <= i < |syms| && syms[i].name == [] {
      ReadWrittenSymbol(f, ofs, syms, i);
      ReadFirstStops(f, ofs, i + 1, |syms|);
    } else {
      ReadWritten(f, ofs, syms, |syms|);
    }
  }

  lemma {:induction false} ReadWritten(f: seq<Byte>, ofs: nat, syms: seq<SymbolInfo>, n: nat)
    requires Encodable(syms) && HasTable(f, ofs, syms) && n <= |syms|
    requires forall i :: 0 <= i < |syms| ==> syms[i].name != []
    ensures ReadFirst(f, ofs, n) == Some(AllRead(syms, n))
  {
    hide HasTable, Encodable, ReadSymbol;
    if n > 0 {
      ReadWritten(f, ofs, syms, n - 1);
      ReadWrittenSymbol(f, ofs, syms, n - 1);
      assert AllRead(syms, n) == AllRead(syms, n - 1) + [AsRead(syms[n - 1])];
    }
  }

  // ----- The loader's view of the same bytes

  /** What a char pointer into the block spells, p bytes from its start. */
  function NameAt(f: seq<Byte>, p: nat): Name {
    if p <= |f| && Terminated(f[p..]) then CString(f[p..]) else []
  }

  /** Entry i with its name offset, which counts from the table, followed to the terminator. */
  function LoadedSymbol(f: seq<Byte>, ofs: nat, i: nat): S.Symbol
    requires ofs + 4 + 12 * i + 12 <= |f|
  {
    var rec := SymbolAt(f, ofs + 4 + 12 * i);
    S.Symbol(NameAt(f, Trunc32(ofs + rec.nameOfs)), rec.addr, rec.section, rec.nameLen)
  }

  function LoadedTable(f: seq<Byte>, ofs: nat): S.SymbolTable
    requires ofs + 4 <= |f| && ofs + 4 + 12 * Word(f, ofs) <= |f|
  {
    seq(Word(f, ofs), i requires 0 <= i < Word(f, ofs) => LoadedSymbol(f, ofs, i))
  }

  /** fixup_symbol_table_names: turns the name offsets of a table into pointers, in place. */
  method FixupSymbolTableNames(entries: array<SymbolRecord>, table: U32)
    modifies entries
    ensures forall i :: 0 <= i < entries.Length ==>
              entries[i] == old(entries[i]).(nameOfs := Trunc32(table + old(entries[i]).nameOfs))
  {
    for i := 0 to entries.Length
      invariant forall k :: 0 <= k < i ==>
                  entries[k] == old(entries[k]).(nameOfs := Trunc32(table + old(entries[k]).nameOfs))
      invariant forall k :: i <= k < entries.Length ==> entries[k] == old(entries[k])
    {
      entries[i] := entries[i].(nameOfs := Trunc32(table + entries[i].nameOfs));
    }
  }

  /** An entry of a block at address `base`, its name at the end of a fixed-up pointer. */
  function AtPointer(f: seq<Byte>, base: U32, rec: SymbolRecord): S.Symbol {
    S.Symbol(NameAt(f, Trunc32(rec.nameOfs as int - base)), rec.addr, rec.section, rec.nameLen)
  }

  /** A symbol table of a block at `base`, as it is searched once its name pointers are fixed up. */
  method NamedTable(f: seq<Byte>, base: U32, ofs: nat) returns (t: S.SymbolTable)
    requires ofs + 4 <= |f| && ofs + 4 + 12 * Word(f, ofs) <= |f|
    ensures t == LoadedTable(f, ofs)
  {
    hide Word, SymbolAt, NameAt, Trunc32;
    var n := Word(f, ofs);
    var entries := new SymbolRecord[n](i requires 0 <= i < n => SymbolAt(f, ofs + 4 + 12 * i));
    FixupSymbolTableNames(entries, Trunc32(base + ofs));
    var fixed := entries[..];
    t := seq(n, i requires 0 <= i < n => AtPointer(f, base, fixed[i]));
    forall i | 0 <= i < n
      ensures t[i] == LoadedSymbol(f, ofs, i)
    {
      PointerLeadsBack(base, ofs, SymbolAt(f, ofs + 4 + 12 * i).nameOfs);
    }
  }

  lemma PointerLeadsBack(base: U32, ofs: nat, nameOfs: U32)
    ensures Trunc32(Trunc32(Trunc32(base + ofs) + nameOfs) as int - base) == Trunc32(ofs + nameOfs)
  {
    TruncCarries(base + ofs, nameOfs);
    TruncCarries(base + ofs + nameOfs, -(base as int));
  }

  function AsLoaded(s: SymbolInfo): S.Symbol
    requires |s.name| < 0x8000
  {
    S.Symbol(s.name, s.addr, s.section, NameLen(s))
  }

  function LoadedForm(syms: seq<SymbolInfo>): (t: S.SymbolTable)
    requires Encodable(syms)
    ensures |t| == |syms| && forall i :: 0 <= i < |t| ==> t[i] == AsLoaded(syms[i])
  {
    seq(|syms|, i requires 0 <= i < |syms| => AsLoaded(syms[i]))
  }

  lemma LoadWrittenSymbol(f: seq<Byte>, ofs: nat, syms: seq<SymbolInfo>, i: nat)
    requires Encodable(syms) && HasTable(f, ofs, syms) && i < |syms| && ofs + TableSize(syms) <= 0x1_0000_0000
    ensures ofs + 4 + 12 * i + 12 <= |f| && LoadedSymbol(f, ofs, i) == LoadedForm(syms)[i]
  {
    hide SymbolAt, HasTable, Encodable, CString, Terminated, Record, NameOfs, NameLen, NulFree;
    ReadRecord(f, ofs, syms, i);
    ReadName(f, ofs, syms, i);
    NameInTable(syms, i);
    LengthField(syms, i);
    RecordFields(syms, i);
    SpellsName(f, ofs + NameOfs(syms, i), syms[i].name);
  }

  lemma NameInTable(syms: seq<SymbolInfo>, i: nat)
    requires i < |syms|
    ensures NameOfs(syms, i) < TableSize(syms)
  {
    NamesGrow(syms, i, |syms|);
  }

  lemma RecordFields(syms: seq<SymbolInfo>, i: nat)
    requires Encodable(syms) && i < |syms|
    ensures
      var r := Record(syms, i);
      && (NameOfs(syms, i) < 0x1_0000_0000 ==> r.nameOfs == NameOfs(syms, i))
      && r.addr == syms[i].addr && r.section == syms[i].section && r.nameLen == NameLen(syms[i])
  {
    hide NameOfs;
  }

  lemma SpellsName(f: seq<Byte>, p: nat, s: Name)
    requires p + |s| + 1 <= |f| && f[p..p + |s|] == s && f[p + |s|] == 0 && NulFree(s)
    ensures Terminated(f[p..]) && CString(f[p..]) == s
  {
    hide CString, Terminated, NulFree;
    var rest := f[p + |s| + 1..];
    CStringOfTerminated(s, rest);
    assert f[p..] == f[p..p + |s|] + [f[p + |s|]] + rest;
  }

  /** The loader finds the written table, with every name ending at its terminator. */
  lemma LoadingRoundTrip(f: seq<Byte>, ofs: nat, syms: seq<SymbolInfo>)
    requires Encodable(syms) && HasTable(f, ofs, syms) && ofs + TableSize(syms) <= 0x1_0000_0000
    ensures ofs + 4 <= |f| && ofs + 4 + 12 * Word(f, ofs) <= |f|
    ensures LoadedTable(f, ofs) == LoadedForm(syms)
  {
    hide HasTable, Encodable, Word, LoadedSymbol, TableSize;
    ReadCount(f, ofs, syms);
    if |syms| > 0 {
      ReadRecord(f, ofs, syms, |syms| - 1);
    }
    forall i | 0 <= i < |syms|
      ensures ofs + 4 + 12 * i + 12 <= |f| && LoadedSymbol(f, ofs, i) == LoadedForm(syms)[i]
    {
      LoadWrittenSymbol(f, ofs, syms, i);
    }
  }

  /** A symbol is weak for the loader iff the tool marked it. */
  lemma WeakMark(syms: seq<SymbolInfo>, i: nat)
    requires Encodable(syms) && i < |syms|
    ensures LoadedForm(syms)[i].IsWeak() <==> syms[i].weak
  {
    LengthField(syms, i);
  }

  /** A table sorted by the tool is sorted for the loader. */
  lemma StillSorted(syms: seq<SymbolInfo>)
    requires Encodable(syms) && StrictlyInOrder(syms)
    ensures S.Sorted(LoadedForm(syms))
  {
    hide Less;
  }
}
