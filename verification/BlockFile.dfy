/** Block records: printed, appended to a file that is mapped page by page, and read back. */
module BlockFiles {
  import opened Bytes
  import opened Coinbases
  import opened Mining
  import opened P2PKHs
  import opened Scripts
  import opened Seqs
  import opened Transactions

  type Raw = seq<Byte>

  datatype Block<K> = Block(header: Header, coinbase: Coinbase, txs: seq<Tx<K>>)

  /** Magic bytes, size of the whole record, number of transactions. */
  const META_SIZE: nat := 12

  // ---------------------------------------------------------------- printing and reading

  function PrintTxs<K>(c: Crypto<K>, txs: seq<Tx<K>>): Raw {
    if txs == [] then [] else Export(c, txs[0]) + PrintTxs(c, txs[1..])
  }

  function Meta(magic: Word, size: nat, count: nat): Raw { magic + Little(size, 4) + Little(count, 4) }

  function PrintBody<K>(c: Crypto<K>, b: Block<K>): Option<Raw> {
    match PrintCoinbase(b.coinbase)
    case None => None
    case Some(coinbase) => Some(PrintHeader(b.header) + coinbase + PrintTxs(c, b.txs))
  }

  /** Size and count are cut to four bytes. */
  function PrintContainer<K>(c: Crypto<K>, magic: Word, b: Block<K>): Option<Raw> {
    match PrintBody(c, b)
    case None => None
    case Some(body) => Some(Meta(magic, META_SIZE + |body|, |b.txs|) + body)
  }

  function ParseTxs<K>(c: Crypto<K>, b: Raw, count: nat): Read<seq<Tx<K>>> {
    if count == 0 then Some(([], 0))
    else
      match ParseTx(c, b)
      case None => None
      case Some((t, n)) =>
        if |b| < n then None
        else
          match ParseTxs(c, b[n..], count - 1)
          case None => None
          case Some((rest, m)) => Some(([t] + rest, n + m))
  }

  function ParseBody<K>(c: Crypto<K>, b: Raw, count: nat): Read<Block<K>> {
    match ParseHeader(b)
    case None => None
    case Some(header) =>
      match ParseCoinbase(b[HEADER_SIZE..])
      case None => None
      case Some((coinbase, n)) =>
        if |b| < HEADER_SIZE + n then None
        else
          match ParseTxs(c, b[HEADER_SIZE + n..], count)
          case None => None
          case Some((txs, m)) => Some((Block(header, coinbase, txs), HEADER_SIZE + n + m))
  }

  ghost predicate PrintableBlock<K>(c: Crypto<K>, b: Block<K>) {
    PrintableCoinbase(b.coinbase) && |b.txs| < 0x1_0000_0000 && forall i | 0 <= i < |b.txs| :: PrintableTx(c, b.txs[i])
  }

  ghost function ReadTxs<K>(c: Crypto<K>, txs: seq<Tx<K>>): (r: seq<Tx<K>>)
    ensures |r| == |txs| && forall i | 0 <= i < |txs| :: r[i] == ReadTx(c, txs[i])
  {
    if txs == [] then [] else [ReadTx(c, txs[0])] + ReadTxs(c, txs[1..])
  }

  ghost function ReadBlock<K>(c: Crypto<K>, b: Block<K>): Block<K> {
    Block(b.header, ReadCoinbase(b.coinbase), ReadTxs(c, b.txs))
  }

  lemma {:induction false} TxsRead<K>(c: Crypto<K>, txs: seq<Tx<K>>, rest: Raw)
    requires forall i | 0 <= i < |txs| :: PrintableTx(c, txs[i])
    ensures ParseTxs(c, PrintTxs(c, txs) + rest, |txs|) == Some((ReadTxs(c, txs), |PrintTxs(c, txs)|))
  {
    hide PrintableTx, ParseTx, ReadTx, Export;
    if txs != [] {
      var a, b := Export(c, txs[0]), PrintTxs(c, txs[1..]);
      TxReads(c, txs[0], b + rest);
      TxsRead(c, txs[1..], rest);
      Transactions.Split(a, b, rest);
    }
  }

  /** Header, coinbase and every transaction are read back from exactly the bytes printed. */
  lemma BodyReads<K>(c: Crypto<K>, b: Block<K>, rest: Raw)
    requires PrintableBlock(c, b)
    ensures PrintBody(c, b).Some?
    ensures ParseBody(c, PrintBody(c, b).value + rest, |b.txs|) == Some((ReadBlock(c, b), |PrintBody(c, b).value|))
  {
    var header, txs := PrintHeader(b.header), PrintTxs(c, b.txs);
    hide PrintableCoinbase, PrintableTx, PrintCoinbase, PrintTxs, ParseCoinbase, ParseTxs, ParseBody, ParseHeader, ReadTxs, ReadCoinbase;
    CoinbaseReads(b.coinbase, txs + rest);
    TxsRead(c, b.txs, rest);
    var coinbase := PrintCoinbase(b.coinbase).value;
    assert PrintBody(c, b) == Some(header + coinbase + txs);
    assert ReadBlock(c, b) == Block(b.header, ReadCoinbase(b.coinbase), ReadTxs(c, b.txs));
    hide *;
    HeaderReads(b.header, coinbase + txs + rest);
    ThreeParts(header, coinbase, txs, rest);
    ParseBodyIs(c, header + coinbase + txs + rest, |b.txs|, b.header, ReadCoinbase(b.coinbase), |coinbase|, ReadTxs(c, b.txs), |txs|);
  }

  lemma ThreeParts(a: Raw, b: Raw, d: Raw, rest: Raw)
    requires |a| == HEADER_SIZE
    ensures var s := a + b + d + rest;
            && s == a + (b + d + rest) && s[HEADER_SIZE..] == b + (d + rest) && s[HEADER_SIZE + |b|..] == d + rest
            && |a + b + d| == HEADER_SIZE + |b| + |d| && |s| >= HEADER_SIZE + |b|
  {
  }

  lemma ParseBodyIs<K>(c: Crypto<K>, b: Raw, count: nat, header: Header, coinbase: Coinbase, n: nat, txs: seq<Tx<K>>, m: nat)
    requires |b| >= HEADER_SIZE + n && ParseHeader(b) == Some(header) && ParseCoinbase(b[HEADER_SIZE..]) == Some((coinbase, n))
    requires ParseTxs(c, b[HEADER_SIZE + n..], count) == Some((txs, m))
    ensures ParseBody(c, b, count) == Some((Block(header, coinbase, txs), HEADER_SIZE + n + m))
  {
    hide ParseHeader, ParseCoinbase, ParseTxs;
  }

  /** A block that was read can not be printed again. */
  lemma ReadBlockIsNotPrintable<K>(c: Crypto<K>, b: Block<K>)
    ensures PrintBody(c, ReadBlock(c, b)) == None
  {
    ReadIsNotPrintable(b.coinbase);
  }

  // ---------------------------------------------------------------- the file

  const FILE_META: nat := 100
  const MAX_FILE: nat := 0x800_0000

  /** The first four bytes tell where the data ends, and that is where the file ends. */
  predicate Formatted(file: Raw) {
    FILE_META <= |file| < MAX_FILE && LittleValue(file[..4]) == |file|
  }

  function WithEnd(file: Raw, end: nat): Raw
    requires 4 <= |file|
  {
    Little(end, 4) + file[4..]
  }

  /** The file after a record was appended, when it fits. */
  function Appended(file: Raw, data: Raw): (r: Raw)
    requires Formatted(file)
    ensures Formatted(r)
  {
    if |file| + |data| >= MAX_FILE then file
    else
      FormattedEnd(WithEnd(file + data, |file| + |data|));
      WithEnd(file + data, |file| + |data|)
  }

  lemma FormattedEnd(file: Raw)
    ensures FILE_META <= |file| < MAX_FILE && file[..4] == Little(|file|, 4) ==> Formatted(file)
  {
    assert Pow256(4) == 0x1_0000_0000;
    if |file| < MAX_FILE { LittleRoundTrip(|file|, 4); }
  }

  /** The file after all the records, one after another. */
  function Filled(file: Raw, records: seq<Raw>): (r: Raw)
    requires Formatted(file)
    ensures Formatted(r)
    decreases records
  {
    if records == [] then file else Filled(Appended(file, records[0]), records[1..])
  }

  /** Where record i begins, or would begin. */
  function OffsetOf(file: Raw, records: seq<Raw>, i: nat): nat
    requires Formatted(file) && i <= |records|
  {
    |Filled(file, records[..i])|
  }

  /** Room is left for record i. */
  predicate Kept(file: Raw, records: seq<Raw>, i: nat)
    requires Formatted(file) && i < |records|
  {
    OffsetOf(file, records, i) + |records[i]| < MAX_FILE
  }

  lemma AppendedKeeps(file: Raw, data: Raw, from: nat, to: nat)
    requires Formatted(file) && FILE_META <= from <= to <= |file|
    ensures var r := Appended(file, data);
            |file| <= |r| && r[from..to] == file[from..to]
  {
    hide Little, LittleValue;
    var r := Appended(file, data);
    assert forall i | from <= i < to :: r[i] == file[i];
  }

  /** What a file holds behind its first hundred bytes stays there. */
  lemma {:induction false} FilledKeeps(file: Raw, records: seq<Raw>, from: nat, to: nat)
    requires Formatted(file) && FILE_META <= from <= to <= |file|
    ensures |file| <= |Filled(file, records)| && Filled(file, records)[from..to] == file[from..to]
    decreases records
  {
    if records != [] {
      var next := Appended(file, records[0]);
      AppendedKeeps(file, records[0], from, to);
      FilledKeeps(next, records[1..], from, to);
    }
  }

  lemma {:induction false} FilledParts(file: Raw, records: seq<Raw>, i: nat)
    requires Formatted(file) && i <= |records|
    ensures Filled(file, records) == Filled(Filled(file, records[..i]), records[i..])
    decreases records
  {
    if i == 0 {
      assert records[..0] == [] && records[0..] == records;
    } else {
      FilledParts(Appended(file, records[0]), records[1..], i - 1);
      assert records[..i][1..] == records[1..][..i - 1] && records[1..][i - 1..] == records[i..];
    }
  }

  lemma AppendedHolds(file: Raw, data: Raw)
    requires Formatted(file) && |file| + |data| < MAX_FILE
    ensures var r := Appended(file, data);
            |r| == |file| + |data| && r[|file|..|file| + |data|] == data
  {
    AppendedIs(file, data);
    var r := WithEnd(file + data, |file| + |data|);
    assert forall k | 0 <= k < |data| :: r[|file| + k] == data[k];
  }

  /** Whatever records follow, each record that fitted is found where it was put. */
  lemma RecordStays(file: Raw, records: seq<Raw>, i: nat)
    requires Formatted(file) && i < |records| && Kept(file, records, i)
    ensures var at := OffsetOf(file, records, i);
            FILE_META <= at && at + |records[i]| <= |Filled(file, records)| && Filled(file, records)[at..at + |records[i]|] == records[i]
  {
    var before := Filled(file, records[..i]);
    assert FILE_META <= |before| && OffsetOf(file, records, i) == |before| && |before| + |records[i]| < MAX_FILE;
    FilledParts(file, records, i);
    AfterRecord(before, records[i..]);
  }

  lemma FilledStep(file: Raw, records: seq<Raw>)
    requires Formatted(file) && records != []
    ensures Filled(file, records) == Filled(Appended(file, records[0]), records[1..])
  {
    hide Appended, Formatted;
  }

  lemma AfterRecord(before: Raw, records: seq<Raw>)
    requires Formatted(before) && records != [] && |before| + |records[0]| < MAX_FILE
    ensures var at := |before|;
            at + |records[0]| <= |Filled(before, records)| && Filled(before, records)[at..at + |records[0]|] == records[0]
  {
    var first, rest, next := records[0], records[1..], Appended(before, records[0]);
    FilledStep(before, records);
    assert FILE_META <= |before|;
    FirstStays(before, first, rest, next);
    hide *;
  }

  lemma FirstStays(before: Raw, first: Raw, rest: seq<Raw>, next: Raw)
    requires Formatted(before) && |before| + |first| < MAX_FILE && next == Appended(before, first) && FILE_META <= |before|
    ensures var at, r := |before|, Filled(next, rest); at + |first| <= |r| && r[at..at + |first|] == first
  {
    hide Filled, Appended, Formatted;
    AppendedHolds(before, first);
    FilledKeeps(next, rest, |before|, |before| + |first|);
  }

  /** The block at an offset of the file; None: the source would read past the end. */
  function BlockAt<K>(c: Crypto<K>, file: Raw, offset: nat): Option<Block<K>> {
    if |file| < offset + META_SIZE then None
    else
      var size, count := LittleValue(file[offset + 4..offset + 8]), LittleValue(file[offset + 8..offset + 12]);
      if size < META_SIZE || |file| < offset + size then None
      else
        match ParseBody(c, file[offset + META_SIZE..offset + size], count)
        case None => None
        case Some((b, _)) => Some(b)
  }

  /** A block record anywhere in a file is read back. */
  lemma ContainerReads<K>(c: Crypto<K>, magic: Word, b: Block<K>, file: Raw, at: nat)
    requires PrintableBlock(c, b) && PrintContainer(c, magic, b).Some?
    requires |PrintContainer(c, magic, b).value| < 0x1_0000_0000
    requires at + |PrintContainer(c, magic, b).value| <= |file|
    requires file[at..at + |PrintContainer(c, magic, b).value|] == PrintContainer(c, magic, b).value
    ensures BlockAt(c, file, at) == Some(ReadBlock(c, b))
  {
    hide *;
    PrintContainerIs(c, magic, b);
    var p, body := PrintContainer(c, magic, b).value, PrintBody(c, b).value;
    BodyReads(c, b, []);
    assert body + [] == body;
    MetaParts(magic, META_SIZE + |body|, |b.txs|, body);
    Inside(file, at, p);
    BlockAtIs(c, file, at, |p|, |b.txs|, ReadBlock(c, b), |body|);
  }

  lemma PrintContainerIs<K>(c: Crypto<K>, magic: Word, b: Block<K>)
    requires PrintableBlock(c, b) && PrintContainer(c, magic, b).Some?
    ensures PrintBody(c, b).Some? && |b.txs| < 0x1_0000_0000
    ensures PrintContainer(c, magic, b).value == Meta(magic, META_SIZE + |PrintBody(c, b).value|, |b.txs|) + PrintBody(c, b).value
    ensures |PrintContainer(c, magic, b).value| == META_SIZE + |PrintBody(c, b).value|
  {
    hide PrintableCoinbase, PrintableTx, PrintBody;
  }

  lemma BlockAtIs<K>(c: Crypto<K>, file: Raw, at: nat, size: nat, count: nat, b: Block<K>, n: nat)
    requires META_SIZE <= size && at + size <= |file|
    requires LittleValue(file[at + 4..at + 8]) == size && LittleValue(file[at + 8..at + 12]) == count
    requires ParseBody(c, file[at + META_SIZE..at + size], count) == Some((b, n))
    ensures BlockAt(c, file, at) == Some(b)
  {
    hide ParseBody, LittleValue;
  }

  lemma Inside(file: Raw, at: nat, p: Raw)
    requires META_SIZE <= |p| && at + |p| <= |file| && file[at..at + |p|] == p
    ensures file[at + 4..at + 8] == p[4..8] && file[at + 8..at + 12] == p[8..12] && file[at + META_SIZE..at + |p|] == p[META_SIZE..]
  {
    Within(file, at, |p|, 4, 8);
    Within(file, at, |p|, 8, 12);
    Within(file, at, |p|, META_SIZE, |p|);
    assert p[META_SIZE..|p|] == p[META_SIZE..];
  }

  /** Where a record has its magic bytes, its size and its count. */
  lemma MetaParts(magic: Word, size: nat, count: nat, body: Raw)
    requires size < 0x1_0000_0000 && count < 0x1_0000_0000
    ensures var p := Meta(magic, size, count) + body;
            && |p| == 12 + |body| && p[..4] == magic && p[12..] == body
            && LittleValue(p[4..8]) == size && LittleValue(p[8..12]) == count
  {
    assert Pow256(4) == 0x1_0000_0000;
    LittleRoundTrip(size, 4);
    LittleRoundTrip(count, 4);
    var p := Meta(magic, size, count) + body;
    assert p[4..8] == Little(size, 4) && p[8..12] == Little(count, 4);
  }

  /** Every block that was ever appended, and fitted, is read back at the offset it was given. */
  lemma EveryBlockReads<K>(c: Crypto<K>, file: Raw, records: seq<Raw>, i: nat, magic: Word, b: Block<K>)
    requires Formatted(file) && i < |records| && Kept(file, records, i)
    requires PrintableBlock(c, b) && PrintContainer(c, magic, b) == Some(records[i])
    ensures BlockAt(c, Filled(file, records), OffsetOf(file, records, i)) == Some(ReadBlock(c, b))
  {
    RecordStays(file, records, i);
    hide PrintableBlock, PrintContainer, BlockAt, ReadBlock;
    ContainerReads(c, magic, b, Filled(file, records), OffsetOf(file, records, i));
  }

  // ---------------------------------------------------------------- the file object

  class LocalFileController {
    var file: Raw
    const pageSize: nat

    /** A file shorter than its head is new. */
    constructor (onDisk: Raw, pageSize: nat)
      requires pageSize > 0
      ensures this.pageSize == pageSize
      ensures |onDisk| >= FILE_META ==> file == onDisk
      ensures |onDisk| < FILE_META ==> Formatted(file) && |file| == FILE_META
    {
      this.pageSize := pageSize;
      file := onDisk;
      new;
      if |onDisk| < FILE_META {
        Truncate(FILE_META);
        file := WithEnd(file, FILE_META);
        FormattedEnd(file);
      }
    }

    /** ftruncate: cuts the file, or fills it up with zeros. */
    method Truncate(size: nat)
      modifies this
      ensures |file| == size && file[..if size < |old(file)| then size else |old(file)|] == old(file)[..if size < |old(file)| then size else |old(file)|]
    {
      if size <= |file| {
        file := file[..size];
      } else {
        var zeros := new Byte[size - |file|](_ => 0);
        file := file + zeros[..];
      }
    }

    /** Appends through a mapping that starts at a page; -1 when the file would grow too big. */
    method Write(data: Raw) returns (offset: int)
      requires Formatted(file) && pageSize > 0
      modifies this
      ensures Formatted(file) && file == Appended(old(file), data)
      ensures offset == if |old(file)| + |data| < MAX_FILE then |old(file)| else -1
    {
      var dataEnd := LittleValue(file[..4]);
      if dataEnd + |data| >= MAX_FILE { return -1; }
      AppendedIs(file, data);
      hide *;
      Truncate(dataEnd + |data|);
      var start := PageStart(dataEnd, pageSize);
      var mapped := CopyIn(file[start..], dataEnd - start, data);
      Joined(old(file), file, data, start);
      file := WithEnd(file[..start] + mapped, dataEnd + |data|);
      offset := dataEnd;
    }

    /** Copies out of a mapping that starts at a page. */
    method Read(size: nat, offset: nat) returns (data: Option<Raw>)
      requires pageSize > 0
      ensures data == if offset + size <= |file| then Some(file[offset..offset + size]) else None
    {
      if |file| < offset + size { return None; }
      var start := PageStart(offset, pageSize);
      var inside := offset - start;
      var mapped := file[start..start + inside + size];
      data := Some(mapped[inside..inside + size]);
      assert data.value == file[offset..offset + size];
    }

    /** None: the source stops, the coinbase can not be printed. */
    method WriteContainer<K>(c: Crypto<K>, magic: Word, b: Block<K>) returns (offset: Option<int>)
      requires Formatted(file) && pageSize > 0
      modifies this
      ensures Formatted(file)
      ensures offset.None? <==> PrintContainer(c, magic, b).None?
      ensures offset.None? ==> file == old(file)
      ensures offset.Some? ==>
        var p := PrintContainer(c, magic, b).value;
        file == Appended(old(file), p) && offset.value == (if |old(file)| + |p| < MAX_FILE then |old(file)| else -1)
    {
      var raw := ExportRawFormated(c, magic, b);
      if raw.None? { return None; }
      var at := Write(raw.value);
      offset := Some(at);
    }

    method ReadContainer<K>(c: Crypto<K>, offset: nat) returns (b: Option<Block<K>>)
      requires pageSize > 0
      ensures b == BlockAt(c, file, offset)
    {
      hide ParseBody;
      var meta := Read(META_SIZE, offset);
      if meta.None? { return None; }
      assert meta.value[4..8] == file[offset + 4..offset + 8] && meta.value[8..12] == file[offset + 8..offset + 12];
      var size, count := LittleValue(meta.value[4..8]), LittleValue(meta.value[8..12]);
      if size < META_SIZE { return None; }
      var body := Read(size - META_SIZE, offset + META_SIZE);
      if body.None? { return None; }
      b := ImportBlockSequentially(c, body.value, count);
    }
  }

  /** The mapped bytes with the data written over them, byte by byte. */
  method CopyIn(mapping: Raw, inside: nat, data: Raw) returns (mapped: Raw)
    requires |mapping| == inside + |data|
    ensures mapped == mapping[..inside] + data
  {
    var bytes := new Byte[|mapping|](i requires 0 <= i < |mapping| => mapping[i]);
    var i := 0;
    while i < |data|
      invariant 0 <= i <= |data|
      invariant bytes[..inside] == mapping[..inside] && bytes[inside..inside + i] == data[..i]
    {
      bytes[inside + i] := data[i];
      i := i + 1;
    }
    mapped := bytes[..];
    assert bytes[..] == bytes[..inside] + bytes[inside..inside + |data|];
  }

  lemma Joined(file: Raw, grown: Raw, data: Raw, start: nat)
    requires start <= |file| <= |grown| && grown[..|file|] == file
    ensures grown[..start] + (grown[start..][..|file| - start] + data) == file + data
  {
  }

  lemma AppendedIs(file: Raw, data: Raw)
    requires Formatted(file) && |file| + |data| < MAX_FILE
    ensures Appended(file, data) == WithEnd(file + data, |file| + |data|)
  {
  }

  function PageStart(offset: nat, page: nat): (start: nat)
    requires page > 0
    ensures start <= offset < start + page
  {
    DivMul(offset, page);
    offset / page * page
  }

  lemma DivMul(offset: nat, page: nat)
    requires page > 0
    ensures 0 <= offset / page * page <= offset < offset / page * page + page
  {
    assert offset == offset / page * page + offset % page;
  }

  lemma PrintStep<K>(c: Crypto<K>, txs: seq<Tx<K>>, i: nat, raw: Raw)
    requires i < |txs|
    ensures raw + PrintTxs(c, txs[i..]) == raw + Export(c, txs[i]) + PrintTxs(c, txs[i + 1..])
  {
    hide Export;
    assert txs[i..][1..] == txs[i + 1..];
    var a, b := Export(c, txs[i]), PrintTxs(c, txs[i + 1..]);
    assert PrintTxs(c, txs[i..]) == a + b;
    assert raw + (a + b) == raw + a + b;
  }

  /** Prints header and coinbase, then each transaction in turn. */
  method ExportRawFormated<K>(c: Crypto<K>, magic: Word, b: Block<K>) returns (raw: Option<Raw>)
    ensures raw == PrintContainer(c, magic, b)
  {
    hide Export, PrintCoinbase, PrintHeader;
    var header, coinbase := PrintHeader(b.header), PrintCoinbase(b.coinbase);
    if coinbase.None? { return None; }
    var txs := [];
    var i := 0;
    assert txs + PrintTxs(c, b.txs[0..]) == PrintTxs(c, b.txs) by { assert b.txs[0..] == b.txs; }
    while i < |b.txs|
      invariant 0 <= i <= |b.txs| && txs + PrintTxs(c, b.txs[i..]) == PrintTxs(c, b.txs)
    {
      PrintStep(c, b.txs, i, txs);
      txs := txs + Export(c, b.txs[i]);
      i := i + 1;
    }
    assert txs == PrintTxs(c, b.txs) by { assert b.txs[i..] == []; }
    var body := header + coinbase.value + txs;
    raw := Some(Meta(magic, META_SIZE + |body|, |b.txs|) + body);
  }

  /** Reads header and coinbase, then so many transactions. */
  method ImportBlockSequentially<K>(c: Crypto<K>, raw: Raw, count: nat) returns (b: Option<Block<K>>)
    ensures b.Some? <==> ParseBody(c, raw, count).Some?
    ensures b.Some? ==> b.value == ParseBody(c, raw, count).value.0
  {
    hide ParseHeader, ParseCoinbase, ParseTxs;
    var header := ParseHeader(raw);
    if header.None? { return None; }
    if |raw| < HEADER_SIZE { return None; }
    var coinbase := ParseCoinbase(raw[HEADER_SIZE..]);
    if coinbase.None? { return None; }
    var n := HEADER_SIZE + coinbase.value.1;
    if |raw| < n { return None; }
    var txs := ImportTxs(c, raw[n..], count);
    if txs.None? { return None; }
    b := Some(Block(header.value, coinbase.value.0, txs.value.0));
  }

  method ImportTxs<K>(c: Crypto<K>, raw: Raw, count: nat) returns (r: Read<seq<Tx<K>>>)
    ensures r == ParseTxs(c, raw, count)
  {
    hide *;
    var rest, at: nat, i := raw, 0, 0;
    var read: seq<Tx<K>> := [];
    InsNone(ParseTxs(c, raw, count));
    while i < count
      invariant 0 <= i <= count
      invariant ParseTxs(c, raw, count) == After(read, at, ParseTxs(c, rest, count - i))
    {
      TxsStep(c, rest, at, count - i, read);
      var first := ParseTx(c, rest);
      if first.None? || |rest| < first.value.1 { return None; }
      read := read + [first.value.0];
      rest, at, i := rest[first.value.1..], at + first.value.1, i + 1;
    }
    NoTxs(c, rest);
    AfterNone(read, at);
    r := Some((read, at));
  }

  lemma NoTxs<K>(c: Crypto<K>, b: Raw)
    ensures ParseTxs(c, b, 0) == Some(([], 0))
  {
  }

  lemma TxsStep<K>(c: Crypto<K>, raw: Raw, at: nat, count: nat, read: seq<Tx<K>>)
    requires count > 0
    ensures var r := ParseTx(c, raw);
            After(read, at, ParseTxs(c, raw, count))
              == if r.None? || |raw| < r.value.1 then None
                 else After(read + [r.value.0], at + r.value.1, ParseTxs(c, raw[r.value.1..], count - 1))
  {
    hide ParseTx;
    var r := ParseTx(c, raw);
    if r.Some? && r.value.1 <= |raw| {
      var rest := ParseTxs(c, raw[r.value.1..], count - 1);
      if rest.Some? { assert read + ([r.value.0] + rest.value.0) == read + [r.value.0] + rest.value.0; }
    }
  }
}
