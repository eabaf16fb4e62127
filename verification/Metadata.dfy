/** Bad-block table and FTL payloads: building them, and decoding a table. */
module Metadata {
  import opened Wrappers
  import opened Bytes
  import opened Geometry
  import opened FieldCodec
  import Checksum

  const DIGEST_BYTES: nat := 32

  datatype Disposition =
    | Unknown | FactoryBad | HistoricalRuntimeBad | SystemPreserved | SystemRebuild
    | Data | Erased | Qualified | Quarantined

  datatype Block = Block(flat: u64, disposition: Disposition)

  datatype ChecksumLayout = ChecksumLayout(
    algorithm: Checksum.Algorithm, offset: u32, endian: Endian, start: u32, length: u32)

  /** Layout of a table to write; the header is given decoded. */
  datatype TableLayout = TableLayout(
    header: seq<byte>, fill: byte, stride: u32, address: AddressLayout, stateOffset: u32,
    factoryBadValue: byte, quarantinedValue: byte, systemValue: byte,
    generation: IntegerLayout, count: IntegerLayout, checksum: ChecksumLayout,
    commitOffset: u32, prepareValue: byte, commitValue: byte, maximumBytes: u32)

  datatype FtlLayout = FtlLayout(
    header: seq<byte>, fill: byte, generation: IntegerLayout, userBlocks: IntegerLayout, spareBlocks: IntegerLayout,
    digestOffset: u32, checksum: ChecksumLayout,
    commitOffset: u32, prepareValue: byte, commitValue: byte, totalBytes: u32)

  /** Layout of a table to read. */
  datatype InputLayout = InputLayout(
    count: IntegerLayout, entriesOffset: u32, stride: u32, address: AddressLayout, stateOffset: u32,
    factoryBadValues: seq<byte>, runtimeBadValues: seq<byte>, systemValues: seq<byte>, maximumEntries: u32)

  // ----- Acceptable layouts -----

  predicate FieldFits(f: IntegerLayout, len: nat) { WidthValid(f.width) && RangeFits(f.offset, f.width, len) }

  function ChecksumSpan(c: ChecksumLayout): Span
    requires Checksum.Width(c.algorithm).Some?
  {
    Span(c.offset, Checksum.Width(c.algorithm).value)
  }

  predicate CoverageValid(c: ChecksumLayout, total: nat, commitOffset: nat) {
    && c.length != 0 && c.start + c.length <= total
    && !(c.start <= commitOffset < c.start + c.length)
  }

  function AddressSpans(a: AddressLayout, stateOffset: nat): seq<Span> {
    Spans(Fields(a)) + [Span(stateOffset, 1)]
  }

  predicate TableLayoutValid(l: TableLayout) {
    && Checksum.Width(l.checksum.algorithm).Some?
    && 0 < l.maximumBytes <= MAX_COMMAND_TRANSFER
    && l.stride != 0
    && AddressLayoutValid(l.address, l.stride)
    && l.stateOffset < l.stride
    && RangesDisjoint(AddressSpans(l.address, l.stateOffset))
    && |l.header| <= l.maximumBytes
    && FieldFits(l.generation, |l.header|) && FieldFits(l.count, |l.header|)
    && RangeFits(l.checksum.offset, Checksum.Width(l.checksum.algorithm).value, |l.header|)
    && l.commitOffset < |l.header|
    && l.prepareValue != l.commitValue
    && RangesDisjoint([SpanOf(l.generation), SpanOf(l.count), ChecksumSpan(l.checksum), Span(l.commitOffset, 1)])
    && CoverageValid(l.checksum, l.maximumBytes, l.commitOffset)
  }

  predicate FtlLayoutValid(l: FtlLayout) {
    && Checksum.Width(l.checksum.algorithm).Some?
    && 0 < l.totalBytes <= MAX_COMMAND_TRANSFER
    && |l.header| <= l.totalBytes
    && FieldFits(l.generation, l.totalBytes) && FieldFits(l.userBlocks, l.totalBytes)
    && FieldFits(l.spareBlocks, l.totalBytes)
    && RangeFits(l.digestOffset, DIGEST_BYTES, l.totalBytes)
    && RangeFits(l.checksum.offset, Checksum.Width(l.checksum.algorithm).value, l.totalBytes)
    && l.commitOffset < l.totalBytes
    && l.prepareValue != l.commitValue
    && RangesDisjoint([SpanOf(l.generation), SpanOf(l.userBlocks), SpanOf(l.spareBlocks),
                       Span(l.digestOffset, DIGEST_BYTES), ChecksumSpan(l.checksum), Span(l.commitOffset, 1)])
    && CoverageValid(l.checksum, l.totalBytes, l.commitOffset)
  }

  predicate DisjointValues(a: seq<byte>, b: seq<byte>) { forall v :: v in a ==> v !in b }

  predicate InputLayoutValid(l: InputLayout) {
    && WidthValid(l.count.width)
    && l.stride != 0 && l.maximumEntries != 0
    && AddressLayoutValid(l.address, l.stride)
    && l.stateOffset < l.stride
    && RangesDisjoint(AddressSpans(l.address, l.stateOffset))
    && l.factoryBadValues != [] && l.runtimeBadValues != [] && l.systemValues != []
    && DisjointValues(l.factoryBadValues, l.runtimeBadValues)
    && DisjointValues(l.factoryBadValues, l.systemValues)
    && DisjointValues(l.runtimeBadValues, l.systemValues)
  }

  // ----- Checksums -----

  function Zeroed(buf: seq<byte>, c: ChecksumLayout): Result<seq<byte>> {
    match Checksum.Width(c.algorithm)
    case None => Err(Invalid)
    case Some(width) => PutInteger(buf, c.offset, width, c.endian, 0)
  }

  /** The checksum over the covered bytes, with the checksum field itself read as zero. */
  function Computed(buf: seq<byte>, c: ChecksumLayout): Result<nat> {
    var zeroed :- Zeroed(buf, c);
    if c.start + c.length > |zeroed| then Err(Invalid)
    else Checksum.ChecksumValue(c.algorithm, zeroed[c.start..c.start + c.length])
  }

  function Checksummed(buf: seq<byte>, c: ChecksumLayout): Result<seq<byte>> {
    var zeroed :- Zeroed(buf, c);
    var value :- Computed(buf, c);
    PutInteger(zeroed, c.offset, Checksum.Width(c.algorithm).value, c.endian, value)
  }

  /** The stored checksum is the checksum of the payload. */
  predicate ChecksumValid(buf: seq<byte>, c: ChecksumLayout) {
    && Checksum.Width(c.algorithm).Some?
    && Computed(buf, c).Ok?
    && GetInteger(buf, c.offset, Checksum.Width(c.algorithm).value, c.endian) == Computed(buf, c)
  }

  method WriteChecksum(buf: array<byte>, c: ChecksumLayout) returns (r: Result<()>)
    modifies buf
    ensures match Checksummed(old(buf[..]), c)
            case Ok(after) => r == Ok(()) && buf[..] == after
            case Err(_) => r.Err?
  {
    hide PutInteger, Checksum.WordValue, Checksum.Words, Checksum.Width;
    var width := Checksum.Width(c.algorithm);
    if width.None? {
      return Err(Invalid);
    }
    var zeroed := WriteInteger(buf, c.offset, width.value, c.endian, 0);
    if zeroed.Err? {
      return zeroed;
    }
    if c.start + c.length > buf.Length {
      return Err(Invalid);
    }
    var value := Checksum.ComputeChecksum(c.algorithm, buf[c.start..c.start + c.length]);
    r := WriteInteger(buf, c.offset, width.value, c.endian, value.value);
  }

  // ----- The bad-block table -----

  predicate Listed(d: Disposition) {
    d in {FactoryBad, HistoricalRuntimeBad, Quarantined, SystemPreserved, SystemRebuild}
  }

  function Filtered(blocks: seq<Block>): seq<Block> {
    if blocks == [] then []
    else Filtered(blocks[..|blocks| - 1])
         + if Listed(blocks[|blocks| - 1].disposition) then [blocks[|blocks| - 1]] else []
  }

  /** Insert after every block that is not larger. */
  function Insert(sorted: seq<Block>, b: Block): seq<Block> {
    if sorted == [] || sorted[|sorted| - 1].flat <= b.flat then sorted + [b]
    else Insert(sorted[..|sorted| - 1], b) + [sorted[|sorted| - 1]]
  }

  /** The stable sort by flat number. */
  function SortByFlat(blocks: seq<Block>): seq<Block> {
    if blocks == [] then [] else Insert(SortByFlat(blocks[..|blocks| - 1]), blocks[|blocks| - 1])
  }

  function Entries(blocks: seq<Block>): seq<Block> { SortByFlat(Filtered(blocks)) }

  function StateValue(d: Disposition, l: TableLayout): byte {
    match d
    case FactoryBad => l.factoryBadValue
    case SystemPreserved => l.systemValue
    case SystemRebuild => l.systemValue
    case _ => l.quarantinedValue
  }

  function EntryBase(start: nat, stride: nat, k: nat): nat { start + k * stride }

  function PutEntry(buf: seq<byte>, base: nat, b: Block, l: TableLayout, g: NandGeometry): (r: Result<seq<byte>>)
    requires g.HasPlanes() && TableLayoutValid(l) && base + l.stride <= |buf|
    ensures r.Ok? ==> |r.value| == |buf|
  {
    var addressed :- EncodeBlockAddress(buf, base, l.address, b.flat, g);
    Ok(addressed[base + l.stateOffset := StateValue(b.disposition, l)])
  }

  lemma EntriesFit(start: nat, stride: nat, k: nat, n: nat)
    requires k < n
    ensures EntryBase(start, stride, k) + stride <= EntryBase(start, stride, n)
  {
    Distribute(n, k + 1, stride);
    Distribute(k + 1, k, stride);
    if n > k + 1 {
      AtLeastOnce(n - (k + 1), stride);
    }
  }

  function PutEntries(buf: seq<byte>, entries: seq<Block>, l: TableLayout, g: NandGeometry): (r: Result<seq<byte>>)
    requires g.HasPlanes() && TableLayoutValid(l) && EntryBase(|l.header|, l.stride, |entries|) <= |buf|
    ensures r.Ok? ==> |r.value| == |buf|
  {
    if entries == [] then Ok(buf)
    else
      var k := |entries| - 1;
      EntriesFit(|l.header|, l.stride, k, |entries|);
      var before :- PutEntries(buf, entries[..k], l, g);
      PutEntry(before, EntryBase(|l.header|, l.stride, k), entries[k], l, g)
  }

  function PutField(buf: seq<byte>, f: IntegerLayout, value: nat): (r: Result<seq<byte>>)
    requires WidthValid(f.width)
    ensures r.Ok? ==> |r.value| == |buf|
  {
    PutInteger(buf, f.offset, f.width, f.endian, value)
  }

  function GetField(buf: seq<byte>, f: IntegerLayout): Result<nat>
    requires WidthValid(f.width)
  {
    GetInteger(buf, f.offset, f.width, f.endian)
  }

  /** The table before its commit byte and checksum. */
  function TableBody(blocks: seq<Block>, generation: u64, l: TableLayout, g: NandGeometry): (r: Result<seq<byte>>)
    requires g.HasPlanes() && TableLayoutValid(l)
    ensures r.Ok? ==> |r.value| == l.maximumBytes
  {
    var entries := Entries(blocks);
    if EntryBase(|l.header|, l.stride, |entries|) > l.maximumBytes then Err(Invalid)
    else
      var blank := l.header + Filled(l.fill, l.maximumBytes - |l.header|);
      var numbered :- PutField(blank, l.generation, generation);
      var counted :- PutField(numbered, l.count, |entries|);
      PutEntries(counted, entries, l, g)
  }

  function BbtBytes(blocks: seq<Block>, generation: u64, l: TableLayout, g: NandGeometry): Result<seq<byte>>
    requires g.HasPlanes() && TableLayoutValid(l)
  {
    var body :- TableBody(blocks, generation, l, g);
    Checksummed(body[l.commitOffset := l.prepareValue], l.checksum)
  }

  method BuildBbt(blocks: seq<Block>, generation: u64, l: TableLayout, g: NandGeometry) returns (r: Result<seq<byte>>)
    requires g.HasPlanes() && TableLayoutValid(l)
    ensures match BbtBytes(blocks, generation, l, g)
            case Ok(bytes) => r == Ok(bytes)
            case Err(_) => r.Err?
  {
    hide Entries, Checksummed, PutEntries, PutInteger, RangesDisjoint, CoverageValid, AddressLayoutValid;
    var entries := Entries(blocks);
    if EntryBase(|l.header|, l.stride, |entries|) > l.maximumBytes {
      return Err(Invalid);
    }
    var out := new byte[l.maximumBytes](i requires 0 <= i < l.maximumBytes =>
      if i < |l.header| then l.header[i] else l.fill);
    assert out[..] == l.header + Filled(l.fill, l.maximumBytes - |l.header|);
    var _ :- WriteInteger(out, l.generation.offset, l.generation.width, l.generation.endian, generation);
    var _ :- WriteInteger(out, l.count.offset, l.count.width, l.count.endian, |entries|);
    var _ :- WriteEntries(out, entries, l, g);
    out[l.commitOffset] := l.prepareValue;
    var _ :- WriteChecksum(out, l.checksum);
    return Ok(out[..]);
  }

  method WriteEntries(out: array<byte>, entries: seq<Block>, l: TableLayout, g: NandGeometry) returns (r: Result<()>)
    requires g.HasPlanes() && TableLayoutValid(l) && EntryBase(|l.header|, l.stride, |entries|) <= out.Length
    modifies out
    ensures match PutEntries(old(out[..]), entries, l, g)
            case Ok(after) => r == Ok(()) && out[..] == after
            case Err(_) => r.Err?
  {
    hide EncodeBlockAddress, RangesDisjoint, CoverageValid, EntryBase;
    ghost var start := out[..];
    if entries != [] { EntriesFit(|l.header|, l.stride, 0, |entries|); }
    for k := 0 to |entries|
      invariant EntryBase(|l.header|, l.stride, k) <= out.Length
      invariant PutEntries(start, entries[..k], l, g) == Ok(out[..])
    {
      EntriesFit(|l.header|, l.stride, k, |entries|);
      EntriesFit(|l.header|, l.stride, k, k + 1);
      if k + 1 < |entries| { EntriesFit(|l.header|, l.stride, k + 1, |entries|); }
      assert entries[..k + 1][..k] == entries[..k] && entries[..k + 1][k] == entries[k];
      var base := EntryBase(|l.header|, l.stride, k);
      var addressed := WriteBlockAddress(out, base, l.address, entries[k].flat, g);
      if addressed.Err? {
        RefusedEntries(start, entries, k + 1, l, g);
        return addressed;
      }
      out[base + l.stateOffset] := StateValue(entries[k].disposition, l);
    }
    assert entries[..|entries|] == entries;
    return Ok(());
  }

  lemma {:induction false} RefusedEntries(buf: seq<byte>, entries: seq<Block>, k: nat, l: TableLayout, g: NandGeometry)
    requires g.HasPlanes() && TableLayoutValid(l) && EntryBase(|l.header|, l.stride, |entries|) <= |buf|
    requires k <= |entries| && EntryBase(|l.header|, l.stride, k) <= |buf|
    requires PutEntries(buf, entries[..k], l, g).Err?
    ensures PutEntries(buf, entries, l, g).Err?
    decreases |entries|
  {
    hide TableLayoutValid, PutEntry;
    if k == |entries| {
      assert entries[..k] == entries;
    } else {
      var n := |entries| - 1;
      EntriesFit(|l.header|, l.stride, n, |entries|);
      assert entries[..n][..k] == entries[..k];
      RefusedEntries(buf, entries[..n], k, l, g);
    }
  }

  // ----- Reading a table -----

  function Classified(state: byte, l: InputLayout): Option<Disposition> {
    if state in l.factoryBadValues then Some(FactoryBad)
    else if state in l.runtimeBadValues then Some(HistoricalRuntimeBad)
    else if state in l.systemValues then Some(SystemRebuild)
    else None
  }

  function DecodeEntry(data: seq<byte>, k: nat, l: InputLayout, g: NandGeometry, total: nat): Result<Block>
    requires g.HasPlanes() && InputLayoutValid(l)
  {
    var base := EntryBase(l.entriesOffset, l.stride, k);
    var block :- DecodeBlockAddress(data, base, l.address, g);
    if base + l.stateOffset >= |data| || block >= total || block > 0xFFFF_FFFF_FFFF_FFFF then Err(Invalid)
    else
      match Classified(data[base + l.stateOffset], l)
      case None => Err(Invalid)
      case Some(disposition) => Ok(Block(block, disposition))
  }

  function DecodeEntries(data: seq<byte>, n: nat, l: InputLayout, g: NandGeometry, total: nat): (r: Result<seq<Block>>)
    requires g.HasPlanes() && InputLayoutValid(l)
    ensures r.Ok? ==> |r.value| == n
  {
    if n == 0 then Ok([])
    else
      var before :- DecodeEntries(data, n - 1, l, g, total);
      var entry :- DecodeEntry(data, n - 1, l, g, total);
      if entry.flat in Flats(before) then Err(Invalid) else Ok(before + [entry])
  }

  function Flats(blocks: seq<Block>): set<u64> {
    set b | b in blocks :: b.flat
  }

  function DecodeTable(data: seq<byte>, l: InputLayout, g: NandGeometry): Result<seq<Block>>
    requires g.HasPlanes() && InputLayoutValid(l)
  {
    var total :- TotalBlocks(g);
    var count :- GetField(data, l.count);
    if count > l.maximumEntries || count > total then Err(Invalid)
    else DecodeEntries(data, count, l, g, total)
  }

  method DecodeOldBbt(data: seq<byte>, l: InputLayout, g: NandGeometry) returns (r: Result<seq<Block>>)
    requires g.HasPlanes() && InputLayoutValid(l)
    ensures match DecodeTable(data, l, g)
            case Ok(blocks) => r == Ok(blocks)
            case Err(_) => r.Err?
  {
    hide DecodeBlockAddress, RangesDisjoint, AddressLayoutValid, DisjointValues;
    var total :- TotalBlocks(g);
    var count :- GetField(data, l.count);
    if count > l.maximumEntries || count > total {
      return Err(Invalid);
    }
    var out: seq<Block> := [];
    var seen: set<u64> := {};
    for index := 0 to count
      invariant DecodeEntries(data, index, l, g, total) == Ok(out)
      invariant seen == Flats(out)
    {
      if DecodeEntries(data, index + 1, l, g, total).Err? {
        RefusedDecode(data, index + 1, count, l, g, total);
      }
      var entry :- DecodeEntry(data, index, l, g, total);
      if entry.flat in seen {
        return Err(Invalid);
      }
      seen := seen + {entry.flat};
      out := out + [entry];
    }
    return Ok(out);
  }

  lemma {:induction false} RefusedDecode(data: seq<byte>, k: nat, n: nat, l: InputLayout, g: NandGeometry, total: nat)
    requires g.HasPlanes() && InputLayoutValid(l) && k <= n && DecodeEntries(data, k, l, g, total).Err?
    ensures DecodeEntries(data, n, l, g, total).Err?
    decreases n
  {
    hide DecodeEntry, InputLayoutValid;
    if k < n {
      RefusedDecode(data, k, n - 1, l, g, total);
    }
  }

  // ----- The FTL payload -----

  /** SHA-256, which the payload stores and never computes with. */
  datatype Hash = Hash(digest: seq<byte> -> seq<byte>) {
    ghost predicate Sound() {
      forall b :: |digest(b)| == DIGEST_BYTES
    }
  }

  datatype FtlValues = FtlValues(generation: u64, userBlocks: u64, spareBlocks: u64)

  function Committed(bytes: seq<byte>, offset: nat, value: byte): seq<byte>
    requires offset < |bytes|
  {
    bytes[offset := value]
  }

  /** The payload before its commit byte and checksum; it carries the digest of the committed table. */
  function FtlBody(v: FtlValues, bbt: seq<byte>, table: TableLayout, l: FtlLayout, h: Hash): (r: Result<seq<byte>>)
    requires FtlLayoutValid(l) && table.commitOffset < |bbt|
    requires |h.digest(Committed(bbt, table.commitOffset, table.commitValue))| == DIGEST_BYTES
    ensures r.Ok? ==> |r.value| == l.totalBytes
  {
    var blank := l.header + Filled(l.fill, l.totalBytes - |l.header|);
    var b1 :- PutField(blank, l.generation, v.generation);
    var b2 :- PutField(b1, l.userBlocks, v.userBlocks);
    var b3 :- PutField(b2, l.spareBlocks, v.spareBlocks);
    Ok(Overwrite(b3, l.digestOffset, h.digest(Committed(bbt, table.commitOffset, table.commitValue))))
  }

  function FtlBytes(v: FtlValues, bbt: seq<byte>, table: TableLayout, l: FtlLayout, h: Hash): Result<seq<byte>>
    requires FtlLayoutValid(l)
    requires table.commitOffset < |bbt|
             ==> |h.digest(Committed(bbt, table.commitOffset, table.commitValue))| == DIGEST_BYTES
  {
    if table.commitOffset >= |bbt| then Err(Invalid)
    else
      var body :- FtlBody(v, bbt, table, l, h);
      Checksummed(body[l.commitOffset := l.prepareValue], l.checksum)
  }

  method BuildFtl(v: FtlValues, bbt: seq<byte>, table: TableLayout, l: FtlLayout, h: Hash)
    returns (r: Result<seq<byte>>)
    requires FtlLayoutValid(l) && h.Sound()
    ensures match FtlBytes(v, bbt, table, l, h)
            case Ok(bytes) => r == Ok(bytes)
            case Err(_) => r.Err?
  {
    hide Checksummed, PutInteger, RangesDisjoint, CoverageValid;
    var out := new byte[l.totalBytes](i requires 0 <= i < l.totalBytes =>
      if i < |l.header| then l.header[i] else l.fill);
    assert out[..] == l.header + Filled(l.fill, l.totalBytes - |l.header|);
    var _ :- WriteInteger(out, l.generation.offset, l.generation.width, l.generation.endian, v.generation);
    var _ :- WriteInteger(out, l.userBlocks.offset, l.userBlocks.width, l.userBlocks.endian, v.userBlocks);
    var _ :- WriteInteger(out, l.spareBlocks.offset, l.spareBlocks.width, l.spareBlocks.endian, v.spareBlocks);
    if table.commitOffset >= |bbt| {
      return Err(Invalid);
    }
    var digest := h.digest(Committed(bbt, table.commitOffset, table.commitValue));
    ghost var before := out[..];
    forall i | 0 <= i < DIGEST_BYTES {
      out[l.digestOffset + i] := digest[i];
    }
    assert out[..] == Overwrite(before, l.digestOffset, digest);
    out[l.commitOffset] := l.prepareValue;
    var _ :- WriteChecksum(out, l.checksum);
    return Ok(out[..]);
  }
}
