/** Writing an ONFI parameter page, field by field at its offset, and reading the geometry back from it. */
module OnfiPage {
  import opened Wrappers
  import opened Bytes
  import opened Onfi
  import Checksum
  import ChecksumMeaning

  function Half(v: nat): (s: seq<bv8>)
    requires v < 0x1_0000
    ensures |s| == 2
  {
    [Checksum.Bits8(v % 256), Checksum.Bits8(v / 256)]
  }

  function Full(v: nat): (s: seq<bv8>)
    requires v < 0x1_0000_0000
    ensures |s| == 4
  {
    Half(v % 0x1_0000) + Half(v / 0x1_0000)
  }

  /** A geometry that a page can carry; `planes` is the number of interleaved address bits. */
  predicate Writable(g: Geometry, planes: byte) {
    && 0 < g.revision < 0x1_0000 && |g.manufacturer| == 12 && |g.model| == 20
    && 2048 <= g.pageBytes && 0 < g.oobBytes < 0x1_0000 && g.pageBytes + g.oobBytes <= 0x8FE0
    && 0 < g.pagesPerBlock < 0x1_0000_0000 && 0 < g.blocksPerLun < 0x1_0000_0000 && g.luns > 0
    && 1 <= g.columnCycles <= 4 && 1 <= g.rowCycles <= 5 && g.bitsPerCell > 0 && g.maximumBadBlocks < 0x1_0000
    && planes <= 8 && g.planesPerLun == PowerOfTwo(planes) && !g.wideBus
  }

  /** The planes that each number of address bits makes. */
  lemma PlaneCounts()
    ensures PowerOfTwo(0) == 1 && PowerOfTwo(1) == 2 && PowerOfTwo(2) == 4 && PowerOfTwo(3) == 8 && PowerOfTwo(4) == 16
    ensures PowerOfTwo(5) == 32 && PowerOfTwo(6) == 64 && PowerOfTwo(7) == 128 && PowerOfTwo(8) == 256
  {
    assert PowerOfTwo(4) == 16;
  }

  /** The covered bytes of the page; what the host does not read comes from `t`. */
  function Covered(g: Geometry, planes: byte, t: seq<bv8>): (s: seq<bv8>)
    requires Writable(g, planes) && |t| == 256
    ensures |s| == 254
  {
    [0x4F, 0x4E, 0x46, 0x49] + Half(g.revision) + t[6..32] + g.manufacturer + g.model
    + [Checksum.Bits8(g.jedecId)] + t[65..80]
    + Full(g.pageBytes) + Half(g.oobBytes) + t[86..92] + Full(g.pagesPerBlock) + Full(g.blocksPerLun)
    + [Checksum.Bits8(g.luns), Checksum.Bits8(16 * g.rowCycles + g.columnCycles), Checksum.Bits8(g.bitsPerCell)]
    + Half(g.maximumBadBlocks) + t[105..112]
    + [Checksum.Bits8(g.eccBits), Checksum.Bits8(planes)] + t[114..254]
  }

  function LowHalf(crc: bv16): bv8 { (crc & 0xFF) as bv8 }

  function HighHalf(crc: bv16): bv8 { (crc >> 8) as bv8 }

  /** The page with its CRC, low byte first. */
  function EncodePage(g: Geometry, planes: byte, t: seq<bv8>): (s: seq<bv8>)
    requires Writable(g, planes) && |t| == 256
    ensures |s| == 256
  {
    var covered := Covered(g, planes, t);
    var crc := Checksum.OnfiFrom(0x4F4E, covered);
    covered + [LowHalf(crc), HighHalf(crc)]
  }

  lemma StoredHalves(crc: bv16)
    ensures Stored(LowHalf(crc), HighHalf(crc)) == crc
  {
  }

  lemma ByteReads(page: seq<bv8>, at: nat, v: byte)
    requires at < |page| && page[at] == Checksum.Bits8(v)
    ensures At(page, at) == v
  {
    hide Checksum.Bits8, Checksum.ByteFrom;
    ChecksumMeaning.CountedIs(v);
    Checksum.BitsOfByte(ChecksumMeaning.Counted(v));
  }

  lemma HalfReads(page: seq<bv8>, at: nat, v: nat)
    requires at + 2 <= |page| && v < 0x1_0000 && page[at..at + 2] == Half(v)
    ensures Le16At(page, at) == v
  {
    hide Checksum.Bits8, Checksum.ByteFrom;
    assert page[at] == page[at..at + 2][0] && page[at + 1] == page[at..at + 2][1];
    ByteReads(page, at, v % 256);
    ByteReads(page, at + 1, v / 256);
  }

  lemma FullReads(page: seq<bv8>, at: nat, v: nat)
    requires at + 4 <= |page| && v < 0x1_0000_0000 && page[at..at + 4] == Full(v)
    ensures Le32At(page, at) == v
  {
    hide Half, Le16At;
    assert page[at..at + 2] == page[at..at + 4][..2] && page[at + 2..at + 4] == page[at..at + 4][2..];
    HalfReads(page, at, v % 0x1_0000);
    HalfReads(page, at + 2, v / 0x1_0000);
  }

  /** Where the fields stand, and that the CRC covers them all. */
  lemma FieldsStand(g: Geometry, planes: byte, t: seq<bv8>)
    requires Writable(g, planes) && |t| == 256
    ensures var p := Covered(g, planes, t);
            && p[..4] == [0x4F, 0x4E, 0x46, 0x49] && p[4..6] == Half(g.revision) && p[6..8] == t[6..8]
            && p[32..44] == g.manufacturer && p[44..64] == g.model && p[64] == Checksum.Bits8(g.jedecId)
            && p[80..84] == Full(g.pageBytes) && p[84..86] == Half(g.oobBytes)
            && p[92..96] == Full(g.pagesPerBlock) && p[96..100] == Full(g.blocksPerLun)
            && p[100] == Checksum.Bits8(g.luns) && p[101] == Checksum.Bits8(16 * g.rowCycles + g.columnCycles)
            && p[102] == Checksum.Bits8(g.bitsPerCell) && p[103..105] == Half(g.maximumBadBlocks)
            && p[112] == Checksum.Bits8(g.eccBits) && p[113] == Checksum.Bits8(planes)
  {
    hide Half, Full, Checksum.Bits8, PowerOfTwo;
    assert t[6..32][..2] == t[6..8];
    var p := Covered(g, planes, t);
    assert p[6..32] == t[6..32] && p[6..8] == p[6..32][..2];
  }

  lemma PrefixSlices(p: seq<bv8>, page: seq<bv8>, n: nat)
    requires |p| == 254 && |page| == 256 && page[..254] == p && n == 114
    ensures forall i :: 0 <= i < n ==> page[..n][i] == p[i]
    ensures forall from, to :: 0 <= from <= to <= n ==> page[..n][from..to] == p[from..to]
  {
    assert page[..n] == p[..n];
  }

  /** What is written is read back: every field of the geometry comes from its own bytes. */
  lemma ParseAfterEncode(g: Geometry, planes: byte, t: seq<bv8>)
    requires Writable(g, planes) && |t| == 256 && Le16At(t, 6) % 2 == 0
    ensures ParsePage(EncodePage(g, planes, t), g.copy) == Ok(g)
  {
    hide Half, Full, Checksum.Bits8, PowerOfTwo, Covered, Le16At, Le32At, At, LowHalf, HighHalf, Stored,
      Checksum.OnfiFrom;
    var p, page := Covered(g, planes, t), EncodePage(g, planes, t);
    var f := page[..FIELD_BYTES];
    assert page[..254] == p;
    FieldsStand(g, planes, t);
    PrefixSlices(p, page, FIELD_BYTES);
    StoredHalves(Checksum.OnfiFrom(0x4F4E, p));
    assert page[..4] == p[..4];
    HalfReads(f, 4, g.revision);
    HalfReads(f, 84, g.oobBytes);
    HalfReads(f, 103, g.maximumBadBlocks);
    FullReads(f, 80, g.pageBytes);
    FullReads(f, 92, g.pagesPerBlock);
    FullReads(f, 96, g.blocksPerLun);
    ByteReads(f, 64, g.jedecId);
    ByteReads(f, 100, g.luns);
    ByteReads(f, 101, 16 * g.rowCycles + g.columnCycles);
    ByteReads(f, 102, g.bitsPerCell);
    ByteReads(f, 112, g.eccBits);
    ByteReads(f, 113, planes);
    SameHalf(f, t);
    Nibbles(g.rowCycles, g.columnCycles);
  }

  lemma SameHalf(f: seq<bv8>, t: seq<bv8>)
    requires |f| >= 8 && |t| >= 8 && f[6..8] == t[6..8]
    ensures Le16At(f, 6) == Le16At(t, 6)
  {
    assert f[6] == f[6..8][0] && f[7] == f[6..8][1] && t[6] == t[6..8][0] && t[7] == t[6..8][1];
  }

  lemma Nibbles(high: nat, low: nat)
    requires low < 16
    ensures (16 * high + low) % 16 == low && (16 * high + low) / 16 == high
  {
  }

  /** And only such pages are accepted: the accepted geometries are the writable ones. */
  lemma ParsedIsWritable(page: seq<bv8>, copy: nat)
    requires ParsePage(page, copy).Ok?
    ensures Writable(ParsePage(page, copy).value, At(page, 113)) && ParsePage(page, copy).value.copy == copy
    ensures page[..4] == [0x4F, 0x4E, 0x46, 0x49] && Le16At(page, 6) % 2 == 0
  {
    hide CrcHolds, At, PowerOfTwo;
    assert At(page[..FIELD_BYTES], 113) == At(page, 113) && Le16At(page[..FIELD_BYTES], 6) == Le16At(page, 6) by {
      SamePrefix(page);
    }
  }

  lemma SamePrefix(page: seq<bv8>)
    requires |page| == 256
    ensures At(page[..FIELD_BYTES], 113) == At(page, 113) && Le16At(page[..FIELD_BYTES], 6) == Le16At(page, 6)
  {
  }
}
