/** The FTL payload: its fields stay apart, it carries the committed table's digest, committing keeps its integrity. */
module FtlTheorems {
  import opened Wrappers
  import opened Bytes
  import opened Geometry
  import opened FieldCodec
  import opened Metadata
  import opened MetadataTheorems
  import Checksum

  /** No byte of any field, the digest, the checksum or the commit marker. */
  predicate FtlUnclaimed(l: FtlLayout, at: nat)
    requires FtlLayoutValid(l)
  {
    && !(l.generation.offset <= at < l.generation.offset + l.generation.width)
    && !(l.userBlocks.offset <= at < l.userBlocks.offset + l.userBlocks.width)
    && !(l.spareBlocks.offset <= at < l.spareBlocks.offset + l.spareBlocks.width)
    && !(l.digestOffset <= at < l.digestOffset + DIGEST_BYTES)
    && !InField(l.checksum, at)
    && at != l.commitOffset
  }

  function Parts(l: FtlLayout): seq<Span>
    requires FtlLayoutValid(l)
  {
    [SpanOf(l.generation), SpanOf(l.userBlocks), SpanOf(l.spareBlocks),
     Span(l.digestOffset, DIGEST_BYTES), ChecksumSpan(l.checksum), Span(l.commitOffset, 1)]
  }

  lemma PartsApart(l: FtlLayout)
    requires FtlLayoutValid(l)
    ensures forall i, j :: 0 <= i < j < 6 ==> Apart(Parts(l)[i], Parts(l)[j])
  {
  }

  /** The parts of an FTL payload are apart. */
  lemma FtlPartsApart(l: FtlLayout)
    requires FtlLayoutValid(l)
    ensures Apart(SpanOf(l.generation), SpanOf(l.userBlocks)) && Apart(SpanOf(l.generation), SpanOf(l.spareBlocks))
    ensures Apart(SpanOf(l.generation), Span(l.digestOffset, DIGEST_BYTES))
    ensures Apart(SpanOf(l.generation), ChecksumSpan(l.checksum))
            && Apart(SpanOf(l.generation), Span(l.commitOffset, 1))
    ensures Apart(SpanOf(l.userBlocks), SpanOf(l.spareBlocks))
    ensures Apart(SpanOf(l.userBlocks), Span(l.digestOffset, DIGEST_BYTES))
    ensures Apart(SpanOf(l.userBlocks), ChecksumSpan(l.checksum))
            && Apart(SpanOf(l.userBlocks), Span(l.commitOffset, 1))
    ensures Apart(SpanOf(l.spareBlocks), Span(l.digestOffset, DIGEST_BYTES))
    ensures Apart(SpanOf(l.spareBlocks), ChecksumSpan(l.checksum))
            && Apart(SpanOf(l.spareBlocks), Span(l.commitOffset, 1))
    ensures Apart(Span(l.digestOffset, DIGEST_BYTES), ChecksumSpan(l.checksum))
    ensures Apart(Span(l.digestOffset, DIGEST_BYTES), Span(l.commitOffset, 1))
    ensures Apart(ChecksumSpan(l.checksum), Span(l.commitOffset, 1))
  {
    PartsApart(l);
    hide Apart, RangesDisjoint, Checksum.Width;
    var p := Parts(l);
    assert Apart(p[0], p[1]) && Apart(p[0], p[2]) && Apart(p[0], p[3]) && Apart(p[0], p[4]) && Apart(p[0], p[5]);
    assert Apart(p[1], p[2]) && Apart(p[1], p[3]) && Apart(p[1], p[4]) && Apart(p[1], p[5]);
    assert Apart(p[2], p[3]) && Apart(p[2], p[4]) && Apart(p[2], p[5]);
    assert Apart(p[3], p[4]) && Apart(p[3], p[5]) && Apart(p[4], p[5]);
  }

  /** The fields, the digest and the template bytes of an FTL payload, each in its own bytes. */
  predicate FtlBodyHolds(t: seq<byte>, v: FtlValues, digest: seq<byte>, l: FtlLayout)
    requires FtlLayoutValid(l)
  {
    && |t| == l.totalBytes
    && GetField(t, l.generation) == Ok(v.generation)
    && GetField(t, l.userBlocks) == Ok(v.userBlocks)
    && GetField(t, l.spareBlocks) == Ok(v.spareBlocks)
    && t[l.digestOffset..l.digestOffset + DIGEST_BYTES] == digest
    && forall at :: 0 <= at < |t| && FtlUnclaimed(l, at) ==> t[at] == if at < |l.header| then l.header[at] else l.fill
  }

  /** Everything an FTL payload says, with commit marker `marker`. */
  predicate FtlHolds(t: seq<byte>, marker: byte, v: FtlValues, digest: seq<byte>, l: FtlLayout)
    requires FtlLayoutValid(l)
  {
    FtlBodyHolds(t, v, digest, l) && t[l.commitOffset] == marker && ChecksumValid(t, l.checksum)
  }

  lemma FtlBodyIsWhole(v: FtlValues, bbt: seq<byte>, table: TableLayout, l: FtlLayout, h: Hash)
    requires FtlLayoutValid(l) && h.Sound() && table.commitOffset < |bbt| && FtlBody(v, bbt, table, l, h).Ok?
    ensures FtlBodyHolds(FtlBody(v, bbt, table, l, h).value, v,
                         h.digest(Committed(bbt, table.commitOffset, table.commitValue)), l)
  {
    hide PutField, GetField, ChecksumValid, RangesDisjoint, Checksum.Width, Committed;
    var blank := l.header + Filled(l.fill, l.totalBytes - |l.header|);
    var b1 := PutField(blank, l.generation, v.generation).value;
    var b2 := PutField(b1, l.userBlocks, v.userBlocks).value;
    var b3 := PutField(b2, l.spareBlocks, v.spareBlocks).value;
    var body := FtlBody(v, bbt, table, l, h).value;
    FtlPartsApart(l);
    FieldAfterPut(blank, l.generation, v.generation);
    FieldAfterPut(b1, l.userBlocks, v.userBlocks);
    FieldAfterPut(b2, l.spareBlocks, v.spareBlocks);
    FieldFrame(b1, body, l.generation);
    FieldFrame(b2, body, l.userBlocks);
    FieldFrame(b3, body, l.spareBlocks);
  }

  /**
   * A built FTL payload holds its three numbers, the digest of the committed table, its marker and a valid checksum.
   */
  lemma BuiltFtlHolds(v: FtlValues, bbt: seq<byte>, table: TableLayout, l: FtlLayout, h: Hash)
    requires FtlLayoutValid(l) && h.Sound() && FtlBytes(v, bbt, table, l, h).Ok?
    ensures table.commitOffset < |bbt|
    ensures FtlHolds(FtlBytes(v, bbt, table, l, h).value, l.prepareValue, v,
                     h.digest(Committed(bbt, table.commitOffset, table.commitValue)), l)
  {
    hide GetField, Checksummed, ChecksumValid, RangesDisjoint, Checksum.Width, FtlBody;
    var body := FtlBody(v, bbt, table, l, h).value;
    var t := FtlBytes(v, bbt, table, l, h).value;
    FtlBodyIsWhole(v, bbt, table, l, h);
    FtlPartsApart(l);
    ChecksummedIsValid(body[l.commitOffset := l.prepareValue], l.checksum);
    FieldFrame(body, t, l.generation);
    FieldFrame(body, t, l.userBlocks);
    FieldFrame(body, t, l.spareBlocks);
  }

  /** Changing the commit marker, and nothing else, keeps everything an FTL payload says and its checksum. */
  lemma CommitKeepsFtl(t: seq<byte>, marker: byte, flipped: byte, v: FtlValues, digest: seq<byte>, l: FtlLayout)
    requires FtlLayoutValid(l) && FtlHolds(t, marker, v, digest, l)
    ensures FtlHolds(Committed(t, l.commitOffset, flipped), flipped, v, digest, l)
  {
    hide GetField, ChecksumValid, RangesDisjoint, Checksum.Width;
    var u := Committed(t, l.commitOffset, flipped);
    FtlPartsApart(l);
    FieldFrame(t, u, l.generation);
    FieldFrame(t, u, l.userBlocks);
    FieldFrame(t, u, l.spareBlocks);
    UncoveredByteIsFree(t, l.checksum, l.commitOffset, flipped);
  }

  datatype Digests = Digests(bbt: seq<byte>, ftl: seq<byte>)

  /** The digests reported for the pair of payloads once both are committed. */
  function MetadataDigests(
    blocks: seq<Block>, v: FtlValues, table: TableLayout, l: FtlLayout, g: NandGeometry, h: Hash): Result<Digests>
    requires g.HasPlanes() && TableLayoutValid(table) && FtlLayoutValid(l)
    requires forall b :: |h.digest(b)| == DIGEST_BYTES
  {
    var bbt :- BbtBytes(blocks, v.generation, table, g);
    var ftl :- FtlBytes(v, bbt, table, l, h);
    FtlSize(v, bbt, table, l, h);
    Ok(Digests(h.digest(Committed(bbt, table.commitOffset, table.commitValue)),
               h.digest(Committed(ftl, l.commitOffset, l.commitValue))))
  }

  lemma FtlSize(v: FtlValues, bbt: seq<byte>, table: TableLayout, l: FtlLayout, h: Hash)
    requires FtlLayoutValid(l) && h.Sound() && FtlBytes(v, bbt, table, l, h).Ok?
    ensures |FtlBytes(v, bbt, table, l, h).value| == l.totalBytes && l.commitOffset < l.totalBytes
    ensures table.commitOffset < |bbt|
  {
    hide GetField, ChecksumValid, RangesDisjoint, Checksum.Width, FtlBytes, FtlUnclaimed;
    BuiltFtlHolds(v, bbt, table, l, h);
  }

  /** Prepared or committed, the FTL payload carries the very table digest that is reported. */
  lemma FtlCarriesReportedDigest(
    blocks: seq<Block>, v: FtlValues, table: TableLayout, l: FtlLayout, g: NandGeometry, h: Hash, marker: byte)
    requires g.HasPlanes() && TableLayoutValid(table) && FtlLayoutValid(l) && h.Sound()
    requires MetadataDigests(blocks, v, table, l, g, h).Ok? && marker in {l.prepareValue, l.commitValue}
    ensures var bbt := BbtBytes(blocks, v.generation, table, g).value;
            var ftl := FtlBytes(v, bbt, table, l, h).value;
            && l.commitOffset < |ftl|
            && FtlHolds(Committed(ftl, l.commitOffset, marker), marker, v,
                        MetadataDigests(blocks, v, table, l, g, h).value.bbt, l)
  {
    hide FtlBytes, BbtBytes, TableLayoutValid, FtlHolds;
    var bbt := BbtBytes(blocks, v.generation, table, g).value;
    var ftl := FtlBytes(v, bbt, table, l, h).value;
    FtlSize(v, bbt, table, l, h);
    BuiltFtlHolds(v, bbt, table, l, h);
    CommitKeepsFtl(ftl, l.prepareValue, marker, v, h.digest(Committed(bbt, table.commitOffset, table.commitValue)), l);
  }
}
