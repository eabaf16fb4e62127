/** The ordered hash input of a sweep can be read back in only one way. */
module SweepHash {
  import opened Bytes
  import opened Sweep
  import opened SweepRun
  import Metadata

  /** What the hash input says about a page: digests stand for page contents and messages. */
  datatype Heard = HeardRead(digest: seq<byte>, metrics: Metrics) | HeardError(digest: seq<byte>)

  datatype Fact = Fact(flat: nat, page: nat, disposition: Disposition, heard: Heard)

  function FactOf(v: Visit, h: Metadata.Hash): Fact {
    Fact(v.flat, v.page, v.disposition,
         match v.outcome
         case Read(raw, m) => HeardRead(h.digest(raw), m)
         case Failed(message) => HeardError(h.digest(message)))
  }

  function Facts(visits: seq<Visit>, h: Metadata.Hash): (s: seq<Fact>)
    ensures |s| == |visits|
  {
    seq(|visits|, i requires 0 <= i < |visits| => FactOf(visits[i], h))
  }

  /** Flat numbers and pages as the hash input writes them. */
  predicate Wordsized(visits: seq<Visit>) {
    forall i :: 0 <= i < |visits| ==> visits[i].flat <= MAX_U64 && visits[i].page < 0x1_0000_0000
  }

  lemma WordRoundTrip(x: u64)
    ensures FromLittleEndian(LittleEndian(x, 8)) == x
  {
    assert Pow256(4) == 0x1_0000_0000;
    assert Pow256(8) == 256 * (256 * (256 * (256 * Pow256(4))));
    LittleEndianRoundTrip(x, 8);
  }

  lemma HalfRoundTrip(x: u32)
    ensures FromLittleEndian(LittleEndian(x, 4)) == x
  {
    assert Pow256(4) == 0x1_0000_0000;
    LittleEndianRoundTrip(x, 4);
  }

  lemma AddressDecodes(a: Visit, b: Visit)
    requires Wordsized([a]) && Wordsized([b]) && Address(a) == Address(b)
    ensures a.flat == b.flat && a.page == b.page && a.disposition == b.disposition
  {
    hide LittleEndian, FromLittleEndian, ExpectedErased;
    assert [a][0] == a && [b][0] == b;
    WordRoundTrip(a.flat);
    WordRoundTrip(b.flat);
    HalfRoundTrip(a.page);
    HalfRoundTrip(b.page);
    assert LittleEndian(a.flat, 8) == Address(a)[..8] && LittleEndian(b.flat, 8) == Address(b)[..8];
    assert LittleEndian(a.page, 4) == Address(a)[8..12] && LittleEndian(b.page, 4) == Address(b)[8..12];
    assert Code(a.disposition) == Address(a)[12] && Code(b.disposition) == Address(b)[12];
  }

  /** The tag fixes how long the rest of a record is. */
  function EvidenceSize(tag: byte): nat { if tag == 1 then 58 else 33 }

  lemma EvidenceHasSize(o: Outcome, h: Metadata.Hash)
    requires h.Sound()
    ensures |Evidence(o, h)| > 0 && |Evidence(o, h)| == EvidenceSize(Evidence(o, h)[0])
    ensures Evidence(o, h)[0] == if o.Read? then 1 else 0
  {
    hide LittleEndian;
  }

  lemma EvidenceDecodes(a: Outcome, b: Outcome, h: Metadata.Hash)
    requires h.Sound() && Evidence(a, h) == Evidence(b, h)
    ensures a.Read? == b.Read?
    ensures a.Read? ==> h.digest(a.raw) == h.digest(b.raw) && a.metrics == b.metrics
    ensures a.Failed? ==> h.digest(a.message) == h.digest(b.message)
  {
    hide LittleEndian;
    EvidenceHasSize(a, h);
    EvidenceHasSize(b, h);
    if a.Read? {
      MetricsDecode(a, b, h);
    } else {
      assert h.digest(a.message) == Evidence(a, h)[1..] && h.digest(b.message) == Evidence(b, h)[1..];
    }
  }

  lemma MetricsDecode(a: Outcome, b: Outcome, h: Metadata.Hash)
    requires h.Sound() && Evidence(a, h) == Evidence(b, h) && a.Read? && b.Read?
    ensures h.digest(a.raw) == h.digest(b.raw) && a.metrics == b.metrics
  {
    hide LittleEndian, FromLittleEndian;
    var x, y := Evidence(a, h), Evidence(b, h);
    var m, n := a.metrics, b.metrics;
    assert h.digest(a.raw) == x[1..33] && h.digest(b.raw) == y[1..33];
    assert LittleEndian(m.correctedBits, 8) == x[33..41] && LittleEndian(n.correctedBits, 8) == y[33..41];
    assert LittleEndian(m.readRetries, 8) == x[41..49] && LittleEndian(n.readRetries, 8) == y[41..49];
    assert LittleEndian(m.readLatency, 8) == x[49..57] && LittleEndian(n.readLatency, 8) == y[49..57];
    assert EccCode(m.ecc) == x[57] && EccCode(n.ecc) == y[57];
    WordRoundTrip(m.correctedBits);
    WordRoundTrip(n.correctedBits);
    WordRoundTrip(m.readRetries);
    WordRoundTrip(n.readRetries);
    WordRoundTrip(m.readLatency);
    WordRoundTrip(n.readLatency);
  }

  // ----- The record of one page, byte by byte -----

  /** The code of a disposition. */
  predicate CodedAs(d: Disposition, code: byte) {
    && (code == 0 <==> d.Unknown?) && (code == 1 <==> d.FactoryBad?) && (code == 2 <==> d.HistoricalRuntimeBad?)
    && (code == 3 <==> d.SystemPreserved?) && (code == 4 <==> d.SystemRebuild?) && (code == 5 <==> d.Data?)
    && (code == 6 <==> d.Erased?) && (code == 7 <==> d.Qualified?) && (code == 8 <==> d.Quarantined?)
  }

  /** Address, disposition code and whether the page must be erased. */
  predicate AddressSays(s: seq<byte>, v: Visit) {
    && |s| == 14 && FromLittleEndian(s[..8]) == v.flat && FromLittleEndian(s[8..12]) == v.page
    && CodedAs(v.disposition, s[12])
    && s[13] == if s[12] in {0, 1, 3} then 0 else 1
  }

  /** A page read: digest, corrected bits, retries, latency and status; or the digest of the message. */
  predicate EvidenceSays(s: seq<byte>, o: Outcome, h: Metadata.Hash) {
    match o
    case Read(raw, m) =>
      && |s| == 58 && s[0] == 1 && s[1..33] == h.digest(raw)
      && FromLittleEndian(s[33..41]) == m.correctedBits && FromLittleEndian(s[41..49]) == m.readRetries
      && FromLittleEndian(s[49..57]) == m.readLatency
      && s[57] == (match m.ecc case EccUnknown => 0 case Correctable => 1 case Uncorrectable => 2)
    case Failed(message) => |s| == 33 && s[0] == 0 && s[1..] == h.digest(message)
  }

  lemma AddressIsSaid(v: Visit)
    requires v.flat <= MAX_U64 && v.page < 0x1_0000_0000
    ensures AddressSays(Address(v), v)
  {
    hide LittleEndian, FromLittleEndian;
    WordRoundTrip(v.flat);
    HalfRoundTrip(v.page);
    assert Address(v)[..8] == LittleEndian(v.flat, 8) && Address(v)[8..12] == LittleEndian(v.page, 4);
  }

  lemma EvidenceIsSaid(o: Outcome, h: Metadata.Hash)
    requires h.Sound()
    ensures EvidenceSays(Evidence(o, h), o, h)
  {
    hide LittleEndian, FromLittleEndian;
    var s := Evidence(o, h);
    match o
    case Read(raw, m) =>
      WordRoundTrip(m.correctedBits);
      WordRoundTrip(m.readRetries);
      WordRoundTrip(m.readLatency);
      assert s[1..33] == h.digest(raw) && s[33..41] == LittleEndian(m.correctedBits, 8);
      assert s[41..49] == LittleEndian(m.readRetries, 8) && s[49..57] == LittleEndian(m.readLatency, 8);
    case Failed(message) =>
      assert s[1..] == h.digest(message);
  }

  /** Every byte of the record of a page means what the sweep saw. */
  lemma RecordSays(v: Visit, h: Metadata.Hash)
    requires h.Sound() && v.flat <= MAX_U64 && v.page < 0x1_0000_0000
    ensures |HashRecord(v, h)| >= 14
    ensures AddressSays(HashRecord(v, h)[..14], v) && EvidenceSays(HashRecord(v, h)[14..], v.outcome, h)
  {
    hide Address, Evidence, AddressSays, EvidenceSays;
    AddressIsSaid(v);
    EvidenceIsSaid(v.outcome, h);
    assert HashRecord(v, h)[..14] == Address(v) && HashRecord(v, h)[14..] == Evidence(v.outcome, h);
  }

  /** No record is a proper prefix of another: records that start two equal inputs are equal. */
  lemma RecordsArePrefixFree(a: Visit, b: Visit, s: seq<byte>, t: seq<byte>, h: Metadata.Hash)
    requires h.Sound() && HashRecord(a, h) + s == HashRecord(b, h) + t
    ensures HashRecord(a, h) == HashRecord(b, h) && s == t
    ensures Address(a) == Address(b) && Evidence(a.outcome, h) == Evidence(b.outcome, h)
  {
    hide Address, Evidence;
    EvidenceHasSize(a.outcome, h);
    EvidenceHasSize(b.outcome, h);
    var x, y := HashRecord(a, h), HashRecord(b, h);
    assert (x + s)[14] == Evidence(a.outcome, h)[0] && (y + t)[14] == Evidence(b.outcome, h)[0];
    assert |x| == |y|;
    assert x == (x + s)[..|x|] && y == (y + t)[..|y|] && s == (x + s)[|x|..] && t == (y + t)[|y|..];
    assert Address(a) == x[..14] && Address(b) == y[..14];
    assert Evidence(a.outcome, h) == x[14..] && Evidence(b.outcome, h) == y[14..];
  }

  lemma {:induction false} StreamFront(visits: seq<Visit>, h: Metadata.Hash)
    requires visits != []
    ensures Stream(visits, h) == HashRecord(visits[0], h) + Stream(visits[1..], h)
  {
    hide HashRecord;
    if |visits| > 1 {
      var front := visits[..|visits| - 1];
      StreamFront(front, h);
      assert front[1..] == visits[1..][..|visits| - 2];
    } else {
      assert visits[..0] == [] && visits[1..] == [];
    }
  }

  lemma RecordNotEmpty(v: Visit, h: Metadata.Hash)
    ensures |HashRecord(v, h)| > 0
  {
  }

  /**
   * Two sweeps that feed the same bytes to the hash saw the same pages: same addresses, dispositions, outcomes, digests
   * and metrics, in the same order and number.
   */
  lemma {:induction false} StreamIsUniquelyDecodable(a: seq<Visit>, b: seq<Visit>, h: Metadata.Hash)
    requires h.Sound() && Wordsized(a) && Wordsized(b) && Stream(a, h) == Stream(b, h)
    ensures Facts(a, h) == Facts(b, h)
    decreases |a|
  {
    hide HashRecord, Evidence, Address;
    if a == [] || b == [] {
      if a != [] {
        StreamFront(a, h);
        RecordNotEmpty(a[0], h);
      }
      if b != [] {
        StreamFront(b, h);
        RecordNotEmpty(b[0], h);
      }
    } else {
      StreamFront(a, h);
      StreamFront(b, h);
      RecordsArePrefixFree(a[0], b[0], Stream(a[1..], h), Stream(b[1..], h), h);
      AddressDecodes(a[0], b[0]);
      EvidenceDecodes(a[0].outcome, b[0].outcome, h);
      StreamIsUniquelyDecodable(a[1..], b[1..], h);
      assert Facts(a, h) == [FactOf(a[0], h)] + Facts(a[1..], h);
      assert Facts(b, h) == [FactOf(b[0], h)] + Facts(b[1..], h);
    }
  }

  /** Without collisions among the inputs at hand, equal sweep digests already mean equal sweeps. */
  lemma EqualDigestsMeanEqualSweeps(a: seq<Visit>, b: seq<Visit>, h: Metadata.Hash)
    requires h.Sound() && Wordsized(a) && Wordsized(b)
    requires h.digest(Stream(a, h)) == h.digest(Stream(b, h)) ==> Stream(a, h) == Stream(b, h)
    ensures h.digest(Stream(a, h)) == h.digest(Stream(b, h)) <==> Facts(a, h) == Facts(b, h)
  {
    if h.digest(Stream(a, h)) == h.digest(Stream(b, h)) {
      StreamIsUniquelyDecodable(a, b, h);
    }
    if Facts(a, h) == Facts(b, h) {
      FactsFixStream(a, b, h);
    }
  }

  lemma FactFixesRecord(a: Visit, b: Visit, h: Metadata.Hash)
    requires FactOf(a, h) == FactOf(b, h)
    ensures HashRecord(a, h) == HashRecord(b, h)
  {
    hide LittleEndian, Code, EccCode, ExpectedErased;
  }

  lemma {:induction false} FactsFixStream(a: seq<Visit>, b: seq<Visit>, h: Metadata.Hash)
    requires Facts(a, h) == Facts(b, h)
    ensures Stream(a, h) == Stream(b, h)
  {
    hide HashRecord, FactOf;
    assert |Facts(a, h)| == |a| && |Facts(b, h)| == |b|;
    if a != [] {
      var n := |a| - 1;
      assert Facts(a, h)[n] == FactOf(a[n], h) && Facts(b, h)[n] == FactOf(b[n], h);
      assert Facts(a[..n], h) == Facts(a, h)[..n] && Facts(b[..n], h) == Facts(b, h)[..n];
      FactsFixStream(a[..n], b[..n], h);
      FactFixesRecord(a[n], b[n], h);
    }
  }
}
