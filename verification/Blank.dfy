/** The blank sweep of the logical range, and the postcheck after a power cycle that relies on it. */
module Blank {
  import opened Wrappers
  import opened Bytes
  import opened Lba
  import opened Signatures

  datatype BlankReport = BlankReport(errors: nat, readErrors: nat, uniform: bool, value: Option<byte>) {
    predicate Passed() { errors == 0 && uniform }
  }

  /** Every byte of chunk `k` is `v`. */
  predicate ChunkIs(content: seq<byte>, k: nat, v: byte) {
    forall i :: k * CHUNK <= i < ChunkEnd(k, |content|) ==> content[i] == v
  }

  predicate Readable(faults: nat -> Fault, first: nat, k: nat) { faults(first + k).Works? }

  /** `value` is the first byte of the first chunk below `n` that could be read. */
  predicate FirstValue(content: seq<byte>, faults: nat -> Fault, first: nat, n: nat, value: Option<byte>) {
    match value
    case None => forall k :: 0 <= k < n ==> !Readable(faults, first, k)
    case Some(v) => exists k :: 0 <= k < n && FirstReadable(content, faults, first, k, v)
  }

  predicate FirstReadable(content: seq<byte>, faults: nat -> Fault, first: nat, k: nat, v: byte) {
    && Readable(faults, first, k) && k * CHUNK < |content| && content[k * CHUNK] == v
    && forall j :: 0 <= j < k ==> !Readable(faults, first, j)
  }

  /** Every chunk below `n` that could be read is all `v`. */
  predicate ReadablesAre(content: seq<byte>, faults: nat -> Fault, first: nat, n: nat, v: byte) {
    forall k :: 0 <= k < n && Readable(faults, first, k) ==> ChunkIs(content, k, v)
  }

  predicate BlankByte(v: byte) { v == 0x00 || v == 0xFF }

  /** Chunk `k` does not start with `v`. */
  predicate StartsOther(content: seq<byte>, k: nat, v: byte) { k * CHUNK < |content| && content[k * CHUNK] != v }

  /** Chunk `k` holds two different bytes. */
  predicate Mixed(content: seq<byte>, k: nat) {
    k * CHUNK < |content| && !ChunkIs(content, k, content[k * CHUNK])
  }

  function DefectsIn(content: seq<byte>, k: nat, v: byte): nat {
    (if StartsOther(content, k, v) then 1 else 0) + if Mixed(content, k) then 1 else 0
  }

  /** Defects of the chunks below `n` that could be read, against the value `v`. */
  function Defects(content: seq<byte>, faults: nat -> Fault, first: nat, n: nat, v: byte): nat {
    if n == 0 then 0
    else Defects(content, faults, first, n - 1, v)
         + if Readable(faults, first, n - 1) then DefectsIn(content, n - 1, v) else 0
  }

  /** What a report says about the first `n` chunks. */
  predicate Says(r: BlankReport, content: seq<byte>, faults: nat -> Fault, first: nat, n: nat) {
    && r.readErrors == FaultCount(faults, first, n)
    && FirstValue(content, faults, first, n, r.value)
    && (match r.value
        case None => r.uniform && r.errors == r.readErrors
        case Some(v) =>
          && r.errors == r.readErrors + Defects(content, faults, first, n, v)
          && (r.uniform <==> Defects(content, faults, first, n, v) == 0 && BlankByte(v)))
  }

  /** Progress is reported every 64 chunks and at the end. */
  predicate Announced(done: nat, n: nat) { done % 64 == 0 || done == n }

  predicate ProceedsBlank(progress: Progress, upTo: nat, n: nat) {
    forall done :: 1 <= done <= upTo && Announced(done, n) ==> progress(done).Ok?
  }

  predicate AbortsBlank(progress: Progress, done: int, n: nat, e: Error) {
    done > 0 && Announced(done, n) && progress(done) == Err(e) && ProceedsBlank(progress, done - 1, n)
  }

  method BlankVerify(dev: LbaDevice, progress: Progress) returns (r: Result<BlankReport>)
    requires dev.Valid()
    modifies dev`operations
    ensures var n, first := ChunkCount(|dev.content|), old(dev.operations);
            && (r.Ok? <==> ProceedsBlank(progress, n, n))
            && (r.Ok? ==> Says(r.value, dev.content, dev.faults, first, n) && dev.operations == first + n)
            && (r.Err? ==> AbortsBlank(progress, dev.operations - first, n, r.error))
  {
    hide ChunkIs, FaultCount, Says, AtChunk, ChunkCount, ChunkEnd;
    ghost var first, n := dev.operations, ChunkCount(|dev.content|);
    var capacity, done, offset := |dev.content|, 0, 0;
    FirstChunk(capacity);
    var report := BlankReport(0, 0, true, None);
    SaysNothing(dev.content, dev.faults, first);
    while offset < capacity
      invariant AtChunk(done, offset, capacity)
      invariant dev.operations == first + done
      invariant Says(report, dev.content, dev.faults, first, done)
      invariant ProceedsBlank(progress, done, n)
      decreases capacity - offset
    {
      var count := Min(CHUNK, capacity - offset);
      NextChunk(done, offset, capacity);
      var read := dev.ReadAt(offset, count);
      if read.None? {
        UnreadableChunk(report, dev.content, dev.faults, first, done);
        report := report.(errors := report.errors + 1, readErrors := report.readErrors + 1);
      } else {
        var v := read.value[0];
        var uniform, errors := report.uniform && BlankByte(v), report.errors;
        if report.value.Some? && report.value.value != v {
          uniform, errors := false, errors + 1;
        }
        if exists i :: 0 <= i < |read.value| && read.value[i] != v {
          uniform, errors := false, errors + 1;
        }
        ReadableChunk(report, dev.content, dev.faults, first, done, read.value);
        report := BlankReport(errors, report.readErrors, uniform, Some(report.value.GetOr(v)));
      }
      offset := offset + count;
      done := done + 1;
      LastChunkIff(done, offset, capacity);
      if done % 64 == 0 || offset >= capacity {
        var reported := progress(done);
        if reported.Err? {
          assert AbortsBlank(progress, done, n, reported.error);
          return Err(reported.error);
        }
      }
    }
    AllChunks(done, offset, capacity);
    return Ok(report);
  }

  lemma LastChunkIff(done: nat, offset: nat, capacity: nat)
    requires AtChunk(done, offset, capacity)
    ensures offset >= capacity <==> done == ChunkCount(capacity)
  {
  }

  lemma SaysNothing(content: seq<byte>, faults: nat -> Fault, first: nat)
    ensures Says(BlankReport(0, 0, true, None), content, faults, first, 0)
  {
  }

  lemma UnreadableChunk(r: BlankReport, content: seq<byte>, faults: nat -> Fault, first: nat, n: nat)
    requires Says(r, content, faults, first, n) && !Readable(faults, first, n)
    ensures Says(r.(errors := r.errors + 1, readErrors := r.readErrors + 1), content, faults, first, n + 1)
  {
    hide DefectsIn;
    if r.value.Some? {
      var k :| 0 <= k < n && FirstReadable(content, faults, first, k, r.value.value);
      assert FirstReadable(content, faults, first, k, r.value.value);
    }
  }

  /** A chunk that was read is mixed exactly when one of its bytes differs from the first. */
  lemma MixedIff(content: seq<byte>, k: nat, bytes: seq<byte>)
    requires 0 < |bytes| && k * CHUNK + |bytes| == ChunkEnd(k, |content|)
    requires bytes == content[k * CHUNK..k * CHUNK + |bytes|]
    ensures k * CHUNK < |content| && content[k * CHUNK] == bytes[0]
    ensures Mixed(content, k) <==> exists i :: 0 <= i < |bytes| && bytes[i] != bytes[0]
  {
    if Mixed(content, k) {
      var i :| k * CHUNK <= i < ChunkEnd(k, |content|) && content[i] != content[k * CHUNK];
      assert bytes[i - k * CHUNK] == content[i];
    }
    if i :| 0 <= i < |bytes| && bytes[i] != bytes[0] {
      assert content[k * CHUNK + i] == bytes[i];
    }
  }

  lemma {:induction false} NoneReadable(content: seq<byte>, faults: nat -> Fault, first: nat, n: nat, v: byte)
    requires forall k :: 0 <= k < n ==> !Readable(faults, first, k)
    ensures Defects(content, faults, first, n, v) == 0
  {
    if n > 0 {
      NoneReadable(content, faults, first, n - 1, v);
    }
  }

  lemma ReadableChunk(
    r: BlankReport, content: seq<byte>, faults: nat -> Fault, first: nat, n: nat, bytes: seq<byte>)
    requires Says(r, content, faults, first, n) && Readable(faults, first, n)
    requires 0 < |bytes| && n * CHUNK + |bytes| == ChunkEnd(n, |content|)
    requires bytes == content[n * CHUNK..n * CHUNK + |bytes|]
    ensures var v := bytes[0];
            var other := r.value.Some? && r.value.value != v;
            var mixed := exists i :: 0 <= i < |bytes| && bytes[i] != v;
            Says(BlankReport(r.errors + (if other then 1 else 0) + (if mixed then 1 else 0), r.readErrors,
                             r.uniform && BlankByte(v) && !other && !mixed, Some(r.value.GetOr(v))),
                 content, faults, first, n + 1)
  {
    hide Mixed, Readable, BlankByte;
    var w := r.value.GetOr(bytes[0]);
    MixedIff(content, n, bytes);
    FaultsUnchanged(faults, first, n);
    if r.value.None? {
      NoneReadable(content, faults, first, n, w);
      assert FirstReadable(content, faults, first, n, w);
    } else {
      var k :| 0 <= k < n && FirstReadable(content, faults, first, k, w);
      assert FirstReadable(content, faults, first, k, w);
    }
  }

  lemma FaultsUnchanged(faults: nat -> Fault, first: nat, n: nat)
    requires Readable(faults, first, n)
    ensures FaultCount(faults, first, n + 1) == FaultCount(faults, first, n)
  {
  }

  lemma NoDefectIff(content: seq<byte>, k: nat, v: byte)
    requires k < ChunkCount(|content|)
    ensures DefectsIn(content, k, v) == 0 <==> ChunkIs(content, k, v)
  {
    assert k * CHUNK < |content|;
  }

  /** The sweep finds no defect exactly when every chunk that could be read is all `v`. */
  lemma {:induction false} NoDefectsIff(content: seq<byte>, faults: nat -> Fault, first: nat, n: nat, v: byte)
    requires n <= ChunkCount(|content|)
    ensures Defects(content, faults, first, n, v) == 0 <==> ReadablesAre(content, faults, first, n, v)
  {
    hide ChunkIs, DefectsIn, Readable, ChunkCount;
    if n > 0 {
      NoDefectsIff(content, faults, first, n - 1, v);
      NoDefectIff(content, n - 1, v);
    }
  }

  // ----- What passing means -----

  /** Every byte of the logical range is the same blank value. */
  predicate BlankThroughout(content: seq<byte>, v: byte) {
    (v == 0 || v == 255) && forall i :: 0 <= i < |content| ==> content[i] == v
  }

  lemma {:induction false} FaultCountIsZeroIff(faults: nat -> Fault, first: nat, n: nat)
    ensures FaultCount(faults, first, n) == 0 <==> forall k :: 0 <= k < n ==> Readable(faults, first, k)
  {
    if n > 0 {
      FaultCountIsZeroIff(faults, first, n - 1);
      assert Readable(faults, first, n - 1) <==> faults(first + n - 1).Works?;
    }
  }

  lemma ChunksCover(content: seq<byte>, v: byte)
    ensures (forall i :: 0 <= i < |content| ==> content[i] == v)
            <==> forall k :: 0 <= k < ChunkCount(|content|) ==> ChunkIs(content, k, v)
  {
    if forall k :: 0 <= k < ChunkCount(|content|) ==> ChunkIs(content, k, v) {
      forall i | 0 <= i < |content|
        ensures content[i] == v
      {
        ChunkOfByte(i, |content|);
        assert ChunkIs(content, i / CHUNK, v);
      }
    }
  }

  /** The blank sweep passes exactly when every chunk was read and one blank value fills the whole range. */
  lemma PassedIff(r: BlankReport, content: seq<byte>, faults: nat -> Fault, first: nat)
    requires |content| > 0 && Says(r, content, faults, first, ChunkCount(|content|))
    ensures r.Passed() && r.value.Some? <==>
            && (forall k :: 0 <= k < ChunkCount(|content|) ==> Readable(faults, first, k))
            && exists v :: BlankThroughout(content, v)
    ensures r.Passed() ==> r.value.Some? && BlankThroughout(content, r.value.value)
  {
    hide ChunkIs;
    var n := ChunkCount(|content|);
    ChunkOfByte(0, |content|);
    FaultCountIsZeroIff(faults, first, n);
    if r.value.Some? {
      NoDefectsIff(content, faults, first, n, r.value.value);
    }
    if r.Passed() {
      assert Readable(faults, first, 0);
      ChunksCover(content, r.value.value);
      assert BlankThroughout(content, r.value.value);
    }
    if (forall k :: 0 <= k < n ==> Readable(faults, first, k)) && exists v :: BlankThroughout(content, v) {
      var v :| BlankThroughout(content, v);
      ChunksCover(content, v);
      assert r.value.Some? by {
        assert Readable(faults, first, 0);
      }
      var k :| 0 <= k < n && FirstReadable(content, faults, first, k, r.value.value);
      assert content[k * CHUNK] == v;
      assert ReadablesAre(content, faults, first, n, v);
    }
  }

  /** The verdict after the power cycle. */
  datatype Postcheck = Postcheck(ok: bool, blankVerified: bool, errors: nat, found: set<Signature>)

  function PostcheckOf(r: BlankReport, expected: Option<byte>, found: set<Signature>): Postcheck {
    var valueOk := match expected
                   case Some(e) => r.value == Some(e)
                   case None => r.value.Some? && BlankByte(r.value.value);
    var verified := r.errors == 0 && r.uniform && valueOk;
    Postcheck(r.readErrors == 0 && verified && found == {}, verified,
              r.errors + (if found == {} then 0 else 1), found)
  }

  /** The whole range was read and is blank, with the expected value if there is one. */
  predicate ReadsBlank(content: seq<byte>, faults: nat -> Fault, first: nat, expected: Option<byte>) {
    && (forall k :: 0 <= k < ChunkCount(|content|) ==> Readable(faults, first, k))
    && exists v :: BlankThroughout(content, v) && (expected.Some? ==> v == expected.value)
  }

  /** The postcheck comes to a verdict: capacity, signature regions and flush work, and nobody aborts the sweep. */
  predicate Concludes(content: seq<byte>, faults: nat -> Fault, first: nat, progress: Progress) {
    var n, regions := ChunkCount(|content|), |Regions(|content| / SECTOR)|;
    && |content| > 0 && |content| % SECTOR == 0 && faults(first).Works?
    && ProceedsBlank(progress, n, n) && NoFaults(faults, first + 1 + n, regions + 1)
  }

  method PostcheckP2(dev: LbaDevice, expected: Option<byte>, progress: Progress) returns (p: Result<Postcheck>)
    modifies dev`operations
    ensures p.Ok? <==> Concludes(dev.content, dev.faults, old(dev.operations), progress)
    ensures p.Ok? ==> (p.value.ok <==> ReadsBlank(dev.content, dev.faults, old(dev.operations) + 1, expected))
    ensures p.Ok? ==> exists sweep ::
              && Says(sweep, dev.content, dev.faults, old(dev.operations) + 1, ChunkCount(|dev.content|))
              && p.value == PostcheckOf(sweep, expected, Found(dev.content, |Regions(|dev.content| / SECTOR)|))
  {
    hide Says, ReadsBlank, Readable, ChunkCount, ProceedsBlank, Regions, Found;
    var _ :- dev.RefreshCapacity();
    ghost var first := dev.operations;
    var sweep :- BlankVerify(dev, progress);
    var found :- CheckSignatures(dev);
    var _ :- dev.Flush();
    p := Ok(PostcheckOf(sweep, expected, found));
    PostcheckIff(sweep, expected, dev.content, dev.faults, first);
  }

  /**
   * The postcheck succeeds exactly when the whole range reads as the expected blank value: a range that does carries no
   * signature, so the signature search never turns such a verdict.
   */
  lemma PostcheckIff(
    r: BlankReport, expected: Option<byte>, content: seq<byte>, faults: nat -> Fault, first: nat)
    requires |content| > 0 && Says(r, content, faults, first, ChunkCount(|content|))
    ensures PostcheckOf(r, expected, Found(content, |Regions(|content| / SECTOR)|)).ok
            <==> ReadsBlank(content, faults, first, expected)
    ensures var found := Found(content, |Regions(|content| / SECTOR)|);
            var p := PostcheckOf(r, expected, found);
            p.found == found && (p.errors == r.errors <==> found == {}) && p.errors <= r.errors + 1
  {
    hide Says, Readable, Found, Regions, ChunkCount;
    PassedIff(r, content, faults, first);
    FewerReadErrors(r, content, faults, first);
    if v :| BlankThroughout(content, v) {
      NoneFound(content, |Regions(|content| / SECTOR)|, v);
      if r.Passed() && r.value.Some? {
        assert content[0] == v && content[0] == r.value.value;
      }
    }
  }

  lemma FewerReadErrors(r: BlankReport, content: seq<byte>, faults: nat -> Fault, first: nat)
    requires Says(r, content, faults, first, ChunkCount(|content|))
    ensures r.readErrors <= r.errors
  {
  }
}
