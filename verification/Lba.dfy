/** Overwriting and verifying the whole logical range of a device, chunk by chunk. */
module Lba {
  import opened Wrappers
  import opened Bytes
  import opened Prbs

  const SECTOR: nat := 512
  const CHUNK: nat := 1024 * 1024

  /** How an operation ends. A write that fails may have left any bytes in its range. */
  datatype Fault = Works | Fails(torn: seq<byte>)

  /** What is to be on the device. */
  datatype Pattern = AllZero | StreamFrom(state: Word) {
    function At(i: nat): byte {
      match this
      case AllZero => 0
      case StreamFrom(state) => StreamByte(state, i)
    }
  }

  function ChunkCount(capacity: nat): nat { (capacity + CHUNK - 1) / CHUNK }

  function ChunkEnd(k: nat, capacity: nat): nat { Min((k + 1) * CHUNK, capacity) }

  predicate ChunkHolds(content: seq<byte>, k: nat, pattern: Pattern) {
    forall i :: k * CHUNK <= i < ChunkEnd(k, |content|) ==> content[i] == pattern.At(i)
  }

  /** A failed write: each byte of the range may be new, old or anything else. */
  function Damaged(content: seq<byte>, offset: nat, count: nat, torn: seq<byte>): (r: seq<byte>)
    requires offset + count <= |content|
    ensures |r| == |content|
    ensures forall i :: 0 <= i < |content| && !(offset <= i < offset + count) ==> r[i] == content[i]
  {
    var patch := torn[..Min(|torn|, count)];
    Overwrite(content, offset, patch)
  }

  /** A device whose n-th operation ends as `faults(n)` says. */
  class LbaDevice {
    const faults: nat -> Fault
    var content: seq<byte>
    var operations: nat

    constructor (content: seq<byte>, faults: nat -> Fault)
      ensures this.content == content && this.faults == faults && operations == 0
    {
      this.content, this.faults, operations := content, faults, 0;
    }

    /** A capacity the device layer admits. */
    predicate Valid()
      reads this
    {
      |content| > 0 && |content| % SECTOR == 0
    }

    method WriteAt(offset: nat, bytes: seq<byte>) returns (ok: bool)
      requires offset + |bytes| <= |content|
      modifies this
      ensures operations == old(operations) + 1 && ok == faults(old(operations)).Works?
      ensures content == if ok then Overwrite(old(content), offset, bytes)
                         else Damaged(old(content), offset, |bytes|, faults(old(operations)).torn)
    {
      match faults(operations)
      case Works =>
        content := Overwrite(content, offset, bytes);
        ok := true;
        operations := operations + 1;
      case Fails(torn) =>
        content := Damaged(content, offset, |bytes|, torn);
        ok := false;
        operations := operations + 1;
    }

    method ReadAt(offset: nat, count: nat) returns (r: Option<seq<byte>>)
      requires offset + count <= |content|
      modifies this`operations
      ensures operations == old(operations) + 1
      ensures r == if faults(old(operations)).Works? then Some(content[offset..offset + count]) else None
    {
      r := if faults(operations).Works? then Some(content[offset..offset + count]) else None;
      operations := operations + 1;
    }

    /** Ask for the capacity again, as before a postcheck. */
    method RefreshCapacity() returns (r: Result<()>)
      modifies this`operations
      ensures operations == old(operations) + 1
      ensures r == if faults(old(operations)).Works? && Valid() then Ok(()) else Err(Io)
    {
      r := if faults(operations).Works? && Valid() then Ok(()) else Err(Io);
      operations := operations + 1;
    }

    method Flush() returns (r: Result<()>)
      modifies this`operations
      ensures operations == old(operations) + 1
      ensures r == if faults(old(operations)).Works? then Ok(()) else Err(Io)
    {
      r := if faults(operations).Works? then Ok(()) else Err(Io);
      operations := operations + 1;
    }
  }

  // ----- The progress callback -----

  /** What the caller answers after each chunk; an error aborts the pass. */
  type Progress = nat -> Result<()>

  predicate Proceeds(progress: Progress, n: nat) { forall done :: 1 <= done <= n ==> progress(done).Ok? }

  /** The pass is aborted with `e` after `done` chunks. */
  predicate Aborts(progress: Progress, done: int, e: Error) {
    done > 0 && progress(done) == Err(e) && Proceeds(progress, done - 1)
  }

  // ----- What the counts mean -----

  /** Failed operations among the first `n` from `first`. */
  function FaultCount(faults: nat -> Fault, first: nat, n: nat): nat {
    if n == 0 then 0 else FaultCount(faults, first, n - 1) + if faults(first + n - 1).Works? then 0 else 1
  }

  /** Chunk `k`, read as operation `first + k`, was not read or does not hold the pattern. */
  predicate BadChunk(content: seq<byte>, faults: nat -> Fault, first: nat, k: nat, pattern: Pattern) {
    !faults(first + k).Works? || !ChunkHolds(content, k, pattern)
  }

  function BadCount(content: seq<byte>, faults: nat -> Fault, first: nat, n: nat, pattern: Pattern): nat {
    if n == 0 then 0
    else
      BadCount(content, faults, first, n - 1, pattern)
      + if BadChunk(content, faults, first, n - 1, pattern) then 1 else 0
  }

  predicate Holds(content: seq<byte>, pattern: Pattern) {
    forall i :: 0 <= i < |content| ==> content[i] == pattern.At(i)
  }

  /** Every chunk below `n` whose write worked holds the pattern. */
  predicate WrittenUpTo(content: seq<byte>, faults: nat -> Fault, first: nat, n: nat, pattern: Pattern) {
    forall k :: 0 <= k < n && faults(first + k).Works? ==> ChunkHolds(content, k, pattern)
  }

  lemma ChunkBounds(k: nat, capacity: nat)
    requires k * CHUNK < capacity
    ensures k < ChunkCount(capacity) && k * CHUNK < ChunkEnd(k, capacity) <= capacity
    ensures ChunkEnd(k, capacity) == if k + 1 < ChunkCount(capacity) then (k + 1) * CHUNK else capacity
  {
  }

  lemma ChunkOfByte(i: nat, capacity: nat)
    requires i < capacity
    ensures i / CHUNK < ChunkCount(capacity) && (i / CHUNK) * CHUNK <= i < ChunkEnd(i / CHUNK, capacity)
  {
  }

  /** A pass that has done `done` chunks stands at `offset`. */
  predicate AtChunk(done: nat, offset: nat, capacity: nat) {
    && done <= ChunkCount(capacity) && offset <= capacity
    && (offset < capacity ==> offset == done * CHUNK)
    && (offset == capacity ==> done == ChunkCount(capacity))
  }

  lemma FirstChunk(capacity: nat)
    requires capacity > 0
    ensures AtChunk(0, 0, capacity)
  {
  }

  lemma NextChunk(done: nat, offset: nat, capacity: nat)
    requires AtChunk(done, offset, capacity) && offset < capacity
    ensures offset == done * CHUNK && offset < ChunkEnd(done, capacity) <= capacity
    ensures offset + Min(CHUNK, capacity - offset) == ChunkEnd(done, capacity)
    ensures AtChunk(done + 1, offset + Min(CHUNK, capacity - offset), capacity)
    ensures offset + Min(CHUNK, capacity - offset) < capacity ==> Min(CHUNK, capacity - offset) == CHUNK
  {
    ChunkBounds(done, capacity);
  }

  lemma AllChunks(done: nat, offset: nat, capacity: nat)
    requires AtChunk(done, offset, capacity) && offset >= capacity
    ensures done == ChunkCount(capacity) && offset == capacity
  {
  }

  /** One write more. */
  lemma OneMoreChunk(
    before: seq<byte>, after: seq<byte>, faults: nat -> Fault, first: nat, k: nat, pattern: Pattern)
    requires WrittenUpTo(before, faults, first, k, pattern) && |after| == |before| && k * CHUNK < |before|
    requires forall i :: 0 <= i < |before| && !(k * CHUNK <= i < ChunkEnd(k, |before|)) ==> after[i] == before[i]
    requires faults(first + k).Works? ==> ChunkHolds(after, k, pattern)
    ensures WrittenUpTo(after, faults, first, k + 1, pattern)
  {
    hide ChunkHolds;
    forall j | 0 <= j < k && faults(first + j).Works?
      ensures ChunkHolds(after, j, pattern)
    {
      assert ChunkHolds(before, j, pattern);
      EarlierChunkKept(before, after, j, k, pattern);
    }
  }

  lemma EarlierChunkKept(before: seq<byte>, after: seq<byte>, j: nat, k: nat, pattern: Pattern)
    requires j < k && |after| == |before| && k * CHUNK < |before| && ChunkHolds(before, j, pattern)
    requires forall i :: 0 <= i < |before| && !(k * CHUNK <= i < ChunkEnd(k, |before|)) ==> after[i] == before[i]
    ensures ChunkHolds(after, j, pattern)
  {
    assert (j + 1) * CHUNK <= k * CHUNK;
  }

  // ----- The passes -----

  /**
   * The bytes of chunk `k` of the stream from `start`, drawn from a generator that has produced the chunks before it.
   */
  method NextBytes(prbs: Generator, ghost start: Word, k: nat, count: nat) returns (bytes: seq<byte>)
    requires prbs.state == States(start, k * (CHUNK / 8))
    modifies prbs
    ensures |bytes| == count && forall i :: 0 <= i < count ==> bytes[i] == StreamByte(start, k * CHUNK + i)
    ensures count == CHUNK ==> prbs.state == States(start, (k + 1) * (CHUNK / 8))
  {
    hide StreamByte, States;
    var buf := new byte[count];
    prbs.Fill(buf);
    bytes := buf[..];
    FilledIsPattern(bytes, start, k);
    StatesCompose(start, k * (CHUNK / 8), WordsFor(count));
  }

  method WritePattern(dev: LbaDevice, seed: seq<byte>, progress: Progress) returns (r: Result<nat>)
    requires dev.Valid()
    modifies dev
    ensures |dev.content| == |old(dev.content)|
    ensures var n, first := ChunkCount(|dev.content|), old(dev.operations);
            && (r.Ok? <==> Proceeds(progress, n) && dev.faults(first + n).Works?)
            && (r.Ok? ==> r.value == FaultCount(dev.faults, first, n))
            && (Proceeds(progress, n) ==> dev.operations == first + n + 1)
            && first < dev.operations
            && WrittenUpTo(dev.content, dev.faults, first, Min(n, dev.operations - first), StreamFrom(Seeded(seed)))
            && (r.Err? ==> if Proceeds(progress, n) then r.error == Io
                           else Aborts(progress, dev.operations - first, r.error))
  {
    hide StreamByte, Seeded, States, ChunkHolds, Overwrite, Damaged, WrittenUpTo, AtChunk, ChunkCount, ChunkEnd;
    var prbs := new Generator(seed);
    ghost var pattern, first := StreamFrom(prbs.state), dev.operations;
    NoSteps(prbs.state);
    NothingWritten(dev.content, dev.faults, first, pattern);
    var capacity, errors, done, offset := |dev.content|, 0, 0, 0;
    FirstChunk(capacity);
    while offset < capacity
      invariant |dev.content| == capacity
      invariant AtChunk(done, offset, capacity)
      invariant offset < capacity ==> prbs.state == States(pattern.state, done * (CHUNK / 8))
      invariant dev.operations == first + done && errors == FaultCount(dev.faults, first, done)
      invariant WrittenUpTo(dev.content, dev.faults, first, done, pattern)
      invariant Proceeds(progress, done)
      decreases capacity - offset
    {
      var count := Min(CHUNK, capacity - offset);
      NextChunk(done, offset, capacity);
      ghost var before := dev.content;
      var bytes := NextBytes(prbs, pattern.state, done, count);
      var ok := dev.WriteAt(offset, bytes);
      if !ok {
        errors := errors + 1;
      } else {
        WrittenChunkHolds(before, done, bytes, pattern);
      }
      OneMoreChunk(before, dev.content, dev.faults, first, done, pattern);
      offset := offset + count;
      done := done + 1;
      var reported := progress(done);
      if reported.Err? {
        assert Aborts(progress, done, reported.error);
        return Err(reported.error);
      }
    }
    AllChunks(done, offset, capacity);
    var _ :- dev.Flush();
    return Ok(errors);
  }

  lemma NothingWritten(content: seq<byte>, faults: nat -> Fault, first: nat, pattern: Pattern)
    ensures WrittenUpTo(content, faults, first, 0, pattern)
  {
  }

  lemma NoSteps(state: Word)
    ensures States(state, 0) == state
  {
  }

  lemma FilledIsPattern(bytes: seq<byte>, state: Word, k: nat)
    requires forall i :: 0 <= i < |bytes| ==> bytes[i] == StreamByte(States(state, k * (CHUNK / 8)), i)
    ensures forall i :: 0 <= i < |bytes| ==> bytes[i] == StreamByte(state, k * CHUNK + i)
  {
    hide StreamByte, States;
    forall i | 0 <= i < |bytes|
      ensures bytes[i] == StreamByte(state, k * CHUNK + i)
    {
      StreamContinues(state, k * (CHUNK / 8), i);
    }
  }

  lemma WrittenChunkHolds(before: seq<byte>, k: nat, bytes: seq<byte>, pattern: Pattern)
    requires k * CHUNK + |bytes| == ChunkEnd(k, |before|)
    requires forall i :: 0 <= i < |bytes| ==> bytes[i] == pattern.At(k * CHUNK + i)
    ensures ChunkHolds(Overwrite(before, k * CHUNK, bytes), k, pattern)
  {
    var after := Overwrite(before, k * CHUNK, bytes);
    forall i | k * CHUNK <= i < ChunkEnd(k, |after|)
      ensures after[i] == pattern.At(i)
    {
      assert after[k * CHUNK..k * CHUNK + |bytes|][i - k * CHUNK] == bytes[i - k * CHUNK];
    }
  }

  method VerifyPattern(dev: LbaDevice, seed: seq<byte>, progress: Progress) returns (r: Result<nat>)
    requires dev.Valid()
    modifies dev`operations
    ensures var n, first := ChunkCount(|dev.content|), old(dev.operations);
            && (r.Ok? <==> Proceeds(progress, n))
            && (r.Ok? ==> r.value == BadCount(dev.content, dev.faults, first, n, StreamFrom(Seeded(seed))))
            && (r.Ok? ==> dev.operations == first + n)
            && (r.Err? ==> Aborts(progress, dev.operations - first, r.error))
  {
    hide StreamByte, Seeded, States, ChunkHolds, AtChunk, ChunkCount, ChunkEnd;
    var prbs := new Generator(seed);
    ghost var pattern, first := StreamFrom(prbs.state), dev.operations;
    NoSteps(prbs.state);
    var capacity, done, offset := |dev.content|, 0, 0;
    FirstChunk(capacity);
    var errors, mismatches := 0, 0;
    while offset < capacity
      invariant AtChunk(done, offset, capacity)
      invariant offset < capacity ==> prbs.state == States(pattern.state, done * (CHUNK / 8))
      invariant dev.operations == first + done
      invariant errors + mismatches == BadCount(dev.content, dev.faults, first, done, pattern)
      invariant Proceeds(progress, done)
      decreases capacity - offset
    {
      var count := Min(CHUNK, capacity - offset);
      NextChunk(done, offset, capacity);
      var expected := NextBytes(prbs, pattern.state, done, count);
      var read := dev.ReadAt(offset, count);
      ChunkHoldsIff(dev.content, done, expected, pattern);
      if read.None? {
        errors := errors + 1;
      } else if read.value != expected {
        mismatches := mismatches + 1;
      }
      offset := offset + count;
      done := done + 1;
      var reported := progress(done);
      if reported.Err? {
        assert Aborts(progress, done, reported.error);
        return Err(reported.error);
      }
    }
    AllChunks(done, offset, capacity);
    return Ok(errors + mismatches);
  }

  lemma ChunkHoldsIff(content: seq<byte>, k: nat, expected: seq<byte>, pattern: Pattern)
    requires k * CHUNK + |expected| == ChunkEnd(k, |content|)
    requires forall i :: 0 <= i < |expected| ==> expected[i] == pattern.At(k * CHUNK + i)
    ensures ChunkHolds(content, k, pattern) <==> content[k * CHUNK..k * CHUNK + |expected|] == expected
  {
    var slice := content[k * CHUNK..k * CHUNK + |expected|];
    if slice == expected {
      forall i | k * CHUNK <= i < ChunkEnd(k, |content|)
        ensures content[i] == pattern.At(i)
      {
        assert slice[i - k * CHUNK] == expected[i - k * CHUNK];
      }
    }
  }

  method WriteZeros(dev: LbaDevice, progress: Progress) returns (r: Result<nat>)
    requires dev.Valid()
    modifies dev
    ensures |dev.content| == |old(dev.content)|
    ensures var n, first := ChunkCount(|dev.content|), old(dev.operations);
            && (r.Ok? <==> Proceeds(progress, n) && dev.faults(first + n).Works?)
            && (r.Ok? ==> r.value == FaultCount(dev.faults, first, n))
            && (Proceeds(progress, n) ==> dev.operations == first + n + 1)
            && first < dev.operations
            && WrittenUpTo(dev.content, dev.faults, first, Min(n, dev.operations - first), AllZero)
            && (r.Err? ==> if Proceeds(progress, n) then r.error == Io
                           else Aborts(progress, dev.operations - first, r.error))
  {
    hide ChunkHolds, Overwrite, Damaged, AtChunk, ChunkCount, ChunkEnd;
    ghost var first := dev.operations;
    var capacity, errors, done, offset := |dev.content|, 0, 0, 0;
    FirstChunk(capacity);
    while offset < capacity
      invariant |dev.content| == capacity
      invariant AtChunk(done, offset, capacity)
      invariant dev.operations == first + done && errors == FaultCount(dev.faults, first, done)
      invariant WrittenUpTo(dev.content, dev.faults, first, done, AllZero)
      invariant Proceeds(progress, done)
      decreases capacity - offset
    {
      var count := Min(CHUNK, capacity - offset);
      NextChunk(done, offset, capacity);
      ghost var before := dev.content;
      var ok := dev.WriteAt(offset, Zeros(count));
      if !ok {
        errors := errors + 1;
      } else {
        WrittenChunkHolds(before, done, Zeros(count), AllZero);
      }
      OneMoreChunk(before, dev.content, dev.faults, first, done, AllZero);
      offset := offset + count;
      done := done + 1;
      var reported := progress(done);
      if reported.Err? {
        assert Aborts(progress, done, reported.error);
        return Err(reported.error);
      }
    }
    AllChunks(done, offset, capacity);
    var _ :- dev.Flush();
    return Ok(errors);
  }

  method VerifyZeros(dev: LbaDevice, progress: Progress) returns (r: Result<nat>)
    requires dev.Valid()
    modifies dev`operations
    ensures var n, first := ChunkCount(|dev.content|), old(dev.operations);
            && (r.Ok? <==> Proceeds(progress, n))
            && (r.Ok? ==> r.value == BadCount(dev.content, dev.faults, first, n, AllZero))
            && (r.Ok? ==> dev.operations == first + n)
            && (r.Err? ==> Aborts(progress, dev.operations - first, r.error))
  {
    hide ChunkHolds, Overwrite, Damaged, AtChunk, ChunkCount, ChunkEnd;
    ghost var first := dev.operations;
    var capacity, errors, done, offset := |dev.content|, 0, 0, 0;
    FirstChunk(capacity);
    while offset < capacity
      invariant AtChunk(done, offset, capacity)
      invariant dev.operations == first + done
      invariant errors == BadCount(dev.content, dev.faults, first, done, AllZero)
      invariant Proceeds(progress, done)
      decreases capacity - offset
    {
      var count := Min(CHUNK, capacity - offset);
      NextChunk(done, offset, capacity);
      var read := dev.ReadAt(offset, count);
      ChunkHoldsIff(dev.content, done, Zeros(count), AllZero);
      if read.None? {
        errors := errors + 1;
      } else if read.value != Zeros(count) {
        errors := errors + 1;
      }
      offset := offset + count;
      done := done + 1;
      var reported := progress(done);
      if reported.Err? {
        assert Aborts(progress, done, reported.error);
        return Err(reported.error);
      }
    }
    AllChunks(done, offset, capacity);
    return Ok(errors);
  }

  // ----- Exactness -----

  lemma {:induction false} BadCountIsZeroIff(
    content: seq<byte>, faults: nat -> Fault, first: nat, n: nat, pattern: Pattern)
    ensures BadCount(content, faults, first, n, pattern) == 0 <==>
            forall k :: 0 <= k < n ==> !BadChunk(content, faults, first, k, pattern)
  {
    hide BadChunk;
    if n > 0 {
      BadCountIsZeroIff(content, faults, first, n - 1, pattern);
    }
  }

  lemma HoldsIffChunksHold(content: seq<byte>, pattern: Pattern)
    ensures Holds(content, pattern) <==> forall k :: 0 <= k < ChunkCount(|content|) ==> ChunkHolds(content, k, pattern)
  {
    if forall k :: 0 <= k < ChunkCount(|content|) ==> ChunkHolds(content, k, pattern) {
      forall i | 0 <= i < |content|
        ensures content[i] == pattern.At(i)
      {
        ChunkOfByte(i, |content|);
        assert ChunkHolds(content, i / CHUNK, pattern);
      }
    }
  }

  predicate NoFaults(faults: nat -> Fault, first: nat, n: nat) {
    forall k :: first <= k < first + n ==> faults(k).Works?
  }

  /** A verification result of zero means that every chunk was read and the whole device holds the pattern. */
  lemma ZeroBadMeansHeld(content: seq<byte>, faults: nat -> Fault, first: nat, pattern: Pattern)
    ensures BadCount(content, faults, first, ChunkCount(|content|), pattern) == 0 <==>
            Holds(content, pattern) && NoFaults(faults, first, ChunkCount(|content|))
  {
    hide BadCount, ChunkHolds, Holds;
    var n := ChunkCount(|content|);
    BadCountIsZeroIff(content, faults, first, n, pattern);
    HoldsIffChunksHold(content, pattern);
    if forall k :: 0 <= k < n ==> !BadChunk(content, faults, first, k, pattern) {
      forall k | first <= k < first + n
        ensures faults(k).Works?
      {
        assert !BadChunk(content, faults, first, k - first, pattern);
      }
      forall k | 0 <= k < n
        ensures ChunkHolds(content, k, pattern)
      {
        assert !BadChunk(content, faults, first, k, pattern);
      }
    }
    if Holds(content, pattern) && NoFaults(faults, first, n) {
      forall k | 0 <= k < n
        ensures !BadChunk(content, faults, first, k, pattern)
      {
        assert faults(first + k).Works? && ChunkHolds(content, k, pattern);
      }
    }
  }

  lemma {:induction false} NoFaultsCountZero(faults: nat -> Fault, first: nat, n: nat)
    requires NoFaults(faults, first, n)
    ensures FaultCount(faults, first, n) == 0
  {
    if n > 0 {
      NoFaultsCountZero(faults, first, n - 1);
    }
  }

  /** A write without faults leaves the pattern on the whole device and reports no errors. */
  lemma CleanWriteHolds(content: seq<byte>, faults: nat -> Fault, first: nat, pattern: Pattern)
    requires WrittenUpTo(content, faults, first, ChunkCount(|content|), pattern)
    requires NoFaults(faults, first, ChunkCount(|content|))
    ensures Holds(content, pattern) && FaultCount(faults, first, ChunkCount(|content|)) == 0
  {
    hide ChunkHolds, Holds;
    HoldsIffChunksHold(content, pattern);
    NoFaultsCountZero(faults, first, ChunkCount(|content|));
  }

  /**
   * One overwrite pass and its verification, with the errors of both: clean hardware gives none, and a verification
   * without any means that the stream is really there.
   */
  method OverwriteAndVerify(dev: LbaDevice, seed: seq<byte>, writing: Progress, verifying: Progress)
    returns (r: Result<(nat, nat)>)
    requires dev.Valid()
    modifies dev
    ensures var n := ChunkCount(|dev.content|);
            NoFaults(dev.faults, old(dev.operations), 2 * n + 1) && Proceeds(writing, n) && Proceeds(verifying, n)
            ==> r == Ok((0, 0))
    ensures r.Ok? && r.value.1 == 0 ==> Holds(dev.content, StreamFrom(Seeded(seed)))
  {
    hide StreamByte, Seeded, BadCount, FaultCount, WrittenUpTo, Holds, ChunkHolds, Proceeds, Aborts;
    var failed :- WritePattern(dev, seed, writing);
    ghost var first := dev.operations;
    var bad :- VerifyPattern(dev, seed, verifying);
    ghost var n, pattern := ChunkCount(|dev.content|), StreamFrom(Seeded(seed));
    ZeroBadMeansHeld(dev.content, dev.faults, first, pattern);
    if NoFaults(dev.faults, old(dev.operations), 2 * n + 1) {
      CleanWriteHolds(dev.content, dev.faults, old(dev.operations), pattern);
    }
    return Ok((failed, bad));
  }
}
