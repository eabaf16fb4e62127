/** Transferring a PRAM image to a boot ROM: validation, chunking, acknowledgement, start. */
module PramTransfer {
  import opened Wrappers
  import opened Bytes

  const HEADER: nat := 0x200
  const MP_TAIL: nat := 0x200
  const MAX_IMAGE: nat := 1024 * 1024
  const MAX_BODY: nat := 0x8000
  const UNIT: nat := 0x200
  const MAGIC: seq<byte> := [0x42, 0x74, 0x50, 0x72, 0x61, 0x6D, 0x43, 0x64]
  const MP_MARK: seq<byte> :=
    [0x74, 0x68, 0x69, 0x73, 0x20, 0x69, 0x73, 0x20, 0x6D, 0x70, 0x20, 0x6D, 0x61, 0x72, 0x6B, 0x00]

  datatype Chunk = Chunk(cdb: seq<byte>, offset: nat, length: nat, expectedAck: byte)

  function HeaderChunk(): Chunk {
    Chunk([0x06, 0xB1, 0x03, 0, 0, 0, 0, 0, 0x01] + Zeros(7), 0, HEADER, 0x55)
  }

  function BodyChunk(address: nat, length: nat): Chunk {
    Chunk([0x06, 0xB1, 0x02] + BigEndian(address / UNIT, 2) + [0, 0] + BigEndian(length / UNIT, 2) + Zeros(7),
          HEADER + address, length, 0xA5)
  }

  /** The chunks of the body from `address` on. */
  function BodyFrom(address: nat, bodyLen: nat): seq<Chunk>
    decreases bodyLen - address
  {
    if address >= bodyLen then []
    else
      var length := Min(bodyLen - address, MAX_BODY);
      [BodyChunk(address, length)] + BodyFrom(address + length, bodyLen)
  }

  /** The transfer of a header and a body whose size the command fields can express; other sizes are refused. */
  function Chunks(bodyLen: nat): Result<seq<Chunk>> {
    if bodyLen % UNIT != 0 then Err(Invalid) else Ok([HeaderChunk()] + BodyFrom(0, bodyLen))
  }

  lemma StaysAligned(a: nat, b: nat)
    requires a % UNIT == 0
    ensures (a + b) % UNIT == b % UNIT
  {
  }

  method PramChunks(bodyLen: nat) returns (r: Result<seq<Chunk>>)
    requires bodyLen <= MAX_IMAGE
    ensures r == Chunks(bodyLen)
  {
    hide BodyChunk, HeaderChunk;
    var chunks := [HeaderChunk()];
    var address := 0;
    while address < bodyLen
      invariant address <= bodyLen && address % UNIT == 0
      invariant [HeaderChunk()] + BodyFrom(0, bodyLen) == chunks + BodyFrom(address, bodyLen)
      decreases bodyLen - address
    {
      var length := Min(bodyLen - address, MAX_BODY);
      StaysAligned(address, length);
      if address % UNIT != 0 || length % UNIT != 0 {
        return Err(Invalid);
      }
      if address / UNIT > 0xFFFF || length / UNIT > 0xFFFF {
        return Err(Invalid);
      }
      chunks := chunks + [BodyChunk(address, length)];
      address := address + length;
    }
    assert BodyFrom(address, bodyLen) == [] && chunks + [] == chunks;
    return Ok(chunks);
  }

  // ----- Validation -----

  predicate AllBytes(s: seq<byte>, b: byte) { forall i :: 0 <= i < |s| ==> s[i] == b }

  predicate Marked(image: seq<byte>) { HEADER <= |image| <= MAX_IMAGE && image[..8] == MAGIC }

  predicate TailValid(tail: seq<byte>) {
    && |tail| == MP_TAIL && tail[..16] == MP_MARK
    && tail[16] != 0 && tail[16] != 0xFF
    && tail[17..21] == [0x01, 0x00, 0x10, 0x01]
    && !(tail[21] == 0 && tail[22] == 0)
    && tail[23] == 0x42
    && AllBytes(tail[24..], 0)
  }

  function Pages(image: seq<byte>): u32
    requires |image| >= HEADER
  {
    Le32(image[0x10..0x14])
  }

  function Legacy(image: seq<byte>): Result<seq<Chunk>> {
    if !Marked(image) then Err(Invalid)
    else if !(1 <= Pages(image) <= 32) then Err(Invalid)
    else
      var expected := HEADER + Pages(image) * 0x400;
      if |image| == expected + MP_TAIL then
        if TailValid(image[expected..]) then Chunks(Pages(image) * 0x400) else Err(Invalid)
      else if |image| != expected then Err(Invalid)
      else Chunks(Pages(image) * 0x400)
  }

  function Extended(image: seq<byte>): Result<seq<Chunk>> {
    if !Marked(image) || |image| < HEADER + 0x200 || |image| % UNIT != 0 then Err(Invalid)
    else if !AllBytes(image[8..0x10], 0) || AllBytes(image[0x10..0x14], 0)
        || !AllBytes(image[0x14..HEADER], 0) then Err(Invalid)
    else if AllBytes(image[HEADER..], 0) || AllBytes(image[HEADER..], 0xFF) then Err(Invalid)
    else Chunks(|image| - HEADER)
  }

  function Transfer(image: seq<byte>): Result<seq<Chunk>> {
    if |image| >= HEADER && 1 <= Pages(image) <= 32 then Legacy(image)
    else if Legacy(image).Ok? then Legacy(image) else Extended(image)
  }

  // ----- What the chunks are -----

  /** Consecutive chunks from `from` to `to`, none empty, none larger than a transfer, all in whole units. */
  predicate Tiles(chunks: seq<Chunk>, from: nat, to: nat) {
    if chunks == [] then from == to
    else
      && chunks[0].offset == from && from % UNIT == 0
      && 0 < chunks[0].length <= MAX_BODY && chunks[0].length % UNIT == 0
      && Tiles(chunks[1..], from + chunks[0].length, to)
  }

  /** The words of a command block say where its chunk goes and how long it is, in units. */
  predicate CdbSays(c: Chunk) {
    && |c.cdb| == 16 && c.cdb[0] == 0x06 && c.cdb[1] == 0xB1
    && FromBigEndian(c.cdb[7..9]) * UNIT == c.length
    && match c.cdb[2]
       case 3 => c.offset == 0 && FromBigEndian(c.cdb[3..5]) == 0 && c.expectedAck == 0x55
       case 2 => HEADER + FromBigEndian(c.cdb[3..5]) * UNIT == c.offset && c.expectedAck == 0xA5
       case _ => false
  }

  lemma BodyChunkSays(address: nat, length: nat)
    requires address % UNIT == 0 && length % UNIT == 0 && address <= MAX_IMAGE && length <= MAX_BODY
    ensures CdbSays(BodyChunk(address, length))
  {
    hide BigEndian, FromBigEndian;
    var c := BodyChunk(address, length);
    assert Pow256(2) == 0x1_0000;
    BigEndianRoundTrip(address / UNIT, 2);
    BigEndianRoundTrip(length / UNIT, 2);
    assert c.cdb[3..5] == BigEndian(address / UNIT, 2) && c.cdb[7..9] == BigEndian(length / UNIT, 2);
    assert c.cdb[2] == 2;
  }

  lemma HeaderChunkSays()
    ensures CdbSays(HeaderChunk())
  {
    var c := HeaderChunk();
    assert c.cdb[3..5] == [0, 0] && c.cdb[7..9] == [0, 1];
    assert [0, 0][..1] == [0] && [0][..0] == [] && [0, 1][..1] == [0];
    assert FromBigEndian([]) == 0;
    assert FromBigEndian([0]) == 0;
  }

  lemma ChunkHas(address: nat, length: nat)
    ensures BodyChunk(address, length).offset == HEADER + address && BodyChunk(address, length).length == length
  {
  }

  lemma {:induction false} BodyTiles(address: nat, bodyLen: nat)
    requires address <= bodyLen <= MAX_IMAGE && address % UNIT == 0 && bodyLen % UNIT == 0
    ensures Tiles(BodyFrom(address, bodyLen), HEADER + address, HEADER + bodyLen)
    ensures forall i :: 0 <= i < |BodyFrom(address, bodyLen)| ==> CdbSays(BodyFrom(address, bodyLen)[i])
    decreases bodyLen - address
  {
    hide CdbSays, FromBigEndian, BigEndian, BodyChunk;
    if address < bodyLen {
      var length := Min(bodyLen - address, MAX_BODY);
      StaysAligned(address, bodyLen - address);
      StaysAligned(address, length);
      BodyTiles(address + length, bodyLen);
      BodyChunkSays(address, length);
      ChunkHas(address, length);
      StaysAligned(HEADER, address);
      var rest := BodyFrom(address + length, bodyLen);
      assert BodyFrom(address, bodyLen) == [BodyChunk(address, length)] + rest;
      assert BodyFrom(address, bodyLen)[1..] == rest;
    }
  }

  /** A transfer is the header and then the whole body, chunk after chunk, and every command block says so. */
  lemma ChunksTile(bodyLen: nat)
    requires bodyLen <= MAX_IMAGE && Chunks(bodyLen).Ok?
    ensures Tiles(Chunks(bodyLen).value, 0, HEADER + bodyLen)
    ensures forall i :: 0 <= i < |Chunks(bodyLen).value| ==> CdbSays(Chunks(bodyLen).value[i])
  {
    hide CdbSays, FromBigEndian, BigEndian, BodyFrom;
    BodyTiles(0, bodyLen);
    HeaderChunkSays();
    assert Chunks(bodyLen).value[1..] == BodyFrom(0, bodyLen);
  }

  /** How much of an accepted image is transferred: all of it but a legacy MP tail. */
  function Covered(image: seq<byte>): nat
    requires |image| >= HEADER
  {
    if 1 <= Pages(image) <= 32 then HEADER + Pages(image) * 0x400 else |image|
  }

  /**
   * Every accepted image is transferred from its first byte to the end of its body; only a valid MP tail is left out.
   */
  lemma AcceptedImageIsCovered(image: seq<byte>)
    requires Transfer(image).Ok?
    ensures HEADER <= |image| && HEADER < Covered(image) <= |image|
    ensures Tiles(Transfer(image).value, 0, Covered(image))
    ensures forall i :: 0 <= i < |Transfer(image).value| ==> CdbSays(Transfer(image).value[i])
    ensures Covered(image) < |image| ==> TailValid(image[Covered(image)..])
  {
    hide Chunks, CdbSays, Tiles;
    ChunksTile(Covered(image) - HEADER);
  }

  /** Tiling chunks, laid end to end, are the bytes they cover. */
  function Payload(image: seq<byte>, c: Chunk): seq<byte> {
    if c.offset + c.length <= |image| then image[c.offset..c.offset + c.length] else []
  }

  function Concatenated(image: seq<byte>, chunks: seq<Chunk>): seq<byte> {
    if chunks == [] then [] else Payload(image, chunks[0]) + Concatenated(image, chunks[1..])
  }

  lemma {:induction false} TilesConcatenate(image: seq<byte>, chunks: seq<Chunk>, from: nat, to: nat)
    requires Tiles(chunks, from, to) && to <= |image|
    ensures from <= to && Concatenated(image, chunks) == image[from..to]
    ensures forall i :: 0 <= i < |chunks| ==> chunks[i].offset + chunks[i].length <= to
  {
    if chunks != [] {
      var next := from + chunks[0].length;
      TilesConcatenate(image, chunks[1..], next, to);
      assert image[from..to] == image[from..next] + image[next..to];
    }
  }

  // ----- The packer -----

  /** A loader binary packed as a legacy image. */
  function Pack(binary: seq<byte>): seq<byte> {
    var pages := (|binary| + 1023) / 1024;
    MAGIC + Zeros(8) + LittleEndian(pages, 4) + Zeros(0x1EC) + binary + Zeros(pages * 1024 - |binary|)
  }

  /** Every image the packer builds is accepted and transferred whole, and its body starts with the binary. */
  lemma PackedImageIsTransferredWhole(binary: seq<byte>)
    requires 1 <= |binary| <= 32768
    ensures Transfer(Pack(binary)).Ok? && Covered(Pack(binary)) == |Pack(binary)|
    ensures Pack(binary)[HEADER..HEADER + |binary|] == binary
  {
    hide LittleEndian, FromLittleEndian;
    var pages := (|binary| + 1023) / 1024;
    var image := Pack(binary);
    assert image[..8] == MAGIC;
    assert Pow256(4) == 0x1_0000_0000;
    LittleEndianRoundTrip(pages, 4);
    assert image[0x10..0x14] == LittleEndian(pages, 4);
    assert Pages(image) == pages && |image| == HEADER + pages * 0x400;
    assert pages * 0x400 % UNIT == 0;
  }

  // ----- The transfer itself -----

  datatype Event = IdentityRead | Written(cdb: seq<byte>, payload: seq<byte>) | AckRead | RunSent

  datatype Reply = Refused | Returned(data: seq<byte>)

  /** A transport that answers the n-th command with `reply(n)` and keeps a log. */
  class Transport {
    const reply: nat -> Reply
    var log: seq<Event>

    constructor (reply: nat -> Reply)
      ensures this.reply == reply && log == []
    {
      this.reply := reply;
      log := [];
    }

    method Issue(e: Event) returns (r: Result<seq<byte>>)
      modifies this
      ensures log == old(log) + [e]
      ensures r == Answer(old(|log|))
    {
      r := Answer(|log|);
      log := log + [e];
    }

    function Answer(n: nat): Result<seq<byte>> {
      match reply(n)
      case Refused => Err(Io)
      case Returned(data) => Ok(data)
    }
  }

  predicate Acknowledges(r: Result<seq<byte>>, expected: byte) {
    r.Ok? && |r.value| == 8 && r.value[0] == expected
  }

  /** The commands of a complete load. */
  function Script(image: seq<byte>, chunks: seq<Chunk>): (s: seq<Event>)
    ensures |s| == 2 * |chunks|
  {
    if chunks == [] then []
    else
      var last := chunks[|chunks| - 1];
      Script(image, chunks[..|chunks| - 1]) + [Written(last.cdb, Payload(image, last)), AckRead]
  }

  /** Chunk `i`, written as command `first + 2 * i` and acknowledged by the next, went through. */
  ghost predicate WentThrough(t: Transport, first: nat, chunks: seq<Chunk>, i: nat)
    requires i < |chunks|
  {
    t.Answer(first + 2 * i).Ok? && Acknowledges(t.Answer(first + 2 * i + 1), chunks[i].expectedAck)
  }

  ghost predicate AllWentThrough(t: Transport, first: nat, chunks: seq<Chunk>) {
    forall i :: 0 <= i < |chunks| ==> WentThrough(t, first, chunks, i)
  }

  /** Write chunk after chunk, reading the acknowledgement of each before the next; stop at the first that fails. */
  method SendChunks(t: Transport, image: seq<byte>, chunks: seq<Chunk>) returns (r: Result<()>)
    modifies t
    ensures old(t.log) <= t.log && t.log[|old(t.log)|..] <= Script(image, chunks)
    ensures r.Ok? <==> AllWentThrough(t, |old(t.log)|, chunks)
    ensures r.Ok? ==> t.log == old(t.log) + Script(image, chunks)
  {
    hide Payload, Acknowledges, Script;
    ghost var before, first := t.log, |t.log|;
    EmptyScript(image, chunks);
    for i := 0 to |chunks|
      invariant t.log == before + Script(image, chunks[..i])
      invariant forall k :: 0 <= k < i ==> WentThrough(t, first, chunks, k)
    {
      ScriptStep(image, chunks, i);
      var written := t.Issue(Written(chunks[i].cdb, Payload(image, chunks[i])));
      if written.Err? {
        assert !WentThrough(t, first, chunks, i);
        return Err(written.error);
      }
      var status := t.Issue(AckRead);
      if !Acknowledges(status, chunks[i].expectedAck) {
        assert !WentThrough(t, first, chunks, i);
        return Err(Invalid);
      }
    }
    assert chunks[..|chunks|] == chunks;
    return Ok(());
  }

  lemma EmptyScript(image: seq<byte>, chunks: seq<Chunk>)
    ensures Script(image, chunks[..0]) == []
  {
  }

  lemma ScriptStep(image: seq<byte>, chunks: seq<Chunk>, i: nat)
    requires i < |chunks|
    ensures Script(image, chunks[..i + 1])
            == Script(image, chunks[..i]) + [Written(chunks[i].cdb, Payload(image, chunks[i]))] + [AckRead]
    ensures Script(image, chunks[..i]) + [Written(chunks[i].cdb, Payload(image, chunks[i]))] <= Script(image, chunks)
    ensures Script(image, chunks[..i + 1]) <= Script(image, chunks)
  {
    hide Payload;
    assert chunks[..i + 1][..i] == chunks[..i] && chunks[..i + 1][i] == chunks[i];
    ScriptPrefix(image, chunks, i + 1);
  }

  /** What a load of `chunks` has put in the log, and whether the image was started. */
  ghost predicate LoadedSafely(
    t: Transport, before: seq<Event>, after: seq<Event>, image: seq<byte>, chunks: seq<Chunk>, ok: bool)
  {
    var script := before + [IdentityRead] + Script(image, chunks);
    var started := after == script + [RunSent];
    && (started || (before <= after <= script))
    && (started <==> AllWentThrough(t, |before| + 1, chunks))
    && (ok <==> started && t.Answer(|script|).Ok?)
  }

  /**
   * Load and start an image. The log grows by a prefix of the full script; the start command is sent only once every
   * chunk was written in order and acknowledged, so never after a failure.
   */
  method LoadPram(t: Transport, image: seq<byte>, isTarget: seq<byte> -> bool) returns (r: Result<()>)
    modifies t
    ensures var identity := t.Answer(|old(t.log)|);
            if identity.Ok? && isTarget(identity.value) && Transfer(image).Ok?
            then LoadedSafely(t, old(t.log), t.log, image, Transfer(image).value, r.Ok?)
            else r.Err? && t.log == old(t.log) + [IdentityRead]
  {
    hide Transfer, Script, AllWentThrough;
    ghost var before := t.log;
    var version :- t.Issue(IdentityRead);
    if !isTarget(version) {
      return Err(Permission);
    }
    var chunks :- Transfer(image);
    var sent := SendChunks(t, image, chunks);
    ghost var script := before + [IdentityRead] + Script(image, chunks);
    if sent.Err? {
      assert t.log == before + [IdentityRead] + t.log[|before| + 1..];
      assert t.log <= script;
      return sent;
    }
    var run := t.Issue(RunSent);
    if run.Err? {
      return Err(run.error);
    }
    return Ok(());
  }

  /** The start command appears in a safe load's log exactly when the load was complete. */
  lemma StartedIffComplete(
    t: Transport, before: seq<Event>, after: seq<Event>, image: seq<byte>, chunks: seq<Chunk>, ok: bool)
    requires LoadedSafely(t, before, after, image, chunks, ok)
    ensures |before| <= |after|
    ensures RunSent in after[|before|..] <==> AllWentThrough(t, |before| + 1, chunks)
    ensures RunSent in after[|before|..] ==> after[|before|..] == [IdentityRead] + Script(image, chunks) + [RunSent]
  {
    hide Script, AllWentThrough;
    var script := before + [IdentityRead] + Script(image, chunks);
    NoRun(image, chunks);
    assert script[|before|..] == [IdentityRead] + Script(image, chunks);
    if after == script + [RunSent] {
      assert after[|before|..] == [IdentityRead] + Script(image, chunks) + [RunSent];
      assert after[|after| - 1] == RunSent && after[|before|..][|after| - 1 - |before|] == RunSent;
    } else {
      assert after[|before|..] == script[|before|..][..|after| - |before|];
      assert RunSent !in script[|before|..];
    }
  }

  lemma {:induction false} ScriptPrefix(image: seq<byte>, chunks: seq<Chunk>, n: nat)
    requires n <= |chunks|
    ensures Script(image, chunks[..n]) <= Script(image, chunks)
  {
    hide Payload;
    if n == |chunks| {
      assert chunks[..n] == chunks;
    } else {
      var front := chunks[..|chunks| - 1];
      assert front[..n] == chunks[..n];
      ScriptPrefix(image, front, n);
    }
  }

  lemma {:induction false} NoRun(image: seq<byte>, chunks: seq<Chunk>)
    ensures RunSent !in Script(image, chunks)
  {
    if chunks != [] {
      NoRun(image, chunks[..|chunks| - 1]);
    }
  }
}
