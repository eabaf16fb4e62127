/** Which PRAM images are accepted, byte by byte, and which chunks an accepted one is cut into. */
module PramImage {
  import opened Bytes
  import opened PramTransfer

  function CodeOf(c: char): byte { c as int % 256 }

  /** The bytes from `at` spell `t`. */
  predicate Spells(image: seq<byte>, at: nat, t: string) {
    at + |t| <= |image| && forall i :: 0 <= i < |t| ==> image[at + i] == CodeOf(t[i])
  }

  predicate AllZero(image: seq<byte>, from: nat, to: nat) {
    forall i :: from <= i < to && i < |image| ==> image[i] == 0
  }

  /** The MP tail: its mark, a controller byte, a fixed tuple, a version and a closing 'B', then nothing. */
  predicate TailAt(image: seq<byte>, at: nat) {
    && |image| == at + 512 && Spells(image, at, "this is mp mark") && image[at + 15] == 0
    && 1 <= image[at + 16] <= 254
    && image[at + 17] == 1 && image[at + 18] == 0 && image[at + 19] == 16 && image[at + 20] == 1
    && (image[at + 21] != 0 || image[at + 22] != 0) && image[at + 23] == CodeOf('B')
    && AllZero(image, at + 24, at + 512)
  }

  /** The page count of the header, at offset 16. */
  function PageCount(image: seq<byte>): nat
    requires |image| >= 512
  {
    FromLittleEndian(image[16..20])
  }

  predicate HasHeader(image: seq<byte>) { 512 <= |image| <= 1_048_576 && Spells(image, 0, "BtPramCd") }

  /** One to 32 pages of 1 KiB behind the header, and nothing or an MP tail behind them. */
  predicate LegacyImage(image: seq<byte>) {
    && HasHeader(image) && 1 <= PageCount(image) <= 32
    && var end := 512 + 1024 * PageCount(image);
       |image| == end || TailAt(image, end)
  }

  /** A descriptor in place of the page count, zeros around it, and a body in whole units that is not blank. */
  predicate ExtendedImage(image: seq<byte>) {
    && HasHeader(image) && !(1 <= PageCount(image) <= 32)
    && |image| % 512 == 0 && |image| > 512
    && AllZero(image, 8, 16) && !AllZero(image, 16, 20) && AllZero(image, 20, 512)
    && (exists i :: 512 <= i < |image| && image[i] != 0) && exists i :: 512 <= i < |image| && image[i] != 255
  }

  lemma SpellsIff(image: seq<byte>, at: nat, t: string, bytes: seq<byte>)
    requires |bytes| == |t| && (forall i :: 0 <= i < |t| ==> bytes[i] == CodeOf(t[i])) && at + |t| <= |image|
    ensures Spells(image, at, t) <==> image[at..at + |t|] == bytes
  {
    var part := image[at..at + |t|];
    if part == bytes {
      assert forall i :: 0 <= i < |t| ==> image[at + i] == part[i];
    }
  }

  lemma ZeroIff(image: seq<byte>, from: nat, to: nat)
    requires from <= to <= |image|
    ensures AllZero(image, from, to) <==> AllBytes(image[from..to], 0)
  {
    var part := image[from..to];
    if AllBytes(part, 0) {
      assert forall i :: from <= i < to ==> image[i] == part[i - from];
    }
  }

  lemma UniformIff(image: seq<byte>, from: nat, v: byte)
    requires from <= |image|
    ensures AllBytes(image[from..], v) <==> forall i :: from <= i < |image| ==> image[i] == v
  {
    var part := image[from..];
    if AllBytes(part, v) {
      assert forall i :: from <= i < |image| ==> image[i] == part[i - from];
    }
  }

  lemma HeaderIff(image: seq<byte>)
    ensures Marked(image) <==> HasHeader(image)
  {
    if |image| >= 512 {
      SpellsIff(image, 0, "BtPramCd", MAGIC);
      assert image[0..8] == image[..8];
    }
  }

  lemma TailIff(image: seq<byte>, at: nat)
    requires at <= |image|
    ensures TailValid(image[at..]) <==> TailAt(image, at)
  {
    hide AllBytes, AllZero, Spells;
    if |image| == at + 512 {
      var tail := image[at..];
      assert tail[..16] == image[at..at + 16] && tail[17..21] == image[at + 17..at + 21];
      assert tail[24..] == image[at + 24..at + 512];
      assert tail[16] == image[at + 16] && tail[21] == image[at + 21] && tail[22] == image[at + 22];
      assert tail[23] == image[at + 23] && CodeOf('B') == 0x42;
      MarkIff(image, at);
      ZeroIff(image, at + 24, at + 512);
      TupleIff(image, at + 17);
    }
  }

  lemma MarkIff(image: seq<byte>, at: nat)
    requires at + 16 <= |image|
    ensures image[at..at + 16] == MP_MARK <==> Spells(image, at, "this is mp mark") && image[at + 15] == 0
  {
    var bytes := MP_MARK[..15];
    assert MP_MARK == bytes + [0];
    SpellsIff(image, at, "this is mp mark", bytes);
    assert image[at..at + 16] == image[at..at + 15] + [image[at + 15]];
  }

  lemma TupleIff(image: seq<byte>, at: nat)
    requires at + 4 <= |image|
    ensures image[at..at + 4] == [0x01, 0x00, 0x10, 0x01] <==>
            image[at] == 1 && image[at + 1] == 0 && image[at + 2] == 16 && image[at + 3] == 1
  {
    var part := image[at..at + 4];
    assert part[0] == image[at] && part[1] == image[at + 1] && part[2] == image[at + 2] && part[3] == image[at + 3];
  }

  lemma PagesAre(image: seq<byte>)
    requires |image| >= 512
    ensures Pages(image) == PageCount(image)
  {
  }

  lemma LegacyIff(image: seq<byte>)
    ensures Legacy(image).Ok? <==> LegacyImage(image)
  {
    hide Marked, HasHeader, TailValid, TailAt;
    HeaderIff(image);
    MarkedSize(image);
    if Marked(image) {
      PagesAre(image);
      var expected := 512 + PageCount(image) * 0x400;
      WholeUnits(PageCount(image));
      if expected <= |image| {
        TailIff(image, expected);
      }
      TailSize(image, expected);
    }
  }

  lemma TailSize(image: seq<byte>, at: nat)
    ensures TailAt(image, at) ==> |image| == at + 512
  {
  }

  lemma MarkedSize(image: seq<byte>)
    ensures Marked(image) ==> |image| >= 512
  {
  }

  lemma WholeUnits(pages: nat)
    ensures pages * 0x400 % UNIT == 0
  {
  }

  lemma ExtendedIff(image: seq<byte>)
    requires |image| >= 512 ==> !(1 <= PageCount(image) <= 32)
    ensures Extended(image).Ok? <==> ExtendedImage(image)
  {
    hide Marked, HasHeader, AllBytes, AllZero, FromLittleEndian;
    HeaderIff(image);
    MarkedSize(image);
    if Marked(image) {
      ZeroIff(image, 8, 16);
      ZeroIff(image, 16, 20);
      ZeroIff(image, 20, 512);
      UniformIff(image, 512, 0);
      UniformIff(image, 512, 255);
      UnitsBehind(|image|);
    }
  }

  lemma UnitsBehind(n: nat)
    requires n >= 512
    ensures (n - HEADER) % UNIT == n % 512
  {
  }

  /** An image is accepted exactly when it is one of the two kinds. */
  lemma AcceptedIff(image: seq<byte>)
    ensures Transfer(image).Ok? <==> LegacyImage(image) || ExtendedImage(image)
  {
    hide Legacy, Extended, HasHeader, FromLittleEndian;
    LegacyIff(image);
    if |image| < 512 {
      TooShort(image);
    } else {
      PagesAre(image);
      if !(1 <= PageCount(image) <= 32) {
        ExtendedIff(image);
      }
    }
  }

  lemma TooShort(image: seq<byte>)
    requires |image| < 512
    ensures Transfer(image).Err? && !LegacyImage(image) && !ExtendedImage(image)
  {
  }

  // ----- The chunks -----

  /** Chunk `i` of a transfer of `n` bytes: the header, or up to 32 KiB of the body, with every byte of its command. */
  predicate IsChunk(c: Chunk, i: nat, n: nat) {
    var at := if i == 0 then 0 else 512 + 32_768 * (i - 1);
    var size := if i == 0 then 512 else if at <= n then Min(32_768, n - at) else 0;
    && at + size <= n && c.offset == at && c.length == size && |c.cdb| == 16
    && c.cdb[0] == 0x06 && c.cdb[1] == 0xB1 && c.cdb[2] == (if i == 0 then 3 else 2)
    && c.cdb[3] == (if i == 0 then 0 else 64 * (i - 1) / 256) && c.cdb[4] == (if i == 0 then 0 else 64 * (i - 1) % 256)
    && c.cdb[7] == size / 512 / 256 && c.cdb[8] == size / 512 % 256
    && c.cdb[5] == 0 && c.cdb[6] == 0 && (forall k :: 9 <= k < 16 ==> c.cdb[k] == 0)
    && c.expectedAck == (if i == 0 then 0x55 else 0xA5)
  }

  lemma TwoBytes(v: nat)
    requires v < 0x1_0000
    ensures BigEndian(v, 2) == [v / 256, v % 256]
  {
    assert BigEndian(v / 256, 1) == [v / 256 % 256];
    assert v / 256 % 256 == v / 256;
  }

  lemma BodyChunkIs(address: nat, length: nat, i: nat, n: nat)
    requires address == 32_768 * i && i < 32 && 512 + address + length <= n && length == Min(32_768, n - 512 - address)
    ensures IsChunk(BodyChunk(address, length), i + 1, n)
  {
    assert address / UNIT == 64 * i;
    TwoBytes(64 * i);
    TwoBytes(length / UNIT);
  }

  lemma {:induction false} BodyChunksAre(k: nat, bodyLen: nat)
    requires bodyLen <= MAX_IMAGE
    ensures var chunks := BodyFrom(32_768 * k, bodyLen);
            && (forall i :: 0 <= i < |chunks| ==> IsChunk(chunks[i], k + i + 1, 512 + bodyLen))
            && (bodyLen <= 32_768 * (k + |chunks|))
            && (|chunks| > 0 ==> 32_768 * (k + |chunks| - 1) < bodyLen)
    decreases bodyLen - 32_768 * k
  {
    hide BodyChunk, IsChunk;
    if 32_768 * k < bodyLen {
      var length := Min(bodyLen - 32_768 * k, MAX_BODY);
      BodyChunkIs(32_768 * k, length, k, 512 + bodyLen);
      if length == MAX_BODY {
        BodyChunksAre(k + 1, bodyLen);
        assert 32_768 * k + length == 32_768 * (k + 1);
      } else {
        assert BodyFrom(32_768 * k + length, bodyLen) == [];
      }
    }
  }

  /** The chunks of an accepted image, one by one; together they end where the body does. */
  lemma ChunksAre(bodyLen: nat)
    requires bodyLen <= MAX_IMAGE && Chunks(bodyLen).Ok?
    ensures var chunks := Chunks(bodyLen).value;
            && |chunks| >= 1 && (forall i :: 0 <= i < |chunks| ==> IsChunk(chunks[i], i, 512 + bodyLen))
            && bodyLen <= 32_768 * (|chunks| - 1) && (bodyLen > 32_768 * (|chunks| - 2) || bodyLen == 0)
            && (bodyLen == 0 ==> |chunks| == 1)
  {
    hide IsChunk, BodyChunk, BodyFrom;
    BodyChunksAre(0, bodyLen);
    HeaderIs(bodyLen);
    var chunks, body := Chunks(bodyLen).value, BodyFrom(0, bodyLen);
    assert BodyFrom(32_768 * 0, bodyLen) == body;
    forall i | 0 <= i < |chunks|
      ensures IsChunk(chunks[i], i, 512 + bodyLen)
    {
      if i > 0 {
        assert chunks[i] == body[i - 1];
      }
    }
  }

  lemma HeaderIs(bodyLen: nat)
    ensures IsChunk(HeaderChunk(), 0, 512 + bodyLen)
  {
  }

  /** Every chunk of an accepted image is what its place says. */
  lemma AcceptedChunksAre(image: seq<byte>)
    requires Transfer(image).Ok?
    ensures HEADER <= |image|
    ensures forall i :: 0 <= i < |Transfer(image).value| ==> IsChunk(Transfer(image).value[i], i, Covered(image))
  {
    hide Chunks, IsChunk;
    AcceptedImageIsCovered(image);
    ChunksAre(Covered(image) - HEADER);
  }

  /** After `n` commands and one more, chunk `i` was written, and the eight bytes read back start with its answer. */
  ghost predicate Confirmed(t: Transport, n: nat, i: nat) {
    && t.reply(n + 1 + 2 * i).Returned?
    && match t.reply(n + 1 + 2 * i + 1)
       case Refused => false
       case Returned(data) => |data| == 8 && data[0] == if i == 0 then 0x55 else 0xA5
  }

  lemma ConfirmedIff(t: Transport, n: nat, chunks: seq<Chunk>, i: nat, end: nat)
    requires i < |chunks| && IsChunk(chunks[i], i, end)
    ensures WentThrough(t, n + 1, chunks, i) <==> Confirmed(t, n, i)
  {
  }

  /** The image is started exactly when every chunk of it was confirmed. */
  lemma StartedIffConfirmed(t: Transport, before: seq<Event>, after: seq<Event>, image: seq<byte>, ok: bool)
    requires Transfer(image).Ok? && LoadedSafely(t, before, after, image, Transfer(image).value, ok)
    ensures |before| <= |after|
    ensures RunSent in after[|before|..] <==>
            forall i :: 0 <= i < |Transfer(image).value| ==> Confirmed(t, |before|, i)
  {
    hide WentThrough, Confirmed, IsChunk, Transfer, LoadedSafely;
    var chunks := Transfer(image).value;
    StartedIffComplete(t, before, after, image, chunks, ok);
    AcceptedChunksAre(image);
    var first := |before| + 1;
    forall i | 0 <= i < |chunks|
      ensures WentThrough(t, first, chunks, i) <==> Confirmed(t, |before|, i)
    {
      ConfirmedIff(t, |before|, chunks, i, Covered(image));
    }
  }
}
