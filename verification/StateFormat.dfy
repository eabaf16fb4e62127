/** The state file byte for byte: what a loaded state attests, and what damage to a slot does to the next load. */
module StateFormat {
  import opened Wrappers
  import opened Bytes
  import opened StateStore
  import opened CrashSafety

  /**
   * Slot `k` holds `st`: 512 descriptor bytes at 512 k, and a data area at 4096 + 64 MiB k. Bytes 0-7 of the descriptor
   * read "NCLRCSR1", byte 8 is the slot, 16-23 the sequence number, 24-31 the payload's length, 32-63 its digest, and
   * 64-95 the digest of all that.
   */
  ghost predicate Attests(c: Codec, file: seq<byte>, k: nat, st: RunState)
    requires |file| == 134_221_824 && k < 2
  {
    var raw, area := file[512 * k..512 * k + 512], 4096 + 67_108_864 * k;
    var length := FromLittleEndian(raw[24..32]);
    && raw[..8] == [0x4E, 0x43, 0x4C, 0x52, 0x43, 0x53, 0x52, 0x31] && raw[8] == k
    && raw[64..96] == c.digest(raw[..64])
    && 1 <= length <= 67_108_864
    && c.digest(file[area..area + length]) == raw[32..64]
    && c.parse(file[area..area + length]) == Some(st)
    && FromLittleEndian(raw[16..24]) == st.sequence
  }

  lemma SlotStateIff(c: Codec, file: seq<byte>, k: Slot, st: RunState)
    requires |file| == FILE_BYTES
    ensures SlotState(c, file, k) == Some(st) <==> Attests(c, file, k, st)
  {
    hide FromLittleEndian;
    assert DescriptorOffset(k) == 512 * k && SlotOffset(k) == 4096 + 67_108_864 * k;
  }

  /** The slot that loading prefers: the larger sequence number, and the second of two equal ones. */
  ghost predicate Newest(c: Codec, file: seq<byte>, k: nat, st: RunState)
    requires |file| == 134_221_824 && k < 2
  {
    && Attests(c, file, k, st)
    && forall other: RunState :: Attests(c, file, 1 - k, other) ==>
                                   other.sequence < st.sequence || (other.sequence == st.sequence && k == 1)
  }

  /** A load finds exactly the newest state that a slot attests. */
  lemma LoadFindsIff(c: Codec, file: seq<byte>, st: RunState)
    ensures LoadBytes(c, file) == Ok(Some(st)) <==>
            |file| == 134_221_824 && (Newest(c, file, 0, st) || Newest(c, file, 1, st))
  {
    hide SlotState, Attests;
    if |file| == FILE_BYTES {
      forall k: Slot, s: RunState
        ensures SlotState(c, file, k) == Some(s) <==> Attests(c, file, k, s)
      {
        SlotStateIff(c, file, k, s);
      }
    }
  }

  /**
   * It finds nothing exactly in an empty file or one whose two descriptors are all zero, and fails on anything else.
   */
  lemma LoadFindsNothingIff(c: Codec, file: seq<byte>)
    ensures LoadBytes(c, file) == Ok(None) <==>
            |file| == 0 || (|file| == 134_221_824 && forall i :: 0 <= i < 1024 ==> file[i] == 0)
  {
    if |file| == FILE_BYTES {
      BlankIff(file);
      if DescriptorsUninitialized(file) {
        FreshLoads(c, file);
      }
    }
  }

  lemma BlankIff(file: seq<byte>)
    requires |file| == FILE_BYTES
    ensures DescriptorsUninitialized(file) <==> forall i :: 0 <= i < 1024 ==> file[i] == 0
  {
    if DescriptorsUninitialized(file) {
      forall i | 0 <= i < 1024
        ensures file[i] == 0
      {
        var k: Slot := if i < 512 then 0 else 1;
        assert RawDescriptor(file, k)[i - 512 * k] == 0;
      }
    }
  }

  // ----- Damage -----

  /** What a load makes of a file one of whose slots is void. */
  function OtherSlotOnly(c: Codec, file: seq<byte>, k: Slot): Result<Option<RunState>>
    requires |file| == FILE_BYTES
  {
    match SlotState(c, file, Other(k))
    case Some(older) => Ok(Some(older))
    case None => Err(Invalid)
  }

  lemma VoidSlot(c: Codec, file: seq<byte>, k: Slot)
    requires |file| == FILE_BYTES && SlotState(c, file, k).None? && !DescriptorsUninitialized(file)
    ensures LoadBytes(c, file) == OtherSlotOnly(c, file, k)
  {
    hide SlotState, DescriptorsUninitialized;
    assert k == 0 || k == 1;
  }

  lemma NotBlank(c: Codec, file: seq<byte>, k: Slot)
    requires |file| == FILE_BYTES && RawDescriptor(file, k)[..8] == MAGIC
    ensures !DescriptorsUninitialized(file)
  {
    assert RawDescriptor(file, k)[..8][0] == 78;
    assert Zeros(DESCRIPTOR_BYTES)[0] == 0;
  }

  /** A payload whose bytes no longer have the recorded digest is never loaded: the older slot is, or nothing. */
  lemma DamagedPayloadIsNotLoaded(c: Codec, file: seq<byte>, st: RunState, patch: seq<byte>)
    requires Committed(c, file, st)
    requires var d := ReadDescriptor(c, file, SlotOf(st)).value;
             |patch| == d.length && c.digest(patch) != d.digest
    ensures var damaged := Overwrite(file, SlotOffset(SlotOf(st)), patch);
            && SlotState(c, damaged, SlotOf(st)) == None
            && SlotState(c, damaged, Other(SlotOf(st))) == SlotState(c, file, Other(SlotOf(st)))
            && LoadBytes(c, damaged) == OtherSlotOnly(c, file, SlotOf(st))
  {
    hide ParseDescriptor;
    var k := SlotOf(st);
    var at := SlotOffset(k);
    var d, damaged := ReadDescriptor(c, file, k).value, Overwrite(file, at, patch);
    OverwriteKeeps(file, at, patch, DescriptorOffset(k), DESCRIPTOR_BYTES);
    OverwriteKeeps(file, at, patch, DescriptorOffset(Other(k)), DESCRIPTOR_BYTES);
    OverwriteKeeps(file, at, patch, SlotOffset(Other(k)), SLOT_BYTES);
    assert SlotPayload(damaged, d) == patch;
    SameSlot(c, file, damaged, Other(k));
    assert RawDescriptor(damaged, k)[..8] == MAGIC by {
      HasMagic(c, file, k);
    }
    NotBlank(c, damaged, k);
    VoidSlot(c, damaged, k);
  }

  lemma HasMagic(c: Codec, file: seq<byte>, k: Slot)
    requires |file| == FILE_BYTES && ReadDescriptor(c, file, k).Some?
    ensures RawDescriptor(file, k)[..8] == MAGIC
  {
  }

  /**
   * A descriptor whose head no longer has the digest in its bytes 64-95 voids its slot in the same way; only if both
   * descriptors are now zero does the file count as empty.
   */
  lemma DamagedDescriptorIsNotLoaded(c: Codec, file: seq<byte>, st: RunState, raw: seq<byte>)
    requires Committed(c, file, st)
    requires |raw| == 512 && raw[64..96] != c.digest(raw[..64])
    ensures var damaged := Overwrite(file, DescriptorOffset(SlotOf(st)), raw);
            && SlotState(c, damaged, SlotOf(st)) == None
            && SlotState(c, damaged, Other(SlotOf(st))) == SlotState(c, file, Other(SlotOf(st)))
            && LoadBytes(c, damaged) == if DescriptorsUninitialized(damaged) then Ok(None)
                                        else OtherSlotOnly(c, file, SlotOf(st))
  {
    var k := SlotOf(st);
    var at := DescriptorOffset(k);
    var damaged := Overwrite(file, at, raw);
    OverwriteKeeps(file, at, raw, DescriptorOffset(Other(k)), DESCRIPTOR_BYTES);
    OverwriteKeeps(file, at, raw, SlotOffset(Other(k)), SLOT_BYTES);
    assert RawDescriptor(damaged, k) == raw;
    hide ParseDescriptor;
    SameSlot(c, file, damaged, Other(k));
    assert ParseDescriptor(c, raw, k) == None by {
      BadHead(c, raw, k);
    }
    if DescriptorsUninitialized(damaged) {
      FreshLoads(c, damaged);
    } else {
      VoidSlot(c, damaged, k);
    }
  }

  lemma BadHead(c: Codec, raw: seq<byte>, k: Slot)
    requires |raw| == DESCRIPTOR_BYTES && raw[64..96] != c.digest(raw[..64])
    ensures ParseDescriptor(c, raw, k) == None
  {
  }

  // ----- What a store writes -----

  /** When a store goes through, and with what number. */
  lemma NextStateIff(c: Codec, file: seq<byte>, state: RunState, next: RunState)
    ensures NextState(c, file, state) == Ok(next) <==>
            && next.body == state.body && 1 <= |c.ser(next)| <= 67_108_864
            && (LoadBytes(c, file) == Ok(None) ==> next.sequence == 0)
            && (LoadBytes(c, file).Ok? && LoadBytes(c, file).value.Some? ==>
                next.sequence == LoadBytes(c, file).value.value.sequence + 1)
            && LoadBytes(c, file).Ok?
  {
    hide LoadBytes;
  }

  lemma LoadedSize(c: Codec, file: seq<byte>)
    requires LoadBytes(c, file).Ok?
    ensures |file| == 0 || |file| == FILE_BYTES
  {
  }

  /** A store that returned leaves a file that attests the new state in the slot of its number's parity. */
  lemma StoredStateIsAttested(c: Codec, d: Disk, state: RunState)
    requires c.Sound() && NextState(c, d.data, state).Ok?
    ensures |Last(StoreTrail(c, d, state)).data| == 134_221_824
    ensures var next := NextState(c, d.data, state).value;
            Attests(c, Last(StoreTrail(c, d, state)).data, next.sequence % 2, next)
  {
    hide ParseDescriptor, DescriptorBytes, SlotState, LoadBytes, Attests;
    LoadedSize(c, d.data);
    var next := NextState(c, d.data, state).value;
    var slot, d1 := SlotOf(next), Allocated(d);
    var d3 := DiskSync(PayloadWritten(c, d1, next));
    var raw := DescriptorBytes(c, NewDescriptor(c, next));
    var file := Last(StoreTrail(c, d, state)).data;
    DescriptorRoundTrip(c, NewDescriptor(c, next));
    assert file == Overwrite(d3.data, DescriptorOffset(slot), raw);
    OverwriteKeeps(d3.data, DescriptorOffset(slot), raw, SlotOffset(slot), |c.ser(next)|);
    assert RawDescriptor(file, slot) == raw;
    NewSlotState(c, next, file);
    SlotStateIff(c, file, slot, next);
  }
}
