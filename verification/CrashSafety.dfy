/** What every crash, at any point of any store of any run, leaves for the next load to find. */
module CrashSafety {
  import opened Wrappers
  import opened Bytes
  import opened StateStore

  function Other(slot: Slot): Slot { 1 - slot }

  /** A file whose newest commit is `st`: its slot is whole and the other descriptor is older or void. */
  ghost predicate Committed(c: Codec, file: seq<byte>, st: RunState) {
    && |file| == FILE_BYTES
    && SlotState(c, file, SlotOf(st)) == Some(st)
    && var other := ReadDescriptor(c, file, Other(SlotOf(st)));
       other.Some? ==> other.value.sequence < st.sequence
  }

  /** No store has begun to write a descriptor. */
  ghost predicate Fresh(file: seq<byte>) {
    |file| == 0 || (|file| == FILE_BYTES && DescriptorsUninitialized(file))
  }

  /** The very first descriptor was torn: neither blank nor valid. */
  ghost predicate TornFirst(c: Codec, file: seq<byte>) {
    && |file| == FILE_BYTES
    && !DescriptorsUninitialized(file)
    && ReadDescriptor(c, file, 0).None? && ReadDescriptor(c, file, 1).None?
  }

  lemma CommittedLoads(c: Codec, file: seq<byte>, st: RunState)
    requires Committed(c, file, st)
    ensures LoadBytes(c, file) == Ok(Some(st))
  {
    assert SlotOf(st) == 0 || SlotOf(st) == 1;
  }

  lemma FreshLoads(c: Codec, file: seq<byte>)
    requires Fresh(file)
    ensures LoadBytes(c, file) == Ok(None)
  {
    if |file| != 0 {
      assert RawDescriptor(file, 0)[..8] == Zeros(8) && RawDescriptor(file, 1)[..8] == Zeros(8);
      assert Zeros(8)[0] == 0;
    }
  }

  // ----- What a crash cannot change -----

  lemma KeptSlice(d: Disk, image: seq<byte>, from: nat, count: nat)
    requires CrashImage(d, image) && |image| == |d.data| && from + count <= |image|
    requires forall i :: from <= i < from + count ==> !d.Touched(i)
    ensures image[from..from + count] == d.data[from..from + count]
  {
  }

  lemma PayloadInSlot(file: seq<byte>, d: Descriptor)
    requires |file| == FILE_BYTES && d.length <= SLOT_BYTES
    ensures file[SlotOffset(d.slot)..SlotOffset(d.slot) + SLOT_BYTES][..d.length] == SlotPayload(file, d)
  {
  }

  /** A slot whose descriptor and data area have the same bytes holds the same state. */
  lemma SameSlot(c: Codec, a: seq<byte>, b: seq<byte>, slot: Slot)
    requires |a| == |b| == FILE_BYTES
    requires RawDescriptor(a, slot) == RawDescriptor(b, slot)
    requires a[SlotOffset(slot)..SlotOffset(slot) + SLOT_BYTES] == b[SlotOffset(slot)..SlotOffset(slot) + SLOT_BYTES]
    ensures SlotState(c, a, slot) == SlotState(c, b, slot)
  {
    hide ParseDescriptor, RawDescriptor, SlotPayload;
    var d := ReadDescriptor(c, a, slot);
    if d.Some? {
      PayloadInSlot(a, d.value);
      PayloadInSlot(b, d.value);
    }
  }

  /** The descriptor and data area of `slot` are equal in both files. */
  ghost predicate SlotKept(a: seq<byte>, b: seq<byte>, slot: Slot) {
    && |a| == |b| == FILE_BYTES
    && RawDescriptor(a, slot) == RawDescriptor(b, slot)
    && a[SlotOffset(slot)..SlotOffset(slot) + SLOT_BYTES] == b[SlotOffset(slot)..SlotOffset(slot) + SLOT_BYTES]
  }

  /** Unsynced bytes lie in the data area of `slot` only. */
  ghost predicate PendingIn(d: Disk, slot: Slot) {
    forall k :: 0 <= k < |d.pending| ==> RangeIn(d.pending[k], slot)
  }

  predicate RangeIn(r: Range, slot: Slot) {
    SlotOffset(slot) <= r.start && r.start + r.count <= SlotOffset(slot) + SLOT_BYTES
  }

  ghost predicate Settled(d: Disk, slot: Slot) { d.durableLength == |d.data| && PendingIn(d, slot) }

  /** Before the descriptor write, a crash keeps the other slot and both descriptors. */
  lemma PayloadCrash(c: Codec, d: Disk, slot: Slot, image: seq<byte>)
    requires |d.data| == FILE_BYTES && Settled(d, slot) && CrashImage(d, image)
    ensures SlotKept(d.data, image, Other(slot)) && RawDescriptor(image, slot) == RawDescriptor(d.data, slot)
  {
    KeptSlice(d, image, 0, DATA_OFFSET);
    assert forall s: Slot ::
        image[..DATA_OFFSET][DescriptorOffset(s)..DescriptorOffset(s) + DESCRIPTOR_BYTES] == RawDescriptor(image, s);
    assert forall s: Slot ::
        d.data[..DATA_OFFSET][DescriptorOffset(s)..DescriptorOffset(s) + DESCRIPTOR_BYTES] == RawDescriptor(d.data, s);
    KeptSlice(d, image, SlotOffset(Other(slot)), SLOT_BYTES);
  }

  /** The serialized state lies at the start of its slot's data area. */
  ghost predicate PayloadIn(c: Codec, file: seq<byte>, next: RunState) {
    && |file| == FILE_BYTES && 0 < |c.ser(next)| <= SLOT_BYTES
    && file[SlotOffset(SlotOf(next))..SlotOffset(SlotOf(next)) + |c.ser(next)|] == c.ser(next)
  }

  lemma DescriptorWriteKeeps(d: Disk, slot: Slot, raw: seq<byte>, image: seq<byte>, from: nat, count: nat)
    requires d.Clean() && |d.data| == FILE_BYTES && |raw| == DESCRIPTOR_BYTES
    requires CrashImage(DiskWrite(d, DescriptorOffset(slot), raw), image)
    requires from + count <= FILE_BYTES
    requires from + count <= DescriptorOffset(slot) || DescriptorOffset(slot) + DESCRIPTOR_BYTES <= from
    ensures |image| == FILE_BYTES && image[from..from + count] == d.data[from..from + count]
  {
    var w := DiskWrite(d, DescriptorOffset(slot), raw);
    assert w.pending == [Range(DescriptorOffset(slot), DESCRIPTOR_BYTES)];
    KeptSlice(w, image, from, count);
    OverwriteKeeps(d.data, DescriptorOffset(slot), raw, from, count);
  }

  /** During the descriptor write, a crash keeps the other slot and the new payload. */
  lemma DescriptorCrash(c: Codec, d: Disk, next: RunState, image: seq<byte>)
    requires c.Sound() && d.Clean() && PayloadIn(c, d.data, next)
    requires CrashImage(DescriptorWritten(c, d, next), image)
    ensures SlotKept(d.data, image, Other(SlotOf(next))) && PayloadIn(c, image, next)
  {
    hide DescriptorHead, ParseDescriptor;
    var slot, w := SlotOf(next), DescriptorWritten(c, d, next);
    var raw := DescriptorBytes(c, NewDescriptor(c, next));
    DescriptorRoundTrip(c, NewDescriptor(c, next));
    DescriptorWriteKeeps(d, slot, raw, image, DescriptorOffset(Other(slot)), DESCRIPTOR_BYTES);
    DescriptorWriteKeeps(d, slot, raw, image, SlotOffset(Other(slot)), SLOT_BYTES);
    DescriptorWriteKeeps(d, slot, raw, image, SlotOffset(slot), |c.ser(next)|);
  }

  lemma CleanCrash(d: Disk, image: seq<byte>)
    requires d.Clean() && CrashImage(d, image)
    ensures image == d.data
  {
  }

  /** With the new payload and descriptor on disk, the slot holds the new state. */
  lemma NewSlotState(c: Codec, next: RunState, file: seq<byte>)
    requires Storable(c, next) && PayloadIn(c, file, next)
    requires ReadDescriptor(c, file, SlotOf(next)) == Some(NewDescriptor(c, next))
    ensures SlotState(c, file, SlotOf(next)) == Some(next)
  {
    assert SlotPayload(file, NewDescriptor(c, next)) == c.ser(next);
  }

  /**
   * The one assumption about torn writes: a descriptor caught in the middle of being overwritten
   * parses as nothing, as the old descriptor or as the new one. Its 32-byte checksum is there for this.
   */
  ghost predicate TearDetected(c: Codec, before: seq<byte>, after: seq<byte>, image: seq<byte>) {
    |before| == |after| == |image| == FILE_BYTES ==>
      TornParse(c, before, after, image, 0) && TornParse(c, before, after, image, 1)
  }

  ghost predicate TornParse(c: Codec, before: seq<byte>, after: seq<byte>, image: seq<byte>, slot: Slot)
    requires |before| == |after| == |image| == FILE_BYTES
  {
    var got := ReadDescriptor(c, image, slot);
    got.None? || got == ReadDescriptor(c, before, slot) || got == ReadDescriptor(c, after, slot)
  }

  /** A power loss after step `k` of a store of `state` may leave `image`. */
  ghost predicate CrashAt(c: Codec, d: Disk, state: RunState, k: nat, image: seq<byte>)
    requires c.Sound()
  {
    var trail := StoreTrail(c, d, state);
    && k < |trail|
    && CrashImage(trail[k], image)
    && (|trail| == 6 ==> TearDetected(c, trail[1].data, trail[5].data, image))
  }

  // ----- One store -----

  lemma WriteKeeps(d: Disk, slot: Slot, patch: seq<byte>)
    requires |d.data| == FILE_BYTES && |patch| <= SLOT_BYTES
    ensures SlotKept(d.data, DiskWrite(d, SlotOffset(slot), patch).data, Other(slot))
    ensures RawDescriptor(DiskWrite(d, SlotOffset(slot), patch).data, slot) == RawDescriptor(d.data, slot)
    ensures PendingIn(d, slot) ==> PendingIn(DiskWrite(d, SlotOffset(slot), patch), slot)
  {
    OverwriteKeeps(d.data, SlotOffset(slot), patch, SlotOffset(Other(slot)), SLOT_BYTES);
    OverwriteKeeps(d.data, SlotOffset(slot), patch, DescriptorOffset(0), DESCRIPTOR_BYTES);
    OverwriteKeeps(d.data, SlotOffset(slot), patch, DescriptorOffset(1), DESCRIPTOR_BYTES);
  }

  lemma PayloadWriteKeeps(c: Codec, d: Disk, next: RunState)
    requires Storable(c, next) && |d.data| == FILE_BYTES
    ensures SlotKept(d.data, PayloadWritten(c, d, next).data, Other(SlotOf(next)))
    ensures RawDescriptor(PayloadWritten(c, d, next).data, SlotOf(next)) == RawDescriptor(d.data, SlotOf(next))
  {
    WriteKeeps(d, SlotOf(next), c.ser(next));
  }

  lemma StaysCommitted(c: Codec, before: seq<byte>, after: seq<byte>, cur: RunState)
    requires Committed(c, before, cur) && SlotKept(before, after, SlotOf(cur))
    requires var slot := Other(SlotOf(cur));
             ReadDescriptor(c, after, slot).None? || ReadDescriptor(c, after, slot) == ReadDescriptor(c, before, slot)
    ensures Committed(c, after, cur)
  {
    SameSlot(c, before, after, SlotOf(cur));
  }

  /** Every crash up to the end of the payload write leaves the committed state in place. */
  lemma EarlyCrash(c: Codec, d: Disk, cur: RunState, next: RunState, written: bool, image: seq<byte>)
    requires Storable(c, next) && Committed(c, d.data, cur) && SlotOf(cur) == Other(SlotOf(next))
    requires Settled(d, SlotOf(next))
    requires CrashImage(if written then PayloadWritten(c, d, next) else d, image)
    ensures Committed(c, image, cur)
  {
    var e := if written then PayloadWritten(c, d, next) else d;
    PayloadWriteKeeps(c, d, next);
    PayloadCrash(c, e, SlotOf(next), image);
    StaysCommitted(c, d.data, image, cur);
  }

  lemma NewDescriptorReads(c: Codec, d: Disk, next: RunState)
    requires Storable(c, next) && |d.data| == FILE_BYTES
    ensures ReadDescriptor(c, DescriptorWritten(c, d, next).data, SlotOf(next)) == Some(NewDescriptor(c, next))
  {
    DescriptorRoundTrip(c, NewDescriptor(c, next));
  }

  /** What the two slots of an image must look like for it to hold the old or the new state. */
  lemma OldOrNew(c: Codec, before: seq<byte>, cur: RunState, next: RunState, image: seq<byte>)
    requires Storable(c, next) && Committed(c, before, cur) && next.sequence == cur.sequence + 1
    requires SlotKept(before, image, SlotOf(cur)) && PayloadIn(c, image, next)
    requires var got := ReadDescriptor(c, image, SlotOf(next));
             got.None? || got == ReadDescriptor(c, before, SlotOf(next)) || got == Some(NewDescriptor(c, next))
    ensures Committed(c, image, cur) || Committed(c, image, next)
    ensures ReadDescriptor(c, image, SlotOf(next)) == Some(NewDescriptor(c, next)) ==> Committed(c, image, next)
  {
    hide ParseDescriptor, DescriptorHead;
    assert Other(SlotOf(next)) == SlotOf(cur);
    if ReadDescriptor(c, image, SlotOf(next)) == Some(NewDescriptor(c, next)) {
      NewSlotState(c, next, image);
      SameSlot(c, before, image, SlotOf(cur));
    } else {
      StaysCommitted(c, before, image, cur);
    }
  }

  /** Once the payload is synced, a crash in the descriptor write leaves exactly the old or the new state. */
  lemma LateCrash(c: Codec, d: Disk, cur: RunState, next: RunState, image: seq<byte>)
    requires Storable(c, next) && Committed(c, d.data, cur) && next.sequence == cur.sequence + 1
    requires d.Clean() && PayloadIn(c, d.data, next)
    requires CrashImage(DescriptorWritten(c, d, next), image)
    requires |image| == FILE_BYTES ==> TornParse(c, d.data, DescriptorWritten(c, d, next).data, image, SlotOf(next))
    ensures Committed(c, image, cur) || Committed(c, image, next)
    ensures image == DescriptorWritten(c, d, next).data ==> Committed(c, image, next)
  {
    hide DescriptorBytes, ParseDescriptor, SlotState;
    DescriptorCrash(c, d, next, image);
    NewDescriptorReads(c, d, next);
    OldOrNew(c, d.data, cur, next, image);
  }

  /** The synced payload: the file still holds the old commit, and the new payload is in place. */
  lemma PayloadSynced(c: Codec, d: Disk, cur: RunState, next: RunState)
    requires Storable(c, next) && Committed(c, d.data, cur) && SlotOf(cur) == Other(SlotOf(next))
    ensures Committed(c, PayloadWritten(c, d, next).data, cur) && PayloadIn(c, PayloadWritten(c, d, next).data, next)
    ensures ReadDescriptor(c, PayloadWritten(c, d, next).data, SlotOf(next)) == ReadDescriptor(c, d.data, SlotOf(next))
  {
    PayloadWriteKeeps(c, d, next);
    StaysCommitted(c, d.data, PayloadWritten(c, d, next).data, cur);
  }

  /** The states on disk after each step, by the step's number. */
  lemma StepAt(c: Codec, d: Disk, state: RunState, k: nat)
    requires c.Sound() && NextState(c, d.data, state).Ok? && k < 6
    ensures var next := NextState(c, d.data, state).value;
            var written := PayloadWritten(c, Allocated(d), next);
            var done := DescriptorWritten(c, DiskSync(written), next);
            StoreTrail(c, d, state)[k]
            == if k == 0 then d else if k == 1 then Allocated(d) else if k == 2 then written
               else if k == 3 then DiskSync(written)
               else if k == 4 then done else DiskSync(done)
  {
  }

  /** The next state of a committed file follows it in the other slot. */
  lemma NextFollows(c: Codec, file: seq<byte>, cur: RunState, state: RunState)
    requires Committed(c, file, cur)
    ensures NextState(c, file, state).Ok? ==>
              var next := NextState(c, file, state).value;
              && next == state.(sequence := cur.sequence + 1)
              && SlotOf(next) == Other(SlotOf(cur))
              && 0 < |c.ser(next)| <= SLOT_BYTES
  {
    CommittedLoads(c, file, cur);
  }

  /**
   * A crash at any point of a store leaves a file whose newest commit is the old state or the new one:
   * the old one until the descriptor is being written, the new one once the store has returned.
   */
  lemma StoreIsCrashSafe(c: Codec, d: Disk, cur: RunState, state: RunState, k: nat, image: seq<byte>)
    requires c.Sound() && Committed(c, d.data, cur) && Settled(d, Other(SlotOf(cur)))
    requires NextState(c, d.data, state).Ok? && CrashAt(c, d, state, k, image)
    ensures Committed(c, image, cur) || Committed(c, image, NextState(c, d.data, state).value)
    ensures k <= 3 ==> Committed(c, image, cur)
    ensures k == 5 ==> Committed(c, image, NextState(c, d.data, state).value)
  {
    hide DescriptorBytes, ParseDescriptor, SlotState, Overwrite;
    var next := NextState(c, d.data, state).value;
    NextFollows(c, d.data, cur, state);
    StepAt(c, d, state, k);
    StepAt(c, d, state, 1);
    PayloadSynced(c, d, cur, next);
    var synced := DiskSync(PayloadWritten(c, d, next));
    if k <= 2 {
      EarlyCrash(c, d, cur, next, k == 2, image);
    } else if k == 3 {
      CleanCrash(synced, image);
    } else {
      StepAt(c, d, state, 5);
      if k == 5 {
        CleanCrash(DiskSync(DescriptorWritten(c, synced, next)), image);
      }
      LateCrash(c, synced, cur, next, image);
    }
  }

  /** The old state survives in a slot that the store does not write to. */
  lemma StoreSparesLoadedSlot(c: Codec, d: Disk, cur: RunState, state: RunState, k: nat)
    requires c.Sound() && Committed(c, d.data, cur) && NextState(c, d.data, state).Ok? && k < 6
    ensures SlotKept(d.data, StoreTrail(c, d, state)[k].data, SlotOf(cur))
  {
    hide DescriptorHead, ParseDescriptor, SlotState, NextState;
    var next := NextState(c, d.data, state).value;
    NextFollows(c, d.data, cur, state);
    StepAt(c, d, state, k);
    PayloadWriteKeeps(c, d, next);
    var w, raw := PayloadWritten(c, d, next), DescriptorBytes(c, NewDescriptor(c, next));
    DescriptorRoundTrip(c, NewDescriptor(c, next));
    OverwriteKeeps(w.data, DescriptorOffset(SlotOf(next)), raw, DescriptorOffset(SlotOf(cur)), DESCRIPTOR_BYTES);
    OverwriteKeeps(w.data, DescriptorOffset(SlotOf(next)), raw, SlotOffset(SlotOf(cur)), SLOT_BYTES);
  }

  // ----- The very first store -----

  /** No descriptor begun, and unsynced bytes at most in the data area that the first store writes. */
  ghost predicate FreshDisk(d: Disk) {
    && Fresh(d.data)
    && (d.durableLength == 0 || d.durableLength == |d.data|)
    && (|d.data| == 0 ==> d.pending == [])
    && PendingIn(d, 0)
  }

  lemma BlankDescriptor(c: Codec, file: seq<byte>, slot: Slot)
    requires |file| == FILE_BYTES && RawDescriptor(file, slot) == Zeros(DESCRIPTOR_BYTES)
    ensures ReadDescriptor(c, file, slot).None?
  {
    assert RawDescriptor(file, slot)[..8][0] == 0;
  }

  /** Before the first descriptor write, every crash leaves a fresh file. */
  lemma FreshCrash(d: Disk, image: seq<byte>)
    requires FreshDisk(d) && CrashImage(d, image)
    ensures Fresh(image)
  {
    hide RawDescriptor;
    if |image| != 0 {
      KeptDescriptor(d, image, 0);
      KeptDescriptor(d, image, 1);
    }
  }

  lemma KeptDescriptor(d: Disk, image: seq<byte>, slot: Slot)
    requires |d.data| == |image| == FILE_BYTES && PendingIn(d, 0) && CrashImage(d, image)
    ensures RawDescriptor(image, slot) == RawDescriptor(d.data, slot)
  {
    KeptSlice(d, image, DescriptorOffset(slot), DESCRIPTOR_BYTES);
  }

  lemma FreshPayloadDisk(c: Codec, d: Disk, next: RunState)
    requires Storable(c, next) && SlotOf(next) == 0 && FreshDisk(d) && |d.data| == FILE_BYTES
    ensures FreshDisk(PayloadWritten(c, d, next))
  {
    FreshPayload(c, d, next);
  }

  lemma FreshLateCrash(c: Codec, d: Disk, next: RunState, image: seq<byte>)
    requires Storable(c, next) && SlotOf(next) == 0
    requires d.Clean() && PayloadIn(c, d.data, next) && DescriptorsUninitialized(d.data)
    requires CrashImage(DescriptorWritten(c, d, next), image)
    requires |image| == FILE_BYTES ==> TornParse(c, d.data, DescriptorWritten(c, d, next).data, image, 0)
    ensures Fresh(image) || TornFirst(c, image) || Committed(c, image, next)
    ensures image == DescriptorWritten(c, d, next).data ==> Committed(c, image, next)
  {
    hide DescriptorBytes, ParseDescriptor, SlotState;
    DescriptorCrash(c, d, next, image);
    NewDescriptorReads(c, d, next);
    BlankDescriptor(c, image, 1);
    BlankDescriptor(c, d.data, 0);
    if ReadDescriptor(c, image, 0).Some? {
      NewSlotState(c, next, image);
    }
  }

  lemma FreshPayload(c: Codec, d: Disk, next: RunState)
    requires Storable(c, next) && |d.data| == FILE_BYTES && DescriptorsUninitialized(d.data)
    ensures DescriptorsUninitialized(PayloadWritten(c, d, next).data)
            && PayloadIn(c, PayloadWritten(c, d, next).data, next)
  {
    OverwriteKeeps(d.data, SlotOffset(SlotOf(next)), c.ser(next), DescriptorOffset(0), DESCRIPTOR_BYTES);
    OverwriteKeeps(d.data, SlotOffset(SlotOf(next)), c.ser(next), DescriptorOffset(1), DESCRIPTOR_BYTES);
  }

  lemma AllocationIsFresh(d: Disk)
    requires FreshDisk(d)
    ensures FreshDisk(Allocated(d)) && |Allocated(d).data| == FILE_BYTES
  {
  }

  /** A crash in the first store leaves a fresh file, the new state, or a torn first descriptor. */
  lemma FirstStoreCrash(c: Codec, d: Disk, state: RunState, k: nat, image: seq<byte>)
    requires c.Sound() && FreshDisk(d)
    requires NextState(c, d.data, state).Ok? && CrashAt(c, d, state, k, image)
    ensures NextState(c, d.data, state).value == state.(sequence := 0)
    ensures Fresh(image) || TornFirst(c, image) || Committed(c, image, state.(sequence := 0))
    ensures k <= 3 ==> Fresh(image)
    ensures k == 5 ==> Committed(c, image, state.(sequence := 0))
  {
    hide DescriptorBytes, ParseDescriptor, SlotState, Overwrite, PendingIn;
    var next := NextState(c, d.data, state).value;
    FreshLoads(c, d.data);
    AllocationIsFresh(d);
    StepAt(c, d, state, k);
    StepAt(c, d, state, 1);
    var d1 := Allocated(d);
    FreshPayload(c, d1, next);
    FreshPayloadDisk(c, d1, next);
    var synced := DiskSync(PayloadWritten(c, d1, next));
    if k <= 2 {
      FreshCrash(StoreTrail(c, d, state)[k], image);
    } else if k == 3 {
      CleanCrash(synced, image);
    } else {
      StepAt(c, d, state, 5);
      if k == 5 {
        CleanCrash(DiskSync(DescriptorWritten(c, synced, next)), image);
      }
      FirstTornParse(c, d1.data, synced.data, DescriptorWritten(c, synced, next).data, image);
      FreshLateCrash(c, synced, next, image);
    }
  }

  lemma FirstTornParse(c: Codec, blank: seq<byte>, synced: seq<byte>, done: seq<byte>, image: seq<byte>)
    requires |blank| == |synced| == |done| == FILE_BYTES
    requires DescriptorsUninitialized(blank) && DescriptorsUninitialized(synced)
    requires TearDetected(c, blank, done, image)
    ensures |image| == FILE_BYTES ==> TornParse(c, synced, done, image, 0)
  {
    hide ParseDescriptor;
    BlankDescriptor(c, blank, 0);
    BlankDescriptor(c, synced, 0);
  }
}
