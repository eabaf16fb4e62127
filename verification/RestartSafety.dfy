/**
 * Exactly when a store may follow the death of a process: what a later power loss can undo, and what it can destroy.
 */
module RestartSafety {
  import opened Wrappers
  import opened Bytes
  import opened StateStore
  import opened CrashSafety
  import opened StoreRuns

  /**
   * A process left the disk `left` behind and a second one stores `state`. The pair is safe when no power loss can
   * leave a load anything but what the second process read or what it set out to commit.
   */
  ghost predicate RestartSafe(c: Codec, left: Disk, state: RunState)
    requires c.Sound()
  {
    forall k: nat, image :: CrashAt(c, left, state, k, image) ==>
      || LoadBytes(c, image) == LoadBytes(c, left.data)
      || (NextState(c, left.data, state).Ok? && LoadBytes(c, image) == Ok(Some(NextState(c, left.data, state).value)))
  }

  /** No power loss can leave a load without any state at all. */
  ghost predicate StateSurvives(c: Codec, left: Disk, state: RunState)
    requires c.Sound()
  {
    forall k: nat, image :: CrashAt(c, left, state, k, image) ==> FindsState(c, image)
  }

  predicate FindsState(c: Codec, file: seq<byte>) { LoadBytes(c, file).Ok? && LoadBytes(c, file).value.Some? }

  /** Some bytes over the first `length` of the slot's data area make the slot unacceptable. */
  ghost predicate Voidable(c: Codec, file: seq<byte>, slot: Slot, length: nat) {
    exists patch: seq<byte> :: |patch| == length && Voids(c, file, slot, patch)
  }

  ghost predicate Voids(c: Codec, file: seq<byte>, slot: Slot, patch: seq<byte>) {
    |file| == FILE_BYTES && |patch| <= SLOT_BYTES && SlotState(c, Overwrite(file, SlotOffset(slot), patch), slot).None?
  }

  // ----- Outside the window -----

  lemma SettledRestart(c: Codec, left: Disk, cur: RunState, state: RunState)
    requires c.Sound() && CommittedDisk(c, left, cur)
    ensures RestartSafe(c, left, state)
  {
    hide DescriptorBytes, ParseDescriptor, SlotState, LoadBytes, NextState, StoreSteps, CrashImage, PendingIn;
    CommittedLoads(c, left.data, cur);
    forall k: nat, image | CrashAt(c, left, state, k, image)
      ensures || LoadBytes(c, image) == Ok(Some(cur))
              || (NextState(c, left.data, state).Ok?
                  && LoadBytes(c, image) == Ok(Some(NextState(c, left.data, state).value)))
    {
      if NextState(c, left.data, state).Err? {
        IdleCrash(c, left, cur, image);
        CommittedLoads(c, image, cur);
      } else {
        StoreIsCrashSafe(c, left, cur, state, k, image);
        if Committed(c, image, cur) {
          CommittedLoads(c, image, cur);
        } else {
          CommittedLoads(c, image, NextState(c, left.data, state).value);
        }
      }
    }
  }

  lemma SafeSurvives(c: Codec, left: Disk, state: RunState)
    requires c.Sound() && RestartSafe(c, left, state) && FindsState(c, left.data)
    ensures StateSurvives(c, left, state)
  {
    hide LoadBytes, NextState, CrashAt;
  }

  // ----- Inside the window -----

  /** The first process died with the descriptor of `next` written over the other slot's and not synced. */
  ghost predicate InWindow(c: Codec, left: Disk, cur: RunState, next: RunState) {
    && Storable(c, next) && next.sequence == cur.sequence + 1 && SlotOf(next) == Other(SlotOf(cur))
    && Committed(c, left.data, next) && left.durableLength == |left.data|
    && left.pending == [Range(DescriptorOffset(SlotOf(next)), DESCRIPTOR_BYTES)]
    && SlotState(c, left.data, SlotOf(cur)) == Some(cur)
  }

  lemma WindowOpens(c: Codec, d: Disk, cur: RunState, first: RunState)
    requires c.Sound() && CommittedDisk(c, d, cur) && NextState(c, d.data, first).Ok?
    ensures InWindow(c, StoreTrail(c, d, first)[UNSYNCED_DESCRIPTOR], cur, NextState(c, d.data, first).value)
  {
    hide DescriptorBytes, ParseDescriptor, SlotState, LoadBytes, NextState, Overwrite, PendingIn;
    var next := NextState(c, d.data, first).value;
    NextFollows(c, d.data, cur, first);
    StepAt(c, d, first, 4);
    PayloadSynced(c, d, cur, next);
    var synced := DiskSync(PayloadWritten(c, d, next));
    var left := DescriptorWritten(c, synced, next);
    NewDescriptorReads(c, synced, next);
    IsOwnImage(left);
    LateCrash(c, synced, cur, next, left.data);
    DescriptorCrash(c, synced, next, left.data);
    SameSlot(c, synced.data, left.data, SlotOf(cur));
    DescriptorSize(c, next);
  }

  lemma IsOwnImage(d: Disk)
    ensures CrashImage(d, d.data)
  {
  }

  lemma DescriptorSize(c: Codec, next: RunState)
    requires Storable(c, next)
    ensures |DescriptorBytes(c, NewDescriptor(c, next))| == DESCRIPTOR_BYTES
  {
    DescriptorRoundTrip(c, NewDescriptor(c, next));
  }

  /** The unsynced descriptor lost: blank. */
  function Blanked(file: seq<byte>, slot: Slot): (image: seq<byte>)
    requires |file| == FILE_BYTES
    ensures |image| == FILE_BYTES
  {
    Overwrite(file, DescriptorOffset(slot), Zeros(DESCRIPTOR_BYTES))
  }

  lemma BlankedReads(c: Codec, file: seq<byte>, slot: Slot)
    requires |file| == FILE_BYTES
    ensures ReadDescriptor(c, Blanked(file, slot), slot).None? && SlotState(c, Blanked(file, slot), slot).None?
    ensures SlotKept(file, Blanked(file, slot), Other(slot))
  {
    hide ParseDescriptor;
    OverwriteKeeps(file, DescriptorOffset(slot), Zeros(DESCRIPTOR_BYTES), DescriptorOffset(Other(slot)),
        DESCRIPTOR_BYTES);
    OverwriteKeeps(file, DescriptorOffset(slot), Zeros(DESCRIPTOR_BYTES), SlotOffset(Other(slot)), SLOT_BYTES);
    BlankDescriptor(c, Blanked(file, slot), slot);
  }

  /** Only one slot readable: that one is loaded. */
  lemma OneSlotLoads(c: Codec, file: seq<byte>, slot: Slot)
    requires |file| == FILE_BYTES && SlotState(c, file, slot).Some? && SlotState(c, file, Other(slot)).None?
    ensures LoadBytes(c, file) == Ok(SlotState(c, file, slot))
  {
    hide SlotState;
    assert slot == 0 || slot == 1;
  }

  lemma SomeSlotLoads(c: Codec, file: seq<byte>, slot: Slot)
    requires |file| == FILE_BYTES && SlotState(c, file, slot).Some?
    ensures FindsState(c, file)
  {
    hide SlotState;
    assert slot == 0 || slot == 1;
  }

  /** A descriptor that reads as nothing, next to one that is untouched, is a detected tear. */
  lemma BlankIsDetected(c: Codec, left: Disk, state: RunState, image: seq<byte>, slot: Slot)
    requires c.Sound() && |left.data| == |image| == FILE_BYTES && NextState(c, left.data, state).Ok?
    requires ReadDescriptor(c, image, slot).None?
    requires RawDescriptor(image, Other(slot)) == RawDescriptor(left.data, Other(slot))
    ensures var trail := StoreTrail(c, left, state); TearDetected(c, trail[1].data, trail[5].data, image)
  {
    hide ParseDescriptor, DescriptorBytes, NextState, Overwrite;
    StepAt(c, left, state, 1);
    StepAt(c, left, state, 5);
    assert slot == 0 || slot == 1;
  }

  /** Losing the unsynced descriptor takes the second process back behind what it read. */
  lemma WindowRollsBack(c: Codec, left: Disk, cur: RunState, next: RunState, second: RunState)
    requires c.Sound() && InWindow(c, left, cur, next)
    ensures CrashAt(c, left, second, 0, Blanked(left.data, SlotOf(next)))
    ensures LoadBytes(c, Blanked(left.data, SlotOf(next))) == Ok(Some(cur))
  {
    hide ParseDescriptor, DescriptorBytes, NextState, SlotState, StoreSteps;
    var image := Blanked(left.data, SlotOf(next));
    BlankedReads(c, left.data, SlotOf(next));
    SameSlot(c, left.data, image, SlotOf(cur));
    OneSlotLoads(c, image, SlotOf(cur));
    BlankedIsCrash(left, SlotOf(next));
    if NextState(c, left.data, second).Ok? {
      BlankIsDetected(c, left, second, image, SlotOf(next));
    }
  }

  lemma BlankedIsCrash(left: Disk, slot: Slot)
    requires |left.data| == FILE_BYTES && left.pending == [Range(DescriptorOffset(slot), DESCRIPTOR_BYTES)]
    ensures CrashImage(left, Blanked(left.data, slot))
  {
    forall i | 0 <= i < |left.data| && !left.Touched(i)
      ensures Blanked(left.data, slot)[i] == left.data[i]
    {
      assert !(left.pending[0].start <= i < left.pending[0].start + left.pending[0].count);
    }
  }

  /**
   * Restarting after a process death is safe exactly when the death did not fall between the descriptor write and its
   * sync, whatever the second process stores.
   */
  lemma RestartSafeIff(c: Codec, d: Disk, cur: RunState, first: RunState, k: nat, second: RunState)
    requires c.Sound() && CommittedDisk(c, d, cur) && k < |StoreTrail(c, d, first)|
    ensures RestartSafe(c, StoreTrail(c, d, first)[k], second) <==> k != UNSYNCED_DESCRIPTOR
  {
    hide DescriptorBytes, ParseDescriptor, SlotState, LoadBytes, NextState, StoreSteps, CrashImage, PendingIn;
    var left := StoreTrail(c, d, first)[k];
    if k == UNSYNCED_DESCRIPTOR {
      var next := NextState(c, d.data, first).value;
      WindowOpens(c, d, cur, first);
      WindowRollsBack(c, left, cur, next, second);
      CommittedLoads(c, left.data, next);
      NextFollows(c, left.data, next, second);
    } else {
      var now := LeftCommitted(c, d, cur, first, k);
      SettledRestart(c, left, now, second);
    }
  }

  /** Outside the window a dead process leaves a committed disk. */
  lemma LeftCommitted(c: Codec, d: Disk, cur: RunState, first: RunState, k: nat) returns (now: RunState)
    requires c.Sound() && CommittedDisk(c, d, cur) && k < |StoreTrail(c, d, first)| && k != UNSYNCED_DESCRIPTOR
    ensures CommittedDisk(c, StoreTrail(c, d, first)[k], now)
  {
    hide DescriptorBytes, ParseDescriptor, SlotState, LoadBytes, NextState, PendingIn, CommittedDisk;
    now := cur;
    if NextState(c, d.data, first).Ok? {
      if k == 1 {
        AllocatedIsSame(c, d, cur);
        StepAt(c, d, first, 1);
      } else {
        DeathKeeps(c, d, cur, first, k, 0);
        now := if k == 5 then NextState(c, d.data, first).value else cur;
      }
    }
  }

  lemma AllocatedIsSame(c: Codec, d: Disk, cur: RunState)
    requires CommittedDisk(c, d, cur)
    ensures |d.data| == FILE_BYTES && Allocated(d) == d
  {
  }

  // ----- Losing every state -----

  /** The blank descriptor, and a patch over the start of the slot that the second process writes. */
  function DoubleTear(file: seq<byte>, slot: Slot, patch: seq<byte>): (image: seq<byte>)
    requires |file| == FILE_BYTES && |patch| <= SLOT_BYTES
    ensures |image| == FILE_BYTES
  {
    Overwrite(Blanked(file, slot), SlotOffset(Other(slot)), patch)
  }

  lemma DoubleTearReads(c: Codec, file: seq<byte>, slot: Slot, patch: seq<byte>)
    requires |file| == FILE_BYTES && |patch| <= SLOT_BYTES
    ensures var image := DoubleTear(file, slot, patch);
            && ReadDescriptor(c, image, slot).None? && SlotState(c, image, slot).None?
            && RawDescriptor(image, Other(slot)) == RawDescriptor(file, Other(slot))
            && SlotState(c, image, Other(slot))
                == SlotState(c, Overwrite(file, SlotOffset(Other(slot)), patch), Other(slot))
  {
    hide ParseDescriptor, SlotState;
    var other := Other(slot);
    var blank, patched := Blanked(file, slot), Overwrite(file, SlotOffset(other), patch);
    var image := DoubleTear(file, slot, patch);
    BlankedReads(c, file, slot);
    OverwriteKeeps(blank, SlotOffset(other), patch, DescriptorOffset(slot), DESCRIPTOR_BYTES);
    OverwriteKeeps(blank, SlotOffset(other), patch, DescriptorOffset(other), DESCRIPTOR_BYTES);
    OverwriteKeeps(file, SlotOffset(other), patch, DescriptorOffset(other), DESCRIPTOR_BYTES);
    SamePatched(blank, file, SlotOffset(other), SLOT_BYTES, patch);
    SameSlot(c, patched, image, other);
    BlankDescriptor(c, image, slot);
    NoDescriptorNoState(c, image, slot);
  }

  lemma NoDescriptorNoState(c: Codec, file: seq<byte>, slot: Slot)
    requires |file| == FILE_BYTES && ReadDescriptor(c, file, slot).None?
    ensures SlotState(c, file, slot).None?
  {
  }

  lemma SamePatched(a: seq<byte>, b: seq<byte>, offset: nat, length: nat, patch: seq<byte>)
    requires |a| == |b| && |patch| <= length && offset + length <= |a|
    requires a[offset..offset + length] == b[offset..offset + length]
    ensures Overwrite(a, offset, patch)[offset..offset + length] == Overwrite(b, offset, patch)[offset..offset + length]
  {
    forall i | offset <= i < offset + length
      ensures Overwrite(a, offset, patch)[i] == Overwrite(b, offset, patch)[i]
    {
      assert a[i] == a[offset..offset + length][i - offset];
      assert b[i] == b[offset..offset + length][i - offset];
    }
  }

  lemma DoubleTearIsCrash(left: Disk, slot: Slot, payload: seq<byte>, patch: seq<byte>)
    requires |left.data| == FILE_BYTES && |patch| == |payload| <= SLOT_BYTES
    requires left.pending == [Range(DescriptorOffset(slot), DESCRIPTOR_BYTES)]
    ensures CrashImage(DiskWrite(left, SlotOffset(Other(slot)), payload), DoubleTear(left.data, slot, patch))
  {
    var w, image := DiskWrite(left, SlotOffset(Other(slot)), payload), DoubleTear(left.data, slot, patch);
    forall i | 0 <= i < |image| && !w.Touched(i)
      ensures image[i] == w.data[i]
    {
      assert !(w.pending[0].start <= i < w.pending[0].start + w.pending[0].count);
      assert !(w.pending[1].start <= i < w.pending[1].start + w.pending[1].count);
    }
  }

  /** Both slots void and a descriptor that is not blank: the load fails for good. */
  lemma NothingLeft(c: Codec, file: seq<byte>, slot: Slot)
    requires |file| == FILE_BYTES && SlotState(c, file, slot).None? && SlotState(c, file, Other(slot)).None?
    requires ReadDescriptor(c, file, slot).Some?
    ensures LoadBytes(c, file) == Err(Invalid)
  {
    hide SlotState, ParseDescriptor;
    if DescriptorsUninitialized(file) {
      BlankDescriptor(c, file, slot);
    }
    assert slot == 0 || slot == 1;
  }

  lemma StateNeedsDescriptor(c: Codec, file: seq<byte>, slot: Slot)
    requires |file| == FILE_BYTES && SlotState(c, file, slot).Some?
    ensures ReadDescriptor(c, file, slot).Some?
  {
  }

  /** The run that loses everything: a power loss during the second payload write, with both slots void after it. */
  lemma WindowLosesState(c: Codec, left: Disk, cur: RunState, next: RunState, second: RunState, patch: seq<byte>)
    requires c.Sound() && InWindow(c, left, cur, next) && NextState(c, left.data, second).Ok?
    requires |patch| == |c.ser(NextState(c, left.data, second).value)| && Voids(c, left.data, SlotOf(cur), patch)
    ensures CrashAt(c, left, second, 2, DoubleTear(left.data, SlotOf(next), patch))
    ensures LoadBytes(c, DoubleTear(left.data, SlotOf(next), patch)) == Err(Invalid)
  {
    hide ParseDescriptor, DescriptorBytes, NextState, SlotState, LoadBytes, Overwrite;
    var n2, image := NextState(c, left.data, second).value, DoubleTear(left.data, SlotOf(next), patch);
    NextFollows(c, left.data, next, second);
    StepAt(c, left, second, 2);
    DoubleTearIsCrash(left, SlotOf(next), c.ser(n2), patch);
    DoubleTearReads(c, left.data, SlotOf(next), patch);
    BlankIsDetected(c, left, second, image, SlotOf(next));
    StateNeedsDescriptor(c, left.data, SlotOf(cur));
    NothingLeft(c, image, SlotOf(cur));
  }

  /** During the second payload write, the slot under it is its old self with some bytes over its start. */
  lemma PatchedInCrash(c: Codec, left: Disk, slot: Slot, payload: seq<byte>, image: seq<byte>)
    returns (patch: seq<byte>)
    requires |left.data| == FILE_BYTES == left.durableLength && |payload| <= SLOT_BYTES
    requires left.pending == [Range(DescriptorOffset(Other(slot)), DESCRIPTOR_BYTES)]
    requires CrashImage(DiskWrite(left, SlotOffset(slot), payload), image)
    ensures |patch| == |payload| && |image| == FILE_BYTES
    ensures SlotState(c, image, slot) == SlotState(c, Overwrite(left.data, SlotOffset(slot), patch), slot)
  {
    hide ParseDescriptor, SlotState;
    var w, at := DiskWrite(left, SlotOffset(slot), payload), SlotOffset(slot);
    patch := image[at..at + |payload|];
    var patched := Overwrite(left.data, at, patch);
    forall i | (at <= i < at + SLOT_BYTES) || (DescriptorOffset(slot) <= i < DescriptorOffset(slot) + DESCRIPTOR_BYTES)
      ensures image[i] == patched[i]
    {
      if at <= i < at + |payload| {
        assert patched[at..at + |patch|][i - at] == patch[i - at];
      } else {
        assert !w.Touched(i);
      }
    }
    SameSlot(c, patched, image, slot);
  }

  /** In the window, with no patch that voids the older slot, every power loss leaves one of the two slots whole. */
  lemma WindowKeepsState(
    c: Codec, left: Disk, cur: RunState, next: RunState, second: RunState, k: nat, image: seq<byte>)
    requires c.Sound() && InWindow(c, left, cur, next) && CrashAt(c, left, second, k, image)
    requires NextState(c, left.data, second).Ok? ==>
               !Voidable(c, left.data, SlotOf(cur), |c.ser(NextState(c, left.data, second).value)|)
    ensures FindsState(c, image)
  {
    hide ParseDescriptor, DescriptorBytes, NextState, SlotState, LoadBytes, Overwrite;
    if NextState(c, left.data, second).Err? || k <= 1 {
      if NextState(c, left.data, second).Ok? {
        StepAt(c, left, second, k);
      }
      OlderSlotKept(c, left, cur, next, image);
      SomeSlotLoads(c, image, SlotOf(cur));
    } else {
      var n2 := NextState(c, left.data, second).value;
      NextFollows(c, left.data, next, second);
      StepAt(c, left, second, k);
      if k == 2 {
        var patch := PatchedInCrash(c, left, SlotOf(cur), c.ser(n2), image);
        assert !Voids(c, left.data, SlotOf(cur), patch);
        SomeSlotLoads(c, image, SlotOf(cur));
      } else {
        NewerSlotKept(c, left, next, n2, k, image);
        SomeSlotLoads(c, image, SlotOf(next));
      }
    }
  }

  lemma OlderSlotKept(c: Codec, left: Disk, cur: RunState, next: RunState, image: seq<byte>)
    requires InWindow(c, left, cur, next) && CrashImage(left, image)
    ensures |image| == FILE_BYTES && SlotState(c, image, SlotOf(cur)) == Some(cur)
  {
    hide ParseDescriptor, SlotState;
    KeptSlice(left, image, DescriptorOffset(SlotOf(cur)), DESCRIPTOR_BYTES);
    KeptSlice(left, image, SlotOffset(SlotOf(cur)), SLOT_BYTES);
    SameSlot(c, left.data, image, SlotOf(cur));
  }

  /** Once the second payload is synced, so is the first process's descriptor. */
  lemma NewerSlotKept(c: Codec, left: Disk, next: RunState, n2: RunState, k: nat, image: seq<byte>)
    requires Storable(c, n2) && SlotOf(n2) == Other(SlotOf(next)) && Committed(c, left.data, next)
    requires 3 <= k <= 5
    requires var synced := DiskSync(PayloadWritten(c, left, n2));
             var done := DescriptorWritten(c, synced, n2);
             CrashImage(if k == 3 then synced else if k == 4 then done else DiskSync(done), image)
    ensures |image| == FILE_BYTES && SlotState(c, image, SlotOf(next)) == Some(next)
  {
    hide ParseDescriptor, DescriptorBytes, SlotState, Overwrite;
    var synced := DiskSync(PayloadWritten(c, left, n2));
    PayloadSynced(c, left, next, n2);
    if k == 3 {
      CleanCrash(synced, image);
    } else {
      if k == 5 {
        CleanCrash(DiskSync(DescriptorWritten(c, synced, n2)), image);
        IsOwnImage(DescriptorWritten(c, synced, n2));
      }
      DescriptorCrash(c, synced, n2, image);
      SameSlot(c, synced.data, image, SlotOf(next));
    }
  }

  /**
   * A power loss after a restart can leave no state at all exactly when the first process died in the window, the
   * second store was not refused, and some bytes of its payload's length over the older slot make that slot
   * unacceptable.
   */
  lemma StateSurvivesIff(c: Codec, d: Disk, cur: RunState, first: RunState, k: nat, second: RunState)
    requires c.Sound() && CommittedDisk(c, d, cur) && k < |StoreTrail(c, d, first)|
    ensures var left := StoreTrail(c, d, first)[k];
            var next := NextState(c, left.data, second);
            StateSurvives(c, left, second) <==>
            !(k == UNSYNCED_DESCRIPTOR && next.Ok? && Voidable(c, left.data, SlotOf(cur), |c.ser(next.value)|))
  {
    hide DescriptorBytes, ParseDescriptor, SlotState, LoadBytes, NextState, StoreSteps, CrashImage, PendingIn, Voids,
      CrashAt;
    var left := StoreTrail(c, d, first)[k];
    if k == UNSYNCED_DESCRIPTOR {
      var n1, n2 := NextState(c, d.data, first).value, NextState(c, left.data, second);
      WindowOpens(c, d, cur, first);
      if n2.Ok? && Voidable(c, left.data, SlotOf(cur), |c.ser(n2.value)|) {
        var patch: seq<byte> :| |patch| == |c.ser(n2.value)| && Voids(c, left.data, SlotOf(cur), patch);
        WindowLosesState(c, left, cur, n1, second, patch);
      } else {
        forall point: nat, image | CrashAt(c, left, second, point, image)
          ensures FindsState(c, image)
        {
          WindowKeepsState(c, left, cur, n1, second, point, image);
        }
      }
    } else {
      var now := LeftCommitted(c, d, cur, first, k);
      SettledRestart(c, left, now, second);
      CommittedLoads(c, left.data, now);
      SafeSurvives(c, left, second);
    }
  }
}
