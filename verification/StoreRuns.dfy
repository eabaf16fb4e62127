/** Whole runs of the state file: stores, power losses, and processes that die without one. */
module StoreRuns {
  import opened Wrappers
  import opened Bytes
  import opened StateStore
  import opened CrashSafety

  /**
   * One store: it returned, it was refused before touching the file, power went after `point` steps, or the process
   * died after `point` steps while the machine stayed up. A process that dies in the payload write leaves `part` bytes.
   */
  datatype Event =
    | Stored(state: RunState)
    | Refused(state: RunState)
    | PowerLost(state: RunState, point: nat)
    | Died(state: RunState, point: nat, part: nat)

  /** What a process leaves behind that dies after `k` steps of a store: its writes stay readable, synced or not. */
  ghost function LeftBehind(c: Codec, d: Disk, state: RunState, k: nat, part: nat): Disk
    requires c.Sound() && k < |StoreTrail(c, d, state)|
  {
    match NextState(c, d.data, state)
    case Err(_) => d
    case Ok(next) =>
      if k == 1 then PartWritten(Allocated(d), SlotOf(next), c.ser(next), part) else StoreTrail(c, d, state)[k]
  }

  /** The first `part` bytes of a payload in its slot. */
  function PartWritten(d: Disk, slot: Slot, payload: seq<byte>, part: nat): Disk
    requires |d.data| == FILE_BYTES && |payload| <= SLOT_BYTES
  {
    DiskWrite(d, SlotOffset(slot), payload[..Min(part, |payload|)])
  }

  ghost predicate Step(c: Codec, before: Disk, event: Event, after: Disk)
    requires c.Sound()
  {
    match event
    case Stored(state) => NextState(c, before.data, state).Ok? && after == Last(StoreTrail(c, before, state))
    case Refused(state) => NextState(c, before.data, state).Err? && after == before
    case PowerLost(state, point) => CrashAt(c, before, state, point, after.data) && after == Durable(after.data)
    case Died(state, point, part) =>
      point < |StoreTrail(c, before, state)| && after == LeftBehind(c, before, state, point, part)
  }

  /** `disks[i]` is the disk before `events[i]`; the file starts empty. */
  ghost predicate Run(c: Codec, disks: seq<Disk>, events: seq<Event>) {
    && c.Sound()
    && |disks| == |events| + 1
    && disks[0] == Durable([])
    && forall i :: 0 <= i < |events| ==> Step(c, disks[i], events[i], disks[i + 1])
  }

  /** The window between the descriptor write and its sync. */
  const UNSYNCED_DESCRIPTOR: nat := 4

  predicate DiesUnsynced(event: Event) { event.Died? && event.point == UNSYNCED_DESCRIPTOR }

  /** No process dies between a descriptor write and its sync. */
  predicate Orderly(events: seq<Event>) {
    forall i :: 0 <= i < |events| ==> !DiesUnsynced(events[i])
  }

  // ----- The invariant -----

  /** The newest commit is `st`, and unsynced bytes lie at most in the slot that the next store writes. */
  ghost predicate CommittedDisk(c: Codec, d: Disk, st: RunState) {
    Committed(c, d.data, st) && Settled(d, Other(SlotOf(st)))
  }

  ghost predicate HasCommit(c: Codec, d: Disk) {
    exists st :: CommittedDisk(c, d, st)
  }

  ghost predicate TornDisk(c: Codec, d: Disk) { TornFirst(c, d.data) && d.Clean() }

  ghost predicate Sane(c: Codec, d: Disk) {
    FreshDisk(d) || TornDisk(c, d) || HasCommit(c, d)
  }

  /** The state that `event` sets out to commit. */
  function Attempt(c: Codec, file: seq<byte>, event: Event): Result<RunState> {
    NextState(c, file, event.state)
  }

  lemma StoredIsLastCrash(c: Codec, d: Disk, state: RunState)
    requires c.Sound() && NextState(c, d.data, state).Ok?
    ensures CrashAt(c, d, state, 5, Last(StoreTrail(c, d, state)).data)
    ensures Last(StoreTrail(c, d, state)).Clean()
  {
    hide DescriptorBytes, ParseDescriptor, SlotState, Overwrite;
    StepAt(c, d, state, 5);
  }

  /** A crash of a committed disk that no store has touched since. */
  lemma IdleCrash(c: Codec, d: Disk, cur: RunState, image: seq<byte>)
    requires CommittedDisk(c, d, cur) && CrashImage(d, image)
    ensures Committed(c, image, cur)
  {
    hide ParseDescriptor, SlotState, PendingIn;
    PayloadCrash(c, d, Other(SlotOf(cur)), image);
    StaysCommitted(c, d.data, image, cur);
  }

  /** The old state, or, if the store was not refused, its successor; a finished store leaves the successor. */
  ghost predicate OldOrAttempt(c: Codec, before: Disk, cur: RunState, event: Event, after: Disk) {
    match Attempt(c, before.data, event)
    case Err(_) => !event.Stored? && CommittedDisk(c, after, cur)
    case Ok(next) =>
      && next.sequence == cur.sequence + 1 && next.body == event.state.body
      && (CommittedDisk(c, after, next) || (!event.Stored? && CommittedDisk(c, after, cur)))
  }

  /** A dead process leaves the old state committed before the descriptor write, the new one after the last sync. */
  lemma DeathKeeps(c: Codec, d: Disk, cur: RunState, state: RunState, k: nat, part: nat)
    requires c.Sound() && CommittedDisk(c, d, cur) && NextState(c, d.data, state).Ok? && k < 6
             && k != UNSYNCED_DESCRIPTOR
    ensures var left := LeftBehind(c, d, state, k, part);
            CommittedDisk(c, left, if k == 5 then NextState(c, d.data, state).value else cur)
  {
    hide DescriptorBytes, ParseDescriptor, SlotState, LoadBytes, NextState, Overwrite, PendingIn;
    var next := NextState(c, d.data, state).value;
    NextFollows(c, d.data, cur, state);
    StepAt(c, d, state, k);
    PayloadSynced(c, d, cur, next);
    if k == 1 {
      var patch := c.ser(next)[..Min(part, |c.ser(next)|)];
      WriteKeeps(d, SlotOf(next), patch);
      StaysCommitted(c, d.data, DiskWrite(d, SlotOffset(SlotOf(next)), patch).data, cur);
    } else if k == 2 {
      WriteKeeps(d, SlotOf(next), c.ser(next));
    } else if k == 3 {
      CleanIsSettled(DiskSync(PayloadWritten(c, d, next)), SlotOf(next));
    } else if k == 5 {
      StoredIsLastCrash(c, d, state);
      StoreIsCrashSafe(c, d, cur, state, 5, Last(StoreTrail(c, d, state)).data);
      CleanIsSettled(Last(StoreTrail(c, d, state)), Other(SlotOf(next)));
    }
  }

  lemma CleanIsSettled(d: Disk, slot: Slot)
    requires d.Clean()
    ensures Settled(d, slot)
  {
  }

  /** From a committed disk, a step leaves exactly the old or the attempted state; a finished store, the latter. */
  lemma CommittedStep(c: Codec, before: Disk, cur: RunState, event: Event, after: Disk)
    requires c.Sound() && CommittedDisk(c, before, cur) && Step(c, before, event, after) && !DiesUnsynced(event)
    ensures OldOrAttempt(c, before, cur, event, after)
  {
    hide DescriptorBytes, ParseDescriptor, SlotState, StoreSteps, PendingIn, CrashImage;
    NextFollows(c, before.data, cur, event.state);
    match event
    case Stored(state) =>
      StoredIsLastCrash(c, before, state);
      StoreIsCrashSafe(c, before, cur, state, 5, after.data);
      CleanIsSettled(after, 0);
      CleanIsSettled(after, 1);
    case Refused(_) =>
    case PowerLost(state, point) =>
      CleanIsSettled(after, 0);
      CleanIsSettled(after, 1);
      if Attempt(c, before.data, event).Ok? {
        StoreIsCrashSafe(c, before, cur, state, point, after.data);
      } else {
        IdleCrash(c, before, cur, after.data);
      }
    case Died(state, point, part) =>
      if Attempt(c, before.data, event).Ok? {
        DeathKeeps(c, before, cur, state, point, part);
      }
  }

  /** A process that dies in the very first store leaves the file fresh or, after the last sync, committed. */
  lemma FirstDeath(c: Codec, d: Disk, state: RunState, k: nat, part: nat)
    requires c.Sound() && FreshDisk(d) && NextState(c, d.data, state).Ok? && k < 6 && k != UNSYNCED_DESCRIPTOR
    ensures var left := LeftBehind(c, d, state, k, part);
            if k == 5 then CommittedDisk(c, left, NextState(c, d.data, state).value) else FreshDisk(left)
  {
    hide DescriptorBytes, ParseDescriptor, SlotState, LoadBytes, NextState, Overwrite, PendingIn,
      DescriptorsUninitialized;
    var next := NextState(c, d.data, state).value;
    FirstNext(c, d, state);
    AllocationIsFresh(d);
    StepAt(c, d, state, k);
    var d1 := Allocated(d);
    FreshPayloadDisk(c, d1, next);
    if k == 1 {
      FreshWrite(d1, c.ser(next)[..Min(part, |c.ser(next)|)]);
    } else if k == 3 {
      SyncedIsFresh(PayloadWritten(c, d1, next));
    } else if k == 5 {
      StoredIsLastCrash(c, d, state);
      FirstStoreCrash(c, d, state, 5, Last(StoreTrail(c, d, state)).data);
      CleanIsSettled(Last(StoreTrail(c, d, state)), Other(SlotOf(next)));
    }
  }

  lemma FirstNext(c: Codec, d: Disk, state: RunState)
    requires c.Sound() && FreshDisk(d) && NextState(c, d.data, state).Ok?
    ensures NextState(c, d.data, state).value == state.(sequence := 0)
    ensures SlotOf(NextState(c, d.data, state).value) == 0 && Storable(c, NextState(c, d.data, state).value)
  {
    hide LoadBytes;
    FreshLoads(c, d.data);
  }

  lemma FreshWrite(d: Disk, patch: seq<byte>)
    requires FreshDisk(d) && |d.data| == FILE_BYTES && |patch| <= SLOT_BYTES
    ensures FreshDisk(DiskWrite(d, SlotOffset(0), patch))
  {
    hide RawDescriptor;
    WriteKeeps(d, 0, patch);
  }

  lemma SyncedIsFresh(d: Disk)
    requires FreshDisk(d)
    ensures FreshDisk(DiskSync(d))
  {
  }

  lemma CommitIsSane(c: Codec, d: Disk, st: RunState)
    requires CommittedDisk(c, d, st)
    ensures Sane(c, d)
  {
  }

  /** Before the first commit: still fresh, torn for good, or committed. */
  lemma UncommittedStep(c: Codec, before: Disk, event: Event, after: Disk)
    requires c.Sound() && (FreshDisk(before) || TornDisk(c, before))
    requires Step(c, before, event, after) && !DiesUnsynced(event)
    ensures Sane(c, after)
    ensures TornDisk(c, before) ==> after == before && !event.Stored?
    ensures event.Stored? ==> CommittedDisk(c, after, event.state.(sequence := 0))
  {
    hide DescriptorBytes, ParseDescriptor, SlotState, StoreSteps, PendingIn, CrashImage, LoadBytes;
    if TornFirst(c, before.data) {
      TornLoads(c, before.data);
      if event.PowerLost? { CleanCrash(before, after.data); }
    } else {
      FreshLoads(c, before.data);
      match event
      case Stored(state) =>
        StoredIsLastCrash(c, before, state);
        FirstStoreCrash(c, before, state, 5, after.data);
        CleanIsSettled(after, 1);
        CommitIsSane(c, after, state.(sequence := 0));
      case Refused(_) =>
      case PowerLost(state, point) =>
        CleanIsSettled(after, 0);
        CleanIsSettled(after, 1);
        if Attempt(c, before.data, event).Ok? {
          FirstStoreCrash(c, before, state, point, after.data);
          if Committed(c, after.data, state.(sequence := 0)) {
            CommitIsSane(c, after, state.(sequence := 0));
          }
        } else {
          FreshCrash(before, after.data);
        }
      case Died(state, point, part) =>
        if Attempt(c, before.data, event).Ok? {
          FirstDeath(c, before, state, point, part);
          if point == 5 {
            CommitIsSane(c, after, state.(sequence := 0));
          }
        }
    }
  }

  lemma TornLoads(c: Codec, file: seq<byte>)
    requires TornFirst(c, file)
    ensures LoadBytes(c, file) == Err(Invalid)
  {
  }

  lemma {:induction false} RunStaysSane(c: Codec, disks: seq<Disk>, events: seq<Event>, i: nat)
    requires Run(c, disks, events) && Orderly(events) && i < |disks|
    ensures Sane(c, disks[i])
  {
    hide Step, CommittedDisk, FreshDisk, TornDisk;
    if i == 0 {
      EmptyIsFresh();
    } else {
      RunStaysSane(c, disks, events, i - 1);
      assert Step(c, disks[i - 1], events[i - 1], disks[i]) && !DiesUnsynced(events[i - 1]);
      if HasCommit(c, disks[i - 1]) {
        var st :| CommittedDisk(c, disks[i - 1], st);
        CommittedStep(c, disks[i - 1], st, events[i - 1], disks[i]);
      } else {
        UncommittedStep(c, disks[i - 1], events[i - 1], disks[i]);
      }
    }
  }

  lemma EmptyIsFresh()
    ensures FreshDisk(Durable([]))
  {
  }

  /** A load that finds a state finds the newest commit. */
  lemma LoadedIsCommitted(c: Codec, d: Disk, st: RunState)
    requires Sane(c, d) && LoadBytes(c, d.data) == Ok(Some(st))
    ensures CommittedDisk(c, d, st)
  {
    hide DescriptorBytes, ParseDescriptor, SlotState, LoadBytes, PendingIn;
    if FreshDisk(d) {
      FreshLoads(c, d.data);
    } else if TornDisk(c, d) {
      TornLoads(c, d.data);
    } else {
      var s :| CommittedDisk(c, d, s);
      CommittedLoads(c, d.data, s);
    }
  }

  /** `st` was committed by some store between `i` and `j`. */
  ghost predicate AttemptedBetween(c: Codec, disks: seq<Disk>, events: seq<Event>, i: nat, j: nat, st: RunState)
    requires |disks| == |events| + 1 && i <= j <= |events|
  {
    exists k :: i <= k < j && Attempt(c, disks[k].data, events[k]) == Ok(st)
  }

  /**
   * Once any load of a run has found a state, every later load of that run finds one: the same state or one
   * that a later store set out to commit. Sequence numbers never go back.
   */
  lemma {:induction false} LoadedStateIsNeverLost(
    c: Codec, disks: seq<Disk>, events: seq<Event>, i: nat, j: nat, cur: RunState)
    returns (st: RunState)
    requires Run(c, disks, events) && Orderly(events)
    requires i <= j < |disks| && LoadBytes(c, disks[i].data) == Ok(Some(cur))
    ensures LoadBytes(c, disks[j].data) == Ok(Some(st)) && CommittedDisk(c, disks[j], st)
    ensures st.sequence >= cur.sequence
    ensures st == cur || AttemptedBetween(c, disks, events, i, j, st)
    decreases j
  {
    hide DescriptorBytes, ParseDescriptor, SlotState, LoadBytes, Step, PendingIn;
    if i == j {
      RunStaysSane(c, disks, events, i);
      LoadedIsCommitted(c, disks[i], cur);
      return cur;
    }
    var prev := LoadedStateIsNeverLost(c, disks, events, i, j - 1, cur);
    assert Step(c, disks[j - 1], events[j - 1], disks[j]) && !DiesUnsynced(events[j - 1]);
    CommittedStep(c, disks[j - 1], prev, events[j - 1], disks[j]);
    if CommittedDisk(c, disks[j], prev) {
      st := prev;
    } else {
      st := Attempt(c, disks[j - 1].data, events[j - 1]).value;
    }
    CommittedLoads(c, disks[j].data, st);
  }

  /** A store that returned is what the next load finds, one sequence number up, in the slot of its parity. */
  lemma StoredStateIsLoaded(c: Codec, disks: seq<Disk>, events: seq<Event>, i: nat)
    requires Run(c, disks, events) && Orderly(events) && i < |events| && events[i].Stored?
    ensures LoadBytes(c, disks[i].data).Ok?
    ensures var st := events[i].state.(sequence := match LoadBytes(c, disks[i].data).value
                                                   case None => 0
                                                   case Some(cur) => cur.sequence + 1);
            && LoadBytes(c, disks[i + 1].data) == Ok(Some(st))
            && |disks[i + 1].data| == FILE_BYTES && SlotState(c, disks[i + 1].data, st.sequence % 2) == Some(st)
  {
    hide DescriptorBytes, ParseDescriptor, LoadBytes, PendingIn;
    RunStaysSane(c, disks, events, i);
    assert Step(c, disks[i], events[i], disks[i + 1]) && !DiesUnsynced(events[i]);
    if HasCommit(c, disks[i]) {
      var st :| CommittedDisk(c, disks[i], st);
      CommittedLoads(c, disks[i].data, st);
      CommittedStep(c, disks[i], st, events[i], disks[i + 1]);
      CommittedLoads(c, disks[i + 1].data, Attempt(c, disks[i].data, events[i]).value);
    } else {
      UncommittedStep(c, disks[i], events[i], disks[i + 1]);
      FreshLoads(c, disks[i].data);
      CommittedLoads(c, disks[i + 1].data, events[i].state.(sequence := 0));
    }
  }

  /** Every load of a run finds nothing, a state, or, before any store has returned, a torn first descriptor. */
  lemma FirstStoreOutcomes(c: Codec, disks: seq<Disk>, events: seq<Event>, j: nat)
    requires Run(c, disks, events) && Orderly(events) && j < |disks|
    ensures LoadBytes(c, disks[j].data).Err? ==>
              TornFirst(c, disks[j].data) && forall i :: 0 <= i < j ==> !events[i].Stored?
    ensures LoadBytes(c, disks[j].data) == Ok(None) ==>
              Fresh(disks[j].data) && forall i :: 0 <= i < j ==> !events[i].Stored?
  {
    hide DescriptorBytes, ParseDescriptor, SlotState, LoadBytes, PendingIn, Step;
    RunStaysSane(c, disks, events, j);
    if HasCommit(c, disks[j]) {
      var st :| CommittedDisk(c, disks[j], st);
      CommittedLoads(c, disks[j].data, st);
    } else if FreshDisk(disks[j]) {
      FreshLoads(c, disks[j].data);
    } else {
      TornLoads(c, disks[j].data);
    }
    forall i | 0 <= i < j && events[i].Stored?
      ensures LoadBytes(c, disks[j].data).Ok? && LoadBytes(c, disks[j].data).value.Some?
    {
      StoredStateIsLoaded(c, disks, events, i);
      var _ := LoadedStateIsNeverLost(c, disks, events, i + 1, j, LoadBytes(c, disks[i + 1].data).value.value);
    }
  }
}
