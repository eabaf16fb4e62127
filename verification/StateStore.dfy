/** The two-slot controller state file: its format, loading, storing and what a crash may leave. */
module StateStore {
  import opened Wrappers
  import opened Bytes

  const SLOT_BYTES: nat := 64 * 1024 * 1024
  const DATA_OFFSET: nat := 4096
  const DESCRIPTOR_BYTES: nat := 512
  const FILE_BYTES: nat := DATA_OFFSET + 2 * SLOT_BYTES
  const MAX_U64: nat := 0xFFFF_FFFF_FFFF_FFFF
  /** "NCLRCSR1" */
  const MAGIC: seq<byte> := [78, 67, 76, 82, 67, 83, 82, 49]

  type Slot = x: nat | x < 2

  /** The controller run state; `body` stands for every field but the sequence number. */
  datatype RunState = RunState(sequence: u64, body: string)

  /** The JSON serializer, the JSON parser and SHA-256, which the store uses as black boxes. */
  datatype Codec = Codec(
    ser: RunState -> seq<byte>,
    parse: seq<byte> -> Option<RunState>,
    digest: seq<byte> -> seq<byte>)
  {
    ghost predicate Sound() {
      && (forall s :: parse(ser(s)) == Some(s))
      && (forall b :: |digest(b)| == 32)
    }
  }

  datatype Descriptor = Descriptor(slot: Slot, sequence: u64, length: u64, digest: seq<byte>)

  function DescriptorOffset(slot: Slot): nat { slot * DESCRIPTOR_BYTES }

  function SlotOffset(slot: Slot): nat { DATA_OFFSET + slot * SLOT_BYTES }

  function DescriptorHead(d: Descriptor): (s: seq<byte>) {
    MAGIC + [d.slot] + Zeros(7) + LittleEndian(d.sequence, 8) + LittleEndian(d.length, 8) + d.digest
  }

  function DescriptorBytes(c: Codec, d: Descriptor): seq<byte> {
    DescriptorHead(d) + c.digest(DescriptorHead(d)) + Zeros(416)
  }

  function ParseDescriptor(c: Codec, raw: seq<byte>, slot: Slot): (r: Option<Descriptor>)
    ensures r.Some? ==> r.value.slot == slot && 0 < r.value.length <= SLOT_BYTES
  {
    if |raw| != DESCRIPTOR_BYTES || raw[..8] != MAGIC || raw[8] != slot then None
    else if raw[64..96] != c.digest(raw[..64]) then None
    else
      var sequence := FromLittleEndian(raw[16..24]);
      var length := FromLittleEndian(raw[24..32]);
      if length == 0 || length > SLOT_BYTES || sequence > MAX_U64 then None
      else Some(Descriptor(slot, sequence, length, raw[32..64]))
  }

  lemma EightByteRange()
    ensures Pow256(8) == MAX_U64 + 1
  {
    assert Pow256(4) == 0x1_0000_0000;
    assert Pow256(8) == 256 * (256 * (256 * (256 * Pow256(4))));
  }

  /** Where the parts of a descriptor stand. */
  lemma HeadParts(d: Descriptor)
    requires |d.digest| == 32
    ensures var head := DescriptorHead(d);
            && |head| == 64 && head[..8] == MAGIC && head[8] == d.slot
            && head[16..24] == LittleEndian(d.sequence, 8) && head[24..32] == LittleEndian(d.length, 8)
            && head[32..64] == d.digest
  {
    hide LittleEndian;
  }

  lemma DescriptorParts(c: Codec, d: Descriptor)
    requires c.Sound() && |d.digest| == 32
    ensures var head, raw := DescriptorHead(d), DescriptorBytes(c, d);
            && |raw| == DESCRIPTOR_BYTES && |head| == 64
            && raw[..64] == head && raw[64..96] == c.digest(head)
            && forall from, to :: 0 <= from <= to <= 64 ==> raw[from..to] == head[from..to]
  {
    HeadParts(d);
    hide LittleEndian, DescriptorHead;
    assert |c.digest(DescriptorHead(d))| == 32;
  }

  /** A descriptor reads back exactly as it was written. */
  lemma DescriptorRoundTrip(c: Codec, d: Descriptor)
    requires c.Sound() && |d.digest| == 32 && 0 < d.length <= SLOT_BYTES
    ensures |DescriptorBytes(c, d)| == DESCRIPTOR_BYTES
    ensures ParseDescriptor(c, DescriptorBytes(c, d), d.slot) == Some(d)
  {
    hide LittleEndian, FromLittleEndian, DescriptorHead, DescriptorBytes, Pow256;
    var head, raw := DescriptorHead(d), DescriptorBytes(c, d);
    HeadParts(d);
    DescriptorParts(c, d);
    assert raw[..8] == raw[0..8] == head[0..8] && raw[8] == raw[..64][8];
    EightByteRange();
    LittleEndianRoundTrip(d.sequence, 8);
    LittleEndianRoundTrip(d.length, 8);
  }

  // ----- Loading -----

  function RawDescriptor(file: seq<byte>, slot: Slot): (raw: seq<byte>)
    requires |file| == FILE_BYTES
    ensures |raw| == DESCRIPTOR_BYTES
  {
    file[DescriptorOffset(slot)..DescriptorOffset(slot) + DESCRIPTOR_BYTES]
  }

  function ReadDescriptor(c: Codec, file: seq<byte>, slot: Slot): Option<Descriptor>
    requires |file| == FILE_BYTES
  {
    ParseDescriptor(c, RawDescriptor(file, slot), slot)
  }

  function SlotPayload(file: seq<byte>, d: Descriptor): seq<byte>
    requires |file| == FILE_BYTES && d.length <= SLOT_BYTES
  {
    file[SlotOffset(d.slot)..SlotOffset(d.slot) + d.length]
  }

  /** The state that one slot holds, if its descriptor, digest and embedded sequence all agree. */
  function SlotState(c: Codec, file: seq<byte>, slot: Slot): Option<RunState>
    requires |file| == FILE_BYTES
  {
    match ReadDescriptor(c, file, slot)
    case None => None
    case Some(d) =>
      var payload := SlotPayload(file, d);
      if c.digest(payload) != d.digest then None
      else
        match c.parse(payload)
        case None => None
        case Some(state) => if state.sequence == d.sequence then Some(state) else None
  }

  predicate DescriptorsUninitialized(file: seq<byte>)
    requires |file| == FILE_BYTES
  {
    RawDescriptor(file, 0) == Zeros(DESCRIPTOR_BYTES) && RawDescriptor(file, 1) == Zeros(DESCRIPTOR_BYTES)
  }

  function LoadBytes(c: Codec, file: seq<byte>): Result<Option<RunState>> {
    if |file| == 0 then Ok(None)
    else if |file| != FILE_BYTES then Err(Invalid)
    else
      match (SlotState(c, file, 0), SlotState(c, file, 1))
      case (None, None) => if DescriptorsUninitialized(file) then Ok(None) else Err(Invalid)
      case (Some(a), None) => Ok(Some(a))
      case (None, Some(b)) => Ok(Some(b))
      case (Some(a), Some(b)) => Ok(Some(if a.sequence <= b.sequence then b else a))
  }

  // ----- The disk under the file -----

  datatype Range = Range(start: nat, count: nat)

  /** What reads return, the ranges written since the last sync, and the length last synced. */
  datatype Disk = Disk(data: seq<byte>, pending: seq<Range>, durableLength: nat) {
    ghost predicate Touched(i: nat) {
      exists k :: 0 <= k < |pending| && pending[k].start <= i < pending[k].start + pending[k].count
    }

    ghost predicate Clean() {
      pending == [] && durableLength == |data|
    }
  }

  function Durable(data: seq<byte>): Disk { Disk(data, [], |data|) }

  function DiskSetLen(d: Disk, length: nat): Disk
    requires |d.data| <= length
  {
    d.(data := d.data + Zeros(length - |d.data|))
  }

  function DiskWrite(d: Disk, offset: nat, patch: seq<byte>): Disk
    requires offset + |patch| <= |d.data|
  {
    d.(data := Overwrite(d.data, offset, patch), pending := d.pending + [Range(offset, |patch|)])
  }

  function DiskSync(d: Disk): Disk { Durable(d.data) }

  /** A power loss keeps every synced byte; a byte written since may hold anything. */
  ghost predicate CrashImage(d: Disk, image: seq<byte>) {
    && (|image| == |d.data| || |image| == d.durableLength)
    && forall i :: 0 <= i < |image| && i < |d.data| && !d.Touched(i) ==> image[i] == d.data[i]
  }

  // ----- Storing -----

  /** The state that a store commits: the loaded sequence plus one, or zero. */
  function NextState(c: Codec, file: seq<byte>, state: RunState): Result<RunState> {
    var current :- LoadBytes(c, file);
    if current.Some? && current.value.sequence == MAX_U64 then Err(Invalid)
    else
      var next := state.(sequence := if current.None? then 0 else current.value.sequence + 1);
      if c.ser(next) == [] || |c.ser(next)| > SLOT_BYTES then Err(Invalid) else Ok(next)
  }

  function SlotOf(state: RunState): Slot { state.sequence % 2 }

  function NewDescriptor(c: Codec, next: RunState): Descriptor
    requires |c.ser(next)| <= SLOT_BYTES
  {
    Descriptor(SlotOf(next), next.sequence, |c.ser(next)|, c.digest(c.ser(next)))
  }

  function Allocated(d: Disk): (r: Disk)
    requires |d.data| == 0 || |d.data| == FILE_BYTES
    ensures |r.data| == FILE_BYTES
  {
    if |d.data| == 0 then DiskSetLen(d, FILE_BYTES) else d
  }

  function PayloadWritten(c: Codec, d: Disk, next: RunState): (r: Disk)
    requires |d.data| == FILE_BYTES && |c.ser(next)| <= SLOT_BYTES
    ensures |r.data| == FILE_BYTES
  {
    DiskWrite(d, SlotOffset(SlotOf(next)), c.ser(next))
  }

  ghost function DescriptorWritten(c: Codec, d: Disk, next: RunState): (r: Disk)
    requires c.Sound() && |d.data| == FILE_BYTES && 0 < |c.ser(next)| <= SLOT_BYTES
    ensures |r.data| == FILE_BYTES
  {
    DescriptorRoundTrip(c, NewDescriptor(c, next));
    DiskWrite(d, DescriptorOffset(SlotOf(next)), DescriptorBytes(c, NewDescriptor(c, next)))
  }

  ghost predicate Storable(c: Codec, next: RunState) {
    c.Sound() && 0 < |c.ser(next)| <= SLOT_BYTES
  }

  /** The disk after each primitive step of a store: allocate, payload, sync, descriptor, sync. */
  ghost function StoreSteps(c: Codec, d: Disk, next: RunState): (steps: seq<Disk>)
    requires Storable(c, next) && (|d.data| == 0 || |d.data| == FILE_BYTES)
    ensures |steps| == 5
  {
    var d1 := Allocated(d);
    var d2 := PayloadWritten(c, d1, next);
    var d3 := DiskSync(d2);
    var d4 := DescriptorWritten(c, d3, next);
    [d1, d2, d3, d4, DiskSync(d4)]
  }

  /** The disk before a store and after each of its steps; a refused store takes none. */
  ghost function StoreTrail(c: Codec, d: Disk, state: RunState): (trail: seq<Disk>)
    requires c.Sound()
    ensures |trail| >= 1 && trail[0] == d
    ensures NextState(c, d.data, state).Ok? <==> |trail| == 6
  {
    [d] + match NextState(c, d.data, state)
          case Err(_) => []
          case Ok(next) => StoreSteps(c, d, next)
  }

  function Last<T>(s: seq<T>): T
    requires s != []
  {
    s[|s| - 1]
  }

  /** The state file handle, whose methods follow `load_state` and `store_state`. */
  class StateFile {
    var data: seq<byte>
    ghost var pending: seq<Range>
    ghost var durableLength: nat
    /** Every disk the file has gone through, oldest first. */
    ghost var trail: seq<Disk>

    ghost function Now(): Disk
      reads this
    {
      Disk(data, pending, durableLength)
    }

    method SetLen(length: nat)
      requires |data| <= length
      modifies this
      ensures Now() == DiskSetLen(old(Now()), length) && trail == old(trail) + [Now()]
    {
      data := data + Zeros(length - |data|);
      trail := trail + [Now()];
    }

    method WriteAll(offset: nat, patch: seq<byte>)
      requires offset + |patch| <= |data|
      modifies this
      ensures Now() == DiskWrite(old(Now()), offset, patch) && trail == old(trail) + [Now()]
    {
      data := Overwrite(data, offset, patch);
      pending := pending + [Range(offset, |patch|)];
      trail := trail + [Now()];
    }

    method Sync()
      modifies this
      ensures Now() == DiskSync(old(Now())) && trail == old(trail) + [Now()]
    {
      pending, durableLength := [], |data|;
      trail := trail + [Now()];
    }

    method LoadState(c: Codec) returns (r: Result<Option<RunState>>)
      ensures r == LoadBytes(c, data)
    {
      if |data| == 0 {
        return Ok(None);
      }
      if |data| != FILE_BYTES {
        return Err(Invalid);
      }
      var valid: seq<RunState> := [];
      var uninitialized := true;
      for slot := 0 to 2
        invariant uninitialized == forall s: Slot :: s < slot ==> RawDescriptor(data, s) == Zeros(DESCRIPTOR_BYTES)
        invariant valid == (if slot > 0 && SlotState(c, data, 0).Some? then [SlotState(c, data, 0).value] else [])
                           + (if slot > 1 && SlotState(c, data, 1).Some? then [SlotState(c, data, 1).value] else [])
      {
        var raw := RawDescriptor(data, slot);
        uninitialized := uninitialized && raw == Zeros(DESCRIPTOR_BYTES);
        var descriptor := ParseDescriptor(c, raw, slot);
        if descriptor.Some? {
          var payload := SlotPayload(data, descriptor.value);
          if c.digest(payload) == descriptor.value.digest {
            var state := c.parse(payload);
            if state.Some? && state.value.sequence == descriptor.value.sequence {
              valid := valid + [state.value];
            }
          }
        }
      }
      if valid == [] {
        return if uninitialized then Ok(None) else Err(Invalid);
      }
      // The stable sort by sequence leaves the later slot last when both are equal.
      var newest := valid[0];
      if |valid| == 2 && newest.sequence <= valid[1].sequence {
        newest := valid[1];
      }
      return Ok(Some(newest));
    }

    method Commit(c: Codec, next: RunState)
      requires Storable(c, next) && (|data| == 0 || |data| == FILE_BYTES)
      modifies this
      ensures trail == old(trail) + StoreSteps(c, old(Now()), next)
      ensures Now() == StoreSteps(c, old(Now()), next)[4]
    {
      hide ParseDescriptor, DescriptorBytes, Overwrite, LittleEndian;
      if |data| == 0 {
        SetLen(FILE_BYTES);
      } else {
        trail := trail + [Now()];
      }
      WriteAll(SlotOffset(SlotOf(next)), c.ser(next));
      Sync();
      var descriptor := NewDescriptor(c, next);
      DescriptorRoundTrip(c, descriptor);
      WriteAll(DescriptorOffset(SlotOf(next)), DescriptorBytes(c, descriptor));
      Sync();
    }

    method StoreState(c: Codec, state: RunState) returns (r: Result<RunState>)
      requires c.Sound()
      modifies this
      ensures r == NextState(c, old(data), state)
      ensures trail == old(trail) + StoreTrail(c, old(Now()), state)[1..]
      ensures Now() == Last(StoreTrail(c, old(Now()), state))
    {
      var current :- LoadState(c);
      if current.Some? && current.value.sequence == MAX_U64 {
        return Err(Invalid);
      }
      var next := state.(sequence := if current.None? then 0 else current.value.sequence + 1);
      var payload := c.ser(next);
      if payload == [] || |payload| > SLOT_BYTES {
        return Err(Invalid);
      }
      Commit(c, next);
      return Ok(next);
    }
  }
}
