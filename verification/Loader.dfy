/** The host side of the PRAM loader protocol: signed responses and the operation sequence. */
module Loader {
  import opened Wrappers
  import opened Bytes
  import Checksum
  import Onfi

  const SCHEMA: byte := 2
  const SIGNATURE: seq<byte> := [0x4E, 0x43, 0x4C, 0x52, 0x32, 0x33, 0x30, 0x33]
  const IDENTITY: seq<byte> := [0x50, 0x53, 0x32, 0x33, 0x30, 0x33, 0x56, 0x32]
  const HEADER_BYTES: nat := 32

  datatype Command =
    | ReadControllerId | ReadNandId | ReadOnfiParameters | ConfigureGeometry
    | ReadPage | EraseBlock | ReadStatus | ProgramPage | ExitToBootrom

  function Code(c: Command): byte {
    match c
    case ReadControllerId => 0x00
    case ReadNandId => 0x01
    case ReadOnfiParameters => 0x02
    case ConfigureGeometry => 0x03
    case ReadPage => 0x10
    case EraseBlock => 0x11
    case ReadStatus => 0x12
    case ProgramPage => 0x13
    case ExitToBootrom => 0x7E
  }

  datatype Response = Response(
    command: Command, busy: bool, failed: bool, serviceMode: bool, eccKnown: bool, uncorrectable: bool,
    nandStatus: byte, sequence: u32, correctedBits: byte, readRetries: byte, readLatency: u32, payload: seq<byte>)

  // ----- The response envelope -----

  function Bit(b: bool): byte { if b then 1 else 0 }

  /** Flag `i` of a flag byte. */
  predicate Flag(flags: byte, weight: nat)
    requires weight > 0
  {
    flags / weight % 2 == 1
  }

  predicate Canonical(data: seq<byte>)
    requires |data| >= HEADER_BYTES
  {
    var flags := data[10];
    && flags < 32
    && data[20] == Bit(Flag(flags, 1)) && data[21] == Bit(Flag(flags, 2)) && data[22] == Bit(Flag(flags, 4))
    && data[23] == Bit(Flag(flags, 8)) && data[24] == Bit(Flag(flags, 16)) && data[31] == 0
    && !(data[24] != 0 && data[23] == 0)
  }

  function Parse(data: seq<byte>, expected: Command): Result<Response> {
    if |data| < HEADER_BYTES then Err(Invalid)
    else if data[..8] != SIGNATURE || data[8] != SCHEMA then Err(Invalid)
    else if data[9] != Code(expected) then Err(Invalid)
    else if Le32(data[16..20]) != |data| - HEADER_BYTES then Err(Invalid)
    else if !Canonical(data) then Err(Invalid)
    else
      var flags := data[10];
      Ok(Response(expected, Flag(flags, 1), Flag(flags, 2), Flag(flags, 4), Flag(flags, 8), Flag(flags, 16),
                  data[11], Le32(data[12..16]), data[25], data[26], Le32(data[27..31]), data[HEADER_BYTES..]))
  }

  /** The response a loader sends. */
  function Encode(r: Response): seq<byte> {
    SIGNATURE
    + [SCHEMA, Code(r.command),
       Bit(r.busy) + 2 * Bit(r.failed) + 4 * Bit(r.serviceMode) + 8 * Bit(r.eccKnown) + 16 * Bit(r.uncorrectable),
       r.nandStatus]
    + LittleEndian(r.sequence, 4) + LittleEndian(|r.payload|, 4)
    + [Bit(r.busy), Bit(r.failed), Bit(r.serviceMode), Bit(r.eccKnown), Bit(r.uncorrectable),
       r.correctedBits, r.readRetries]
    + LittleEndian(r.readLatency, 4) + [0] + r.payload
  }

  lemma EncodeParts(r: Response)
    ensures var e := Encode(r);
            && |e| == HEADER_BYTES + |r.payload|
            && e[..8] == SIGNATURE && e[8] == SCHEMA && e[9] == Code(r.command)
            && e[10] == Bit(r.busy) + 2 * Bit(r.failed) + 4 * Bit(r.serviceMode) + 8 * Bit(r.eccKnown)
                        + 16 * Bit(r.uncorrectable)
            && e[11] == r.nandStatus && e[12..16] == LittleEndian(r.sequence, 4)
            && e[16..20] == LittleEndian(|r.payload|, 4)
            && e[20] == Bit(r.busy) && e[21] == Bit(r.failed) && e[22] == Bit(r.serviceMode)
            && e[23] == Bit(r.eccKnown) && e[24] == Bit(r.uncorrectable)
            && e[25] == r.correctedBits && e[26] == r.readRetries
            && e[27..31] == LittleEndian(r.readLatency, 4) && e[31] == 0 && e[HEADER_BYTES..] == r.payload
  {
    hide LittleEndian, Code, Bit;
  }

  lemma FlagsSplit(b: bool, f: bool, s: bool, e: bool, u: bool)
    ensures var flags := Bit(b) + 2 * Bit(f) + 4 * Bit(s) + 8 * Bit(e) + 16 * Bit(u);
            && flags < 32 && Flag(flags, 1) == b && Flag(flags, 2) == f && Flag(flags, 4) == s
            && Flag(flags, 8) == e && Flag(flags, 16) == u
  {
  }

  /** Every response a loader sends with an ECC verdict where it needs one is accepted and read back field by field. */
  lemma ParseAfterEncode(r: Response)
    requires |r.payload| < 0x1_0000_0000 && (r.uncorrectable ==> r.eccKnown)
    ensures Parse(Encode(r), r.command) == Ok(r)
  {
    hide LittleEndian, FromLittleEndian, Code, Flag, Encode;
    EncodeParts(r);
    FlagsSplit(r.busy, r.failed, r.serviceMode, r.eccKnown, r.uncorrectable);
    assert Pow256(4) == 0x1_0000_0000;
    LittleEndianRoundTrip(r.sequence, 4);
    LittleEndianRoundTrip(|r.payload|, 4);
    LittleEndianRoundTrip(r.readLatency, 4);
  }

  lemma FlagsRestore(flags: byte)
    requires flags < 32
    ensures flags == Bit(Flag(flags, 1)) + 2 * Bit(Flag(flags, 2)) + 4 * Bit(Flag(flags, 4)) + 8 * Bit(Flag(flags, 8))
                     + 16 * Bit(Flag(flags, 16))
  {
  }

  /** An accepted response has one encoding: no other bytes parse to the same response. */
  lemma EncodeAfterParse(data: seq<byte>, expected: Command)
    requires Parse(data, expected).Ok?
    ensures Encode(Parse(data, expected).value) == data
    ensures Parse(data, expected).value.uncorrectable ==> Parse(data, expected).value.eccKnown
  {
    hide LittleEndian, FromLittleEndian, Code, Flag, Encode;
    var r := Parse(data, expected).value;
    EncodeParts(r);
    FlagsRestore(data[10]);
    LittleEndianRestores(data[12..16]);
    LittleEndianRestores(data[16..20]);
    LittleEndianRestores(data[27..31]);
    SameParts(Encode(r), data);
  }

  lemma SameParts(a: seq<byte>, b: seq<byte>)
    requires |a| == |b| >= HEADER_BYTES
    requires a[..8] == b[..8] && a[8] == b[8] && a[9] == b[9] && a[10] == b[10] && a[11] == b[11]
    requires a[12..16] == b[12..16] && a[16..20] == b[16..20]
    requires a[20] == b[20] && a[21] == b[21] && a[22] == b[22] && a[23] == b[23] && a[24] == b[24] && a[25] == b[25]
    requires a[26] == b[26] && a[27..31] == b[27..31] && a[31] == b[31] && a[HEADER_BYTES..] == b[HEADER_BYTES..]
    ensures a == b
  {
    assert a == a[..8] + a[8..12] + a[12..16] + a[16..20] + a[20..27] + a[27..31] + a[31..32] + a[HEADER_BYTES..];
    assert b == b[..8] + b[8..12] + b[12..16] + b[16..20] + b[20..27] + b[27..31] + b[31..32] + b[HEADER_BYTES..];
    assert a[8..12] == b[8..12] && a[20..27] == b[20..27] && a[31..32] == b[31..32];
  }

  /** The envelope byte for byte: signature, schema, opcode, flags and numbers at their offsets. */
  lemma WireBytes(data: seq<byte>, c: Command)
    requires Parse(data, c).Ok?
    ensures |data| >= 32 && data[..8] == [0x4E, 0x43, 0x4C, 0x52, 0x32, 0x33, 0x30, 0x33] && data[8] == 2
    ensures data[9] == match c
                       case ReadControllerId => 0
                       case ReadNandId => 1
                       case ReadOnfiParameters => 2
                       case ConfigureGeometry => 3
                       case ReadPage => 16
                       case EraseBlock => 17
                       case ReadStatus => 18
                       case ProgramPage => 19
                       case ExitToBootrom => 126
    ensures var r := Parse(data, c).value;
            && r.command == c && r.payload == data[32..]
            && (r.busy <==> data[20] == 1) && (r.failed <==> data[21] == 1) && (r.serviceMode <==> data[22] == 1)
            && (r.eccKnown <==> data[23] == 1) && (r.uncorrectable <==> data[24] == 1)
            && r.nandStatus == data[11] && r.correctedBits == data[25] && r.readRetries == data[26]
            && r.sequence == FromLittleEndian(data[12..16]) && |r.payload| == FromLittleEndian(data[16..20])
            && r.readLatency == FromLittleEndian(data[27..31])
  {
    hide Flag;
  }

  // ----- Payloads -----

  const NAND_ID_BYTES: nat := 6

  /** A NAND id has six bytes, not all zero and not all ones. */
  function NandIdOf(r: Result<Response>): Result<seq<byte>> {
    match r
    case Err(e) => Err(e)
    case Ok(response) =>
      var id := response.payload;
      if |id| != NAND_ID_BYTES || id == Filled(0x00, NAND_ID_BYTES)
          || id == Filled(0xFF, NAND_ID_BYTES) then Err(Invalid)
      else Ok(id)
  }

  lemma UniformIff(id: seq<byte>, v: byte)
    ensures |id| == 6 ==> (id != Filled(v, NAND_ID_BYTES) <==> exists i :: 0 <= i < 6 && id[i] != v)
  {
    if |id| == 6 && forall i :: 0 <= i < 6 ==> id[i] == v {
      assert id == Filled(v, 6);
    }
  }

  function Bits(data: seq<byte>): (b: seq<bv8>)
    ensures |b| == |data|
  {
    seq(|data|, i requires 0 <= i < |data| => Checksum.Bits8(data[i]))
  }

  function OnfiGeometryOf(r: Result<Response>): Result<Onfi.Geometry> {
    match r
    case Err(e) => Err(e)
    case Ok(response) => Onfi.ParseCopies(Bits(response.payload))
  }

  // ----- Sequence numbers -----

  /** The 32-bit counter after one more operation. */
  function Following(n: u32): u32 { if n == 0xFFFF_FFFF then 0 else n + 1 }

  function RequireSuccess(r: Response): Result<Response> {
    if !r.serviceMode then Err(Permission)
    else if r.busy then Err(Interrupted)
    else if r.failed then Err(Backend)
    else Ok(r)
  }

  /**
   * What becomes of a command: it never reaches the device, its response never reaches the host, or some bytes come
   * back.
   */
  datatype Fate = Unsent | Silent | Answered(data: seq<byte>)

  /** Whatever bytes come back, a response that parses carries the device's own counter. */
  predicate Honest(f: Fate, c: Command, sequence: u32) {
    f.Answered? && Parse(f.data, c).Ok? ==> Parse(f.data, c).value.sequence == sequence
  }

  function Received(f: Fate, c: Command): Result<Response> {
    match f
    case Unsent => Err(Io)
    case Silent => Err(Io)
    case Answered(data) => Parse(data, c)
  }

  /** Host and device counters. */
  datatype Counters = Counters(host: u32, device: u32) {
    predicate InStep() { host == device }

    /** Counters after an operation that was executed and whose response, if any, is `received`. */
    function AfterOperation(received: Result<Response>): Counters {
      if received.Ok? && received.value.sequence == Following(host)
      then Counters(received.value.sequence, Following(device))
      else Counters(host, Following(device))
    }

    function OperationResult(received: Result<Response>): Result<Response> {
      match received
      case Err(e) => Err(e)
      case Ok(r) => if r.sequence != Following(host) then Err(Invalid) else RequireSuccess(r)
    }

    function StatusResult(received: Result<Response>): Result<Response> {
      match received
      case Err(e) => Err(e)
      case Ok(r) => if r.sequence != host then Err(Invalid) else RequireSuccess(r)
    }
  }

  /** A response numbered `n` that reports success: in service mode, neither busy nor failed. */
  predicate Reassures(received: Result<Response>, n: nat) {
    && received.Ok? && received.value.sequence == n
    && received.value.serviceMode && !received.value.busy && !received.value.failed
  }

  /** What a call makes of a response that should be numbered `n`: its first flaw decides the error. */
  predicate Judged(r: Result<Response>, received: Result<Response>, n: nat) {
    match received
    case Err(e) => r == Err(e)
    case Ok(x) =>
      && (x.sequence != n ==> r == Err(Invalid))
      && (x.sequence == n && !x.serviceMode ==> r == Err(Permission))
      && (x.sequence == n && x.serviceMode && x.busy ==> r == Err(Interrupted))
      && (x.sequence == n && x.serviceMode && !x.busy && x.failed ==> r == Err(Backend))
      && (Reassures(received, n) ==> r == received)
  }

  /** The loader's counter, and the transport to it. */
  class Device {
    var sequence: u32

    constructor (start: u32)
      ensures sequence == start
    {
      sequence := start;
    }

    /** One command: every command but identification and status counts once when it is executed. */
    method Execute(c: Command, executed: bool)
      modifies this
      ensures sequence == if executed && !(c.ReadControllerId? || c.ReadStatus?) then Following(old(sequence))
                          else old(sequence)
    {
      if executed && !c.ReadControllerId? && !c.ReadStatus? {
        sequence := Following(sequence);
      }
    }
  }

  class Session {
    const device: Device
    var operationSequence: u32

    function Counts(): Counters
      reads this, device
    {
      Counters(operationSequence, device.sequence)
    }

    constructor (device: Device, sequence: u32)
      ensures this.device == device && operationSequence == sequence
    {
      this.device := device;
      operationSequence := sequence;
    }

    /** Authenticate the loader and take over its counter. */
    static method Connect(device: Device, f: Fate) returns (r: Result<Session>)
      requires Honest(f, ReadControllerId, device.sequence)
      modifies device
      ensures device.sequence == old(device.sequence)
      ensures r.Ok? ==> fresh(r.value) && r.value.device == device && r.value.Counts().InStep()
      ensures r.Ok? <==>
              var received := Received(f, ReadControllerId);
              && received.Ok? && received.value.serviceMode && !received.value.busy && !received.value.failed
              && received.value.payload == [0x50, 0x53, 0x32, 0x33, 0x30, 0x33, 0x56, 0x32]
    {
      device.Execute(ReadControllerId, !f.Unsent?);
      var response :- Received(f, ReadControllerId);
      var _ :- RequireSuccess(response);
      if response.payload != IDENTITY {
        return Err(Permission);
      }
      var session := new Session(device, response.sequence);
      return Ok(session);
    }

    /** Accept the next sequence number before looking at what the response reports. */
    method AcceptIncremented(response: Response) returns (r: Result<Response>)
      modifies this
      ensures operationSequence == if response.sequence == Following(old(operationSequence)) then response.sequence
                                   else old(operationSequence)
      ensures r == if response.sequence == Following(old(operationSequence)) then RequireSuccess(response)
                   else Err(Invalid)
    {
      if response.sequence != Following(operationSequence) {
        return Err(Invalid);
      }
      operationSequence := response.sequence;
      return RequireSuccess(response);
    }

    /** Read the NAND id, the ONFI pages or a page: the response itself carries the next sequence number. */
    method ReadOperation(c: Command, f: Fate) returns (r: Result<Response>)
      requires c.ReadNandId? || c.ReadOnfiParameters? || c.ReadPage?
      requires Honest(f, c, Following(device.sequence))
      modifies this, device
      ensures Counts() == if f.Unsent? then old(Counts()) else old(Counts()).AfterOperation(Received(f, c))
      ensures r == old(Counts()).OperationResult(Received(f, c))
      ensures Judged(r, Received(f, c), (old(operationSequence) + 1) % 0x1_0000_0000)
    {
      device.Execute(c, !f.Unsent?);
      var response :- Received(f, c);
      r := AcceptIncremented(response);
    }

    method ReadNandId(f: Fate) returns (r: Result<seq<byte>>)
      requires Honest(f, Command.ReadNandId, Following(device.sequence))
      modifies this, device
      ensures Counts() == if f.Unsent? then old(Counts())
                          else old(Counts()).AfterOperation(Received(f, Command.ReadNandId))
      ensures r == NandIdOf(old(Counts()).OperationResult(Received(f, Command.ReadNandId)))
      ensures r.Ok? <==>
              var received := Received(f, Command.ReadNandId);
              && Reassures(received, (old(operationSequence) + 1) % 0x1_0000_0000) && |received.value.payload| == 6
              && (exists i :: 0 <= i < 6 && received.value.payload[i] != 0x00)
              && exists i :: 0 <= i < 6 && received.value.payload[i] != 0xFF
      ensures r.Ok? ==> r.value == Received(f, Command.ReadNandId).value.payload
    {
      var response := ReadOperation(Command.ReadNandId, f);
      if response.Ok? {
        UniformIff(response.value.payload, 0x00);
        UniformIff(response.value.payload, 0xFF);
      }
      return NandIdOf(response);
    }

    method ReadOnfiGeometry(f: Fate) returns (r: Result<Onfi.Geometry>)
      requires Honest(f, ReadOnfiParameters, Following(device.sequence))
      modifies this, device
      ensures Counts() == if f.Unsent? then old(Counts())
                          else old(Counts()).AfterOperation(Received(f, ReadOnfiParameters))
      ensures r == OnfiGeometryOf(old(Counts()).OperationResult(Received(f, ReadOnfiParameters)))
      ensures r.Ok? ==> Reassures(Received(f, ReadOnfiParameters), (old(operationSequence) + 1) % 0x1_0000_0000)
    {
      var response :- ReadOperation(ReadOnfiParameters, f);
      r := Onfi.SelectCopy(Bits(response.payload));
    }

    /** A page of an impossible size is refused before anything is sent. */
    method ReadPage(rawPageBytes: nat, f: Fate) returns (r: Result<Response>)
      requires Honest(f, Command.ReadPage, Following(device.sequence))
      modifies this, device
      ensures !(1 <= rawPageBytes <= Onfi.MAX_RAW_PAGE_BYTES) ==> r == Err(Invalid) && Counts() == old(Counts())
      ensures 1 <= rawPageBytes <= Onfi.MAX_RAW_PAGE_BYTES ==>
                && r == old(Counts()).OperationResult(Received(f, Command.ReadPage))
                && Judged(r, Received(f, Command.ReadPage), (old(operationSequence) + 1) % 0x1_0000_0000)
                && Counts() == if f.Unsent? then old(Counts())
                               else old(Counts()).AfterOperation(Received(f, Command.ReadPage))
    {
      if !(1 <= rawPageBytes <= Onfi.MAX_RAW_PAGE_BYTES) {
        return Err(Invalid);
      }
      r := ReadOperation(Command.ReadPage, f);
    }

    /** Read the status after an operation (`incremented`) or on its own. */
    method ReadStatus(incremented: bool, f: Fate) returns (r: Result<Response>)
      requires Honest(f, Command.ReadStatus, device.sequence)
      modifies this
      ensures r == var received := Received(f, Command.ReadStatus);
                   if incremented then old(Counts()).OperationResult(received) else old(Counts()).StatusResult(received)
      ensures Judged(r, Received(f, Command.ReadStatus),
                     if incremented then (old(operationSequence) + 1) % 0x1_0000_0000 else old(operationSequence))
      ensures operationSequence ==
              var received := Received(f, Command.ReadStatus);
              if incremented && received.Ok? && received.value.sequence == Following(old(operationSequence))
              then received.value.sequence else old(operationSequence)
    {
      var response :- Received(f, Command.ReadStatus);
      if incremented {
        r := AcceptIncremented(response);
        return;
      }
      if response.sequence != operationSequence {
        return Err(Invalid);
      }
      return RequireSuccess(response);
    }

    /** Configure, erase or program: a command without a response of its own, then a status read that must count it. */
    method WriteOperation(c: Command, confirmed: bool, executed: bool, f: Fate) returns (r: Result<Response>)
      requires c.ConfigureGeometry? || c.EraseBlock? || c.ProgramPage?
      requires confirmed ==> executed
      requires Honest(f, Command.ReadStatus, Following(device.sequence))
      modifies this, device
      ensures confirmed ==> Counts() == old(Counts()).AfterOperation(Received(f, Command.ReadStatus))
                            && r == old(Counts()).OperationResult(Received(f, Command.ReadStatus))
                            && Judged(r, Received(f, Command.ReadStatus),
                                      (old(operationSequence) + 1) % 0x1_0000_0000)
      ensures !confirmed ==> r == Err(Io) && operationSequence == old(operationSequence)
                             && device.sequence == if executed then Following(old(device.sequence))
                                                   else old(device.sequence)
    {
      device.Execute(c, executed);
      if !confirmed {
        return Err(Io);
      }
      r := ReadStatus(true, f);
    }
  }
}
