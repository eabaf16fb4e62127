/** Recipe commands: value operations, field bindings, CDB and context payload building, and their validation. */
module CommandBuilder {
  import opened Wrappers
  import opened Bytes
  import opened Geometry
  import opened FieldCodec
  import opened Words
  import opened Claims
  import opened Responses

  const MAX_CONTEXT_PAYLOAD_FIELDS: nat := 32
  const MAX_VALUE_OPERATIONS: nat := 16
  const MAX_CDB_BYTES: nat := 16
  const MAX_PHYSICAL_BLOCKS: nat := 131_072

  datatype Source =
    | Channel | Chip | Lun | Plane | Block | Page | FlatBlock | PayloadBytes | Generation | UserBlocks | SpareBlocks

  datatype Operation =
    | Add(operand: u64) | Subtract(operand: u64) | Multiply(operand: u64)
    | Divide(operand: u64) | Modulo(operand: u64) | XorModulo(operand: u64)
    | And(mask: u64) | Or(mask: u64)
    | ShiftLeft(bits: byte) | ShiftRight(bits: byte)

  datatype Binding = Binding(field: IntegerLayout, source: Source, operations: seq<Operation>)

  datatype Constant = Constant(field: IntegerLayout, value: u64)

  /** A payload generated from the context: a record repeated to the transfer length. */
  datatype ContextPayload = ContextPayload(
    recordBytes: u32, copies: u32, fill: byte, constants: seq<Constant>, fields: seq<Binding>)

  /** Where the bytes sent to the device come from. */
  datatype PayloadSource = Caller | Artifact | Bbt | Ftl | Capacity | FromContext(context: ContextPayload)

  datatype Direction = NoData | FromDevice | ToDevice

  datatype Command = Command(
    cdb: seq<byte>, direction: Direction, transferBytes: u32, timeoutMs: u64, fields: seq<Binding>,
    source: Option<PayloadSource>, response: ResponseRule)
  {
    /** The payload that is generated from the context, if there is one. */
    function Generated(): Option<ContextPayload> {
      if source.Some? && source.value.FromContext? then Some(source.value.context) else None
    }
  }

  datatype Transport = ScsiCommand | UsbBot | OtherTransport

  /** What a command is issued for. */
  datatype Context = Context(
    channel: u64, chip: u64, lun: u64, plane: u64, block: u64, page: u64, flatBlock: u64,
    payloadBytes: u64, generation: u64, userBlocks: u64, spareBlocks: u64)
  {
    function Value(s: Source): u64 {
      match s
      case Channel => channel
      case Chip => chip
      case Lun => lun
      case Plane => plane
      case Block => block
      case Page => page
      case FlatBlock => flatBlock
      case PayloadBytes => payloadBytes
      case Generation => generation
      case UserBlocks => userBlocks
      case SpareBlocks => spareBlocks
    }
  }

  /** The context of a block, with everything but its coordinate zero. */
  function ContextAt(flat: u64, g: NandGeometry): Result<Context>
    requires g.HasPlanes()
  {
    var c :- CoordinateOf(flat, g);
    Ok(Context(c.channel, c.chip, c.lun, c.plane, c.block, 0, flat, 0, 0, 0, 0))
  }

  // ----- Value operations -----

  function Word(n: int): Result<u64> {
    if 0 <= n < 0x1_0000_0000_0000_0000 then Ok(n) else Err(Invalid)
  }

  function ApplyOne(value: u64, op: Operation): Result<u64> {
    match op
    case Add(x) => Word(value + x)
    case Subtract(x) => Word(value - x)
    case Multiply(x) => Word(value * x)
    case Divide(x) => if x == 0 then Err(Invalid) else Ok(Quotient(value, x))
    case Modulo(x) => if x == 0 then Err(Invalid) else Ok(Remainder(value, x))
    case XorModulo(x) => if x == 0 then Err(Invalid) else Ok(Bits(Differ, value, Remainder(value, x)))
    case And(mask) => Ok(Bits(Both, value, mask))
    case Or(mask) => Ok(Bits(Either, value, mask))
    case ShiftLeft(bits) => if bits >= 64 then Err(Invalid) else Word(value * Pow2(bits))
    case ShiftRight(bits) => if bits >= 64 then Err(Invalid) else Ok(Shifted(value, bits))
  }

  function Shifted(value: u64, bits: nat): u64 {
    PowerIsPositive(bits);
    Quotient(value, Pow2(bits))
  }

  /** What the operations mean: inverses where there are some, bit by bit where there are none. */
  lemma OperationsMean(value: u64, x: u64, bits: byte, i: nat)
    ensures ApplyOne(value, Add(x)).Ok? ==> ApplyOne(ApplyOne(value, Add(x)).value, Subtract(x)) == Ok(value)
    ensures ApplyOne(value, Subtract(x)).Ok? ==> ApplyOne(ApplyOne(value, Subtract(x)).value, Add(x)) == Ok(value)
    ensures x > 0 && ApplyOne(value, Multiply(x)).Ok?
            ==> ApplyOne(ApplyOne(value, Multiply(x)).value, Divide(x)) == Ok(value)
    ensures x > 0 ==> ApplyOne(value, Divide(x)).value * x + ApplyOne(value, Modulo(x)).value == value
                      && ApplyOne(value, Modulo(x)).value < x
    ensures ApplyOne(value, ShiftLeft(bits)).Ok? ==>
              ApplyOne(ApplyOne(value, ShiftLeft(bits)).value, ShiftRight(bits)) == Ok(value)
    ensures BitOf(ApplyOne(value, And(x)).value, i) <==> BitOf(value, i) && BitOf(x, i)
    ensures BitOf(ApplyOne(value, Or(x)).value, i) <==> BitOf(value, i) || BitOf(x, i)
    ensures x > 0 ==> (BitOf(ApplyOne(value, XorModulo(x)).value, i) <==> BitOf(value, i) != BitOf(value % x, i))
  {
    hide Combine, BitOf, Pow2;
    if x > 0 {
      DivModUnique(value, x, 0);
      CombineBits(Differ, value, value % x, i);
    }
    PowerIsPositive(bits);
    DivModUnique(value, Pow2(bits), 0);
    CombineBits(Both, value, x, i);
    CombineBits(Either, value, x, i);
  }

  /** Each bit of `r` is what the operator makes of those of `a` and `b`. */
  ghost predicate Joins(how: Bitwise, r: u64, a: u64, b: nat) {
    forall i: nat :: BitOf(r, i) <==> how.On(BitOf(a, i), BitOf(b, i))
  }

  /** Exactly when an operation has a result, and which. */
  ghost predicate Results(value: u64, op: Operation, r: u64) {
    match op
    case Add(x) => r == value + x
    case Subtract(x) => r + x == value
    case Multiply(x) => r == value * x
    case Divide(x) => r * x <= value < r * x + x
    case Modulo(x) => x > 0 && r == value % x
    case XorModulo(x) => x > 0 && Joins(Differ, r, value, value % x)
    case And(mask) => Joins(Both, r, value, mask)
    case Or(mask) => Joins(Either, r, value, mask)
    case ShiftLeft(bits) => bits < 64 && r == value * Pow2(bits)
    case ShiftRight(bits) => bits < 64 && r * Pow2(bits) <= value < r * Pow2(bits) + Pow2(bits)
  }

  lemma QuotientIff(value: u64, x: nat, r: u64)
    requires x > 0
    ensures Quotient(value, x) == r <==> r * x <= value < r * x + x
  {
    if r * x <= value < r * x + x {
      DivModUnique(r, x, value - r * x);
    }
  }

  lemma BitOfBits(how: Bitwise, a: u64, b: u64, i: nat)
    ensures BitOf(Bits(how, a, b), i) <==> how.On(BitOf(a, i), BitOf(b, i))
  {
    CombineBits(how, a, b, i);
  }

  lemma JoinsIff(how: Bitwise, r: u64, a: u64, b: u64)
    ensures Bits(how, a, b) == r <==> Joins(how, r, a, b)
  {
    hide BitOf, Bits;
    forall i: nat
      ensures BitOf(Bits(how, a, b), i) <==> how.On(BitOf(a, i), BitOf(b, i))
    {
      BitOfBits(how, a, b, i);
    }
    if Joins(how, r, a, b) {
      SameBits(Bits(how, a, b), r);
    }
  }

  /** An operation gives a 64-bit result exactly when its equation has one, and then that one. */
  lemma OperationIff(value: u64, op: Operation, r: u64)
    ensures ApplyOne(value, op) == Ok(r) <==> Results(value, op, r)
  {
    hide Joins, Bits, Quotient, Remainder, Pow2;
    match op
    case Divide(x) => if x > 0 { QuotientIff(value, x, r); }
    case XorModulo(x) => if x > 0 { JoinsIff(Differ, r, value, Remainder(value, x)); }
    case And(mask) => JoinsIff(Both, r, value, mask);
    case Or(mask) => JoinsIff(Either, r, value, mask);
    case ShiftRight(bits) =>
      PowerIsPositive(bits);
      QuotientIff(value, Pow2(bits), r);
    case _ =>
  }

  function ApplyAll(value: u64, operations: seq<Operation>): Result<u64>
    decreases |operations|
  {
    if operations == [] then Ok(value)
    else
      var next :- ApplyOne(value, operations[0]);
      ApplyAll(next, operations[1..])
  }

  method ApplyValueOperations(value: u64, operations: seq<Operation>) returns (r: Result<u64>)
    ensures r == ApplyAll(value, operations)
  {
    hide ApplyOne;
    var current := value;
    for i := 0 to |operations|
      invariant ApplyAll(value, operations) == ApplyAll(current, operations[i..])
    {
      assert operations[i..][0] == operations[i] && operations[i..][1..] == operations[i + 1..];
      current :- ApplyOne(current, operations[i]);
    }
    return Ok(current);
  }

  predicate OperationsValid(operations: seq<Operation>) {
    && |operations| <= MAX_VALUE_OPERATIONS
    && forall i :: 0 <= i < |operations| ==> OperationValid(operations[i])
  }

  predicate OperationValid(op: Operation) {
    match op
    case Divide(x) => x != 0
    case Modulo(x) => x != 0
    case XorModulo(x) => x != 0
    case ShiftLeft(bits) => bits < 64
    case ShiftRight(bits) => bits < 64
    case _ => true
  }

  // ----- Building -----

  function Layouts(bindings: seq<Binding>): (s: seq<IntegerLayout>)
    ensures |s| == |bindings|
  {
    seq(|bindings|, i requires 0 <= i < |bindings| => bindings[i].field)
  }

  function ConstantLayouts(constants: seq<Constant>): (s: seq<IntegerLayout>)
    ensures |s| == |constants|
  {
    seq(|constants|, i requires 0 <= i < |constants| => constants[i].field)
  }

  function ConstantValues(constants: seq<Constant>): (s: seq<nat>)
    ensures |s| == |constants|
    ensures forall i :: 0 <= i < |s| ==> s[i] == constants[i].value
  {
    seq(|constants|, i requires 0 <= i < |constants| => constants[i].value)
  }

  /** The value a binding stores for a context. */
  function BoundValue(b: Binding, ctx: Context): Result<u64> { ApplyAll(ctx.Value(b.source), b.operations) }

  function PutBindings(buf: seq<byte>, bindings: seq<Binding>, ctx: Context): (r: Result<seq<byte>>)
    requires WidthsFit(Layouts(bindings))
    ensures r.Ok? ==> |r.value| == |buf|
    decreases |bindings|
  {
    if bindings == [] then Ok(buf)
    else
      var f := bindings[0].field;
      assert f == Layouts(bindings)[0];
      assert Layouts(bindings[1..]) == Layouts(bindings)[1..];
      var value :- BoundValue(bindings[0], ctx);
      var next :- PutInteger(buf, f.offset, f.width, f.endian, value);
      PutBindings(next, bindings[1..], ctx)
  }

  function CdbBytes(cmd: Command, ctx: Context): Result<seq<byte>>
    requires WidthsFit(Layouts(cmd.fields))
  {
    PutBindings(cmd.cdb, cmd.fields, ctx)
  }

  method WriteBindings(buf: array<byte>, bindings: seq<Binding>, ctx: Context) returns (r: Result<()>)
    requires WidthsFit(Layouts(bindings))
    modifies buf
    ensures match PutBindings(old(buf[..]), bindings, ctx)
            case Ok(after) => r == Ok(()) && buf[..] == after
            case Err(e) => r == Err(e)
  {
    hide PutInteger;
    for i := 0 to |bindings|
      invariant Layouts(bindings[i..]) == Layouts(bindings)[i..]
      invariant PutBindings(old(buf[..]), bindings, ctx) == PutBindings(buf[..], bindings[i..], ctx)
    {
      var f := bindings[i].field;
      assert bindings[i..][0] == bindings[i] && bindings[i..][1..] == bindings[i + 1..];
      assert Layouts(bindings)[i].width <= 8;
      var value := ApplyValueOperations(ctx.Value(bindings[i].source), bindings[i].operations);
      if value.Err? {
        return Err(value.error);
      }
      var put := WriteInteger(buf, f.offset, f.width, f.endian, value.value);
      if put.Err? {
        return put;
      }
    }
    return Ok(());
  }

  method BuildCdb(cmd: Command, ctx: Context) returns (r: Result<seq<byte>>)
    requires WidthsFit(Layouts(cmd.fields))
    ensures r == CdbBytes(cmd, ctx)
  {
    var cdb := new byte[|cmd.cdb|](i requires 0 <= i < |cmd.cdb| => cmd.cdb[i]);
    assert cdb[..] == cmd.cdb;
    var _ :- WriteBindings(cdb, cmd.fields, ctx);
    return Ok(cdb[..]);
  }

  predicate PayloadWidthsFit(p: ContextPayload) {
    WidthsFit(ConstantLayouts(p.constants)) && WidthsFit(Layouts(p.fields))
  }

  function Record(p: ContextPayload, ctx: Context): Result<seq<byte>>
    requires PayloadWidthsFit(p)
  {
    var fixed :- PutAll(Filled(p.fill, p.recordBytes), 0, ConstantLayouts(p.constants), ConstantValues(p.constants));
    PutBindings(fixed, p.fields, ctx)
  }

  function Repeated(record: seq<byte>, n: nat): seq<byte> {
    if n == 0 then [] else Repeated(record, n - 1) + record
  }

  function ContextPayloadBytes(cmd: Command, ctx: Context): Result<seq<byte>>
    requires cmd.Generated().Some? ==> PayloadWidthsFit(cmd.Generated().value)
  {
    match cmd.Generated()
    case None => Err(Invalid)
    case Some(p) =>
      if p.recordBytes * p.copies != cmd.transferBytes || cmd.transferBytes > MAX_COMMAND_TRANSFER then Err(Invalid)
      else
        var record :- Record(p, ctx);
        Ok(Repeated(record, p.copies))
  }

  method BuildContextPayload(cmd: Command, ctx: Context) returns (r: Result<seq<byte>>)
    requires cmd.Generated().Some? ==> PayloadWidthsFit(cmd.Generated().value)
    ensures r == ContextPayloadBytes(cmd, ctx)
  {
    hide PutInteger, PutBindings;
    if cmd.Generated().None? {
      return Err(Invalid);
    }
    var p := cmd.Generated().value;
    if p.recordBytes * p.copies != cmd.transferBytes || cmd.transferBytes > MAX_COMMAND_TRANSFER {
      return Err(Invalid);
    }
    var record := new byte[p.recordBytes](_ => p.fill);
    ghost var blank := Filled(p.fill, p.recordBytes);
    ghost var layouts, values := ConstantLayouts(p.constants), ConstantValues(p.constants);
    assert record[..] == blank;
    for i := 0 to |p.constants|
      invariant PutAll(blank, 0, layouts, values) == PutAll(record[..], 0, layouts[i..], values[i..])
    {
      var f := p.constants[i].field;
      assert layouts[i..][0] == layouts[i] && layouts[i..][1..] == layouts[i + 1..]
             && values[i..][1..] == values[i + 1..];
      assert layouts[i].width <= 8 && f.offset == 0 + f.offset;
      var put := WriteInteger(record, f.offset, f.width, f.endian, p.constants[i].value);
      if put.Err? {
        return Err(put.error);
      }
    }
    var _ :- WriteBindings(record, p.fields, ctx);
    var payload: seq<byte> := [];
    for i := 0 to p.copies
      invariant payload == Repeated(record[..], i)
    {
      payload := payload + record[..];
    }
    return Ok(payload);
  }

  // ----- Validation -----

  predicate Within(f: IntegerLayout, len: nat) { 1 <= f.width <= 8 && f.offset + f.width <= len }

  /** A CDB binding never touches the opcode. */
  predicate CdbBindingValid(b: Binding, len: nat) {
    b.field.offset != 0 && WidthValid(b.field.width) && b.field.offset + b.field.width <= len
    && OperationsValid(b.operations)
  }

  predicate CdbFieldsValid(cmd: Command) {
    && (forall i :: 0 <= i < |cmd.fields| ==> CdbBindingValid(cmd.fields[i], |cmd.cdb|))
    && RangesDisjoint(Spans(Layouts(cmd.fields)))
  }

  predicate CdbLengthValid(transport: Transport, n: nat) {
    match transport
    case ScsiCommand => n in {6, 10, 12, 16}
    case UsbBot => 6 <= n <= MAX_CDB_BYTES
    case OtherTransport => false
  }

  /** Direction, transfer size, payload and response bounds agree. */
  predicate TransferValid(cmd: Command) {
    var silent := cmd.response.minBytes == 0 && cmd.response.maxBytes == 0;
    match cmd.direction
    case NoData => cmd.transferBytes == 0 && cmd.source.None? && silent
    case FromDevice => cmd.transferBytes != 0 && cmd.source.None? && cmd.response.maxBytes <= cmd.transferBytes
    case ToDevice => cmd.transferBytes != 0 && cmd.source.Some? && silent
  }

  function PayloadLayouts(p: ContextPayload): seq<IntegerLayout> { ConstantLayouts(p.constants) + Layouts(p.fields) }

  predicate PayloadValid(cmd: Command, p: ContextPayload) {
    && p.recordBytes * p.copies == cmd.transferBytes
    && cmd.direction.ToDevice? && p.recordBytes != 0 && p.copies != 0
    && |p.fields| + |p.constants| <= MAX_CONTEXT_PAYLOAD_FIELDS
    && (forall i :: 0 <= i < |p.constants| ==>
                      Within(p.constants[i].field, p.recordBytes)
                      && FitsIn(p.constants[i].value, p.constants[i].field.width))
    && (forall i :: 0 <= i < |p.fields| ==>
                      Within(p.fields[i].field, p.recordBytes) && OperationsValid(p.fields[i].operations))
    && RangesDisjoint(Spans(PayloadLayouts(p)))
  }

  function LastIndex(n: nat): nat { if n == 0 then 0 else n - 1 }

  /** The largest runtime value validation tries for a source; the generation is not tried. */
  function Maximum(s: Source, g: NandGeometry, pages: u32, total: u64, transferBytes: u32): Option<u64> {
    match s
    case Channel => Some(LastIndex(g.channels))
    case Chip => Some(LastIndex(g.chipsPerChannel))
    case Lun => Some(LastIndex(g.lunsPerChip))
    case Plane => Some(LastIndex(g.planesPerLun))
    case Block => Some(LastIndex(g.blocksPerLun))
    case Page => Some(LastIndex(pages))
    case FlatBlock => Some(LastIndex(total))
    case PayloadBytes => Some(transferBytes)
    case UserBlocks => Some(total)
    case SpareBlocks => Some(total)
    case Generation => None
  }

  predicate Encodes(b: Binding, input: u64) {
    match ApplyAll(input, b.operations)
    case Ok(encoded) => FitsIn(encoded, b.field.width)
    case Err(_) => false
  }

  predicate SweepPasses(b: Binding, maximum: Option<u64>) {
    maximum.Some? ==> forall input: u64 :: input <= maximum.value ==> Encodes(b, input)
  }

  predicate SweepsPass(bindings: seq<Binding>, cmd: Command, g: NandGeometry, pages: u32, total: u64) {
    forall i :: 0 <= i < |bindings| ==>
                  SweepPasses(bindings[i], Maximum(bindings[i].source, g, pages, total, cmd.transferBytes))
  }

  /** What validation requires of one command. */
  ghost predicate CommandAccepted(cmd: Command, transport: Transport, g: NandGeometry, pages: u32)
    requires g.HasPlanes()
  {
    && CdbLengthValid(transport, |cmd.cdb|) && cmd.transferBytes <= MAX_COMMAND_TRANSFER
    && 100 <= cmd.timeoutMs <= 3_600_000
    && TransferValid(cmd) && RuleValid(cmd.response)
    && CdbFieldsValid(cmd)
    && (cmd.Generated().Some? ==> PayloadValid(cmd, cmd.Generated().value))
    && TotalBlocks(g).Ok? && TotalBlocks(g).value <= MAX_PHYSICAL_BLOCKS
    && SweepsPass(cmd.fields, cmd, g, pages, TotalBlocks(g).value)
    && (cmd.Generated().Some? ==>
        && SweepsPass(cmd.Generated().value.fields, cmd, g, pages, TotalBlocks(g).value)
        && PayloadWidthsFit(cmd.Generated().value)
        && forall flat :: 0 <= flat < TotalBlocks(g).value ==> PayloadBuildsAt(cmd, flat, g))
  }

  predicate PayloadBuildsAt(cmd: Command, flat: u64, g: NandGeometry)
    requires g.HasPlanes() && cmd.Generated().Some? && PayloadWidthsFit(cmd.Generated().value)
  {
    ContextAt(flat, g).Ok? && ContextPayloadBytes(cmd, ContextAt(flat, g).value).Ok?
  }

  method SweepInputs(b: Binding, maximum: u64) returns (ok: bool)
    ensures ok == SweepPasses(b, Some(maximum))
  {
    hide ApplyAll;
    for input := 0 to maximum + 1
      invariant forall earlier: u64 :: earlier < input ==> Encodes(b, earlier)
    {
      var encoded := ApplyValueOperations(input, b.operations);
      if encoded.Err? || !FitsIn(encoded.value, b.field.width) {
        assert !Encodes(b, input);
        return false;
      }
    }
    return true;
  }

  method SweepBindings(bindings: seq<Binding>, cmd: Command, g: NandGeometry, pages: u32, total: u64) returns (ok: bool)
    ensures ok == SweepsPass(bindings, cmd, g, pages, total)
  {
    hide SweepPasses;
    for i := 0 to |bindings|
      invariant SweepsPass(bindings[..i], cmd, g, pages, total)
    {
      var maximum := Maximum(bindings[i].source, g, pages, total, cmd.transferBytes);
      if maximum.Some? {
        var passes := SweepInputs(bindings[i], maximum.value);
        if !passes {
          return false;
        }
      } else {
        NothingToSweep(bindings[i]);
      }
    }
    assert bindings[..|bindings|] == bindings;
    return true;
  }

  lemma NothingToSweep(b: Binding)
    ensures SweepPasses(b, None)
  {
  }

  method ValidateCdbFields(cmd: Command) returns (ok: bool)
    requires |cmd.cdb| <= MAX_CDB_BYTES
    ensures ok == CdbFieldsValid(cmd)
  {
    hide RangesDisjoint;
    for i := 0 to |cmd.fields|
      invariant forall k :: 0 <= k < i ==> CdbBindingValid(cmd.fields[k], |cmd.cdb|)
    {
      if !CdbBindingValid(cmd.fields[i], |cmd.cdb|) {
        return false;
      }
    }
    ok := ClaimAll(Layouts(cmd.fields));
  }

  method ValidatePayload(cmd: Command, p: ContextPayload) returns (ok: bool)
    ensures ok == PayloadValid(cmd, p)
  {
    hide RangesDisjoint, FitsIn;
    if p.recordBytes * p.copies != cmd.transferBytes || !cmd.direction.ToDevice? || p.recordBytes == 0 || p.copies == 0
       || |p.fields| + |p.constants| > MAX_CONTEXT_PAYLOAD_FIELDS
    {
      return false;
    }
    for i := 0 to |p.constants|
      invariant forall k :: 0 <= k < i ==> Within(p.constants[k].field, p.recordBytes)
                                           && FitsIn(p.constants[k].value, p.constants[k].field.width)
    {
      if !Within(p.constants[i].field, p.recordBytes) || !FitsIn(p.constants[i].value, p.constants[i].field.width) {
        return false;
      }
    }
    for i := 0 to |p.fields|
      invariant forall k :: 0 <= k < i ==> Within(p.fields[k].field, p.recordBytes)
                                           && OperationsValid(p.fields[k].operations)
    {
      if !Within(p.fields[i].field, p.recordBytes) || !OperationsValid(p.fields[i].operations) {
        return false;
      }
    }
    var layouts := PayloadLayouts(p);
    forall i | 0 <= i < |layouts|
      ensures Within(layouts[i], p.recordBytes)
    {
      if i >= |p.constants| {
        assert layouts[i] == p.fields[i - |p.constants|].field;
      }
    }
    ok := ClaimAll(layouts);
  }

  /** Whether a context payload can be built for every block of the medium. */
  method TryEveryBlock(cmd: Command, g: NandGeometry, total: u64) returns (ok: bool)
    requires g.HasPlanes() && cmd.Generated().Some? && PayloadWidthsFit(cmd.Generated().value)
    ensures ok <==> forall flat :: 0 <= flat < total ==> PayloadBuildsAt(cmd, flat, g)
  {
    hide ContextPayloadBytes, CoordinateOf;
    for flat := 0 to total
      invariant forall earlier :: 0 <= earlier < flat ==> PayloadBuildsAt(cmd, earlier, g)
    {
      var context := ContextAt(flat, g);
      if context.Err? {
        assert !PayloadBuildsAt(cmd, flat, g);
        return false;
      }
      var built := BuildContextPayload(cmd, context.value);
      if built.Err? {
        assert !PayloadBuildsAt(cmd, flat, g);
        return false;
      }
    }
    ok := true;
  }

  method ValidateCommand(cmd: Command, transport: Transport, g: NandGeometry, pages: u32) returns (ok: bool)
    requires g.HasPlanes()
    ensures ok == CommandAccepted(cmd, transport, g, pages)
  {
    hide CdbFieldsValid, PayloadValid, SweepsPass, PayloadBuildsAt, TotalBlocks, RuleValid;
    if !CdbLengthValid(transport, |cmd.cdb|) || cmd.transferBytes > MAX_COMMAND_TRANSFER
       || !(100 <= cmd.timeoutMs <= 3_600_000) || !TransferValid(cmd)
    {
      return false;
    }
    var response := ValidateResponse(cmd.response);
    if !response {
      return false;
    }
    var fields := ValidateCdbFields(cmd);
    if !fields {
      return false;
    }
    if cmd.Generated().Some? {
      var payload := ValidatePayload(cmd, cmd.Generated().value);
      if !payload {
        return false;
      }
    }
    var total := TotalBlocks(g);
    if total.Err? || total.value > MAX_PHYSICAL_BLOCKS {
      return false;
    }
    ok := SweepBindings(cmd.fields, cmd, g, pages, total.value);
    if ok && cmd.Generated().Some? {
      ok := SweepBindings(cmd.Generated().value.fields, cmd, g, pages, total.value);
      if ok {
        ValidPayloadWidths(cmd, cmd.Generated().value);
        ok := TryEveryBlock(cmd, g, total.value);
      }
    }
  }

  lemma ValidPayloadWidths(cmd: Command, p: ContextPayload)
    requires PayloadValid(cmd, p)
    ensures PayloadWidthsFit(p)
  {
  }
}
