/** Layout-driven integer fields and block addresses inside controller metadata. */
module FieldCodec {
  import opened Wrappers
  import opened Bytes
  import opened Geometry

  const MAX_U32: nat := 0xFFFF_FFFF
  const MAX_COMMAND_TRANSFER: nat := 16 * 1024 * 1024

  datatype Endian = Big | Little

  datatype IntegerLayout = IntegerLayout(offset: u32, width: nat, endian: Endian)

  datatype AddressLayout =
    | Flat(field: IntegerLayout)
    | Coordinates(channel: IntegerLayout, chip: IntegerLayout, lun: IntegerLayout, block: IntegerLayout)
    | CoordinatesWithPlane(channel: IntegerLayout, chip: IntegerLayout, lun: IntegerLayout,
                           plane: IntegerLayout, blockInPlane: IntegerLayout)

  // ----- Integer fields -----

  function EncodeInt(value: nat, width: nat, endian: Endian): (s: seq<byte>)
    ensures |s| == width
  {
    match endian
    case Big => BigEndian(value, width)
    case Little => LittleEndian(value, width)
  }

  function DecodeInt(s: seq<byte>, endian: Endian): nat {
    match endian
    case Big => FromBigEndian(s)
    case Little => FromLittleEndian(s)
  }

  function PutInteger(buf: seq<byte>, offset: nat, width: nat, endian: Endian, value: nat): (r: Result<seq<byte>>)
    requires width <= 8
    ensures r.Ok? ==> |r.value| == |buf|
  {
    if offset + width > |buf| then Err(Invalid)
    else if width < 8 && value >= Pow256(width) then Err(Invalid)
    else Ok(Overwrite(buf, offset, EncodeInt(value, width, endian)))
  }

  function GetInteger(buf: seq<byte>, offset: nat, width: nat, endian: Endian): Result<nat>
    requires width <= 8
  {
    if offset + width > |buf| then Err(Invalid) else Ok(DecodeInt(buf[offset..offset + width], endian))
  }

  /** A field reads back as the value put there; values are 64-bit, so eight bytes hold any of them. */
  lemma GetAfterPut(buf: seq<byte>, offset: nat, width: nat, endian: Endian, value: u64)
    requires width <= 8 && PutInteger(buf, offset, width, endian, value).Ok?
    ensures GetInteger(PutInteger(buf, offset, width, endian, value).value, offset, width, endian) == Ok(value)
  {
    assert Pow256(4) == 0x1_0000_0000;
    assert Pow256(8) == 256 * (256 * (256 * (256 * Pow256(4))));
    LittleEndianRoundTrip(value, width);
    BigEndianRoundTrip(value, width);
  }

  /** A field's bytes are what its value encodes to. */
  lemma EncodeDecodes(s: seq<byte>, endian: Endian)
    ensures DecodeInt(s, endian) < Pow256(|s|) && EncodeInt(DecodeInt(s, endian), |s|, endian) == s
  {
    LittleEndianRestores(s);
    BigEndianRestores(s);
  }

  /** Dividing twice is dividing by the product. */
  lemma DividesOn(value: nat, a: nat, b: nat)
    requires a > 0 && b > 0
    ensures value / a / b == value / (a * b)
  {
    var q, low, high := value / a / b, value % a, value / a % b;
    assert value / a == q * b + high;
    assert value == (q * b + high) * a + low;
    Regroup(q, b, high, a);
    DigitBound(high, b, low, a);
    DivModUnique(q, a * b, high * a + low);
  }

  lemma Regroup(q: nat, b: nat, high: nat, a: nat)
    ensures (q * b + high) * a == q * (a * b) + high * a
  {
  }

  /** Byte `i` of a little-endian field is the digit of weight 256 to the power i. */
  lemma {:induction false} LittleEndianByte(value: nat, width: nat, i: nat)
    requires i < width
    ensures LittleEndian(value, width)[i] == value / Pow256(i) % 256
  {
    if i > 0 {
      LittleEndianByte(value / 256, width - 1, i - 1);
      DividesOn(value, 256, Pow256(i - 1));
    }
  }

  /** A big-endian field starts with the digit of the greatest weight. */
  lemma {:induction false} BigEndianByte(value: nat, width: nat, i: nat)
    requires i < width
    ensures BigEndian(value, width)[i] == value / Pow256(width - 1 - i) % 256
  {
    if i < width - 1 {
      BigEndianByte(value / 256, width - 1, i);
      DividesOn(value, 256, Pow256(width - 2 - i));
    }
  }

  /** The digit that each byte of an encoded field holds. */
  lemma FieldDigits(value: nat, width: nat, i: nat)
    requires i < width
    ensures EncodeInt(value, width, Little)[i] == value / Pow256(i) % 256
    ensures EncodeInt(value, width, Big)[i] == value / Pow256(width - 1 - i) % 256
  {
    LittleEndianByte(value, width, i);
    BigEndianByte(value, width, i);
  }

  /** Writing a value back where it was read changes nothing. */
  lemma PutAfterGet(buf: seq<byte>, offset: nat, width: nat, endian: Endian)
    requires width <= 8 && GetInteger(buf, offset, width, endian).Ok?
    ensures PutInteger(buf, offset, width, endian, GetInteger(buf, offset, width, endian).value) == Ok(buf)
  {
    var s := buf[offset..offset + width];
    EncodeDecodes(s, endian);
    assert Overwrite(buf, offset, s) == buf;
  }

  method WriteInteger(buf: array<byte>, offset: nat, width: nat, endian: Endian, value: nat) returns (r: Result<()>)
    requires width <= 8
    modifies buf
    ensures match PutInteger(old(buf[..]), offset, width, endian, value)
            case Ok(after) => r == Ok(()) && buf[..] == after
            case Err(e) => r == Err(e) && buf[..] == old(buf[..])
  {
    if offset + width > buf.Length {
      return Err(Invalid);
    }
    if width < 8 && value >= Pow256(width) {
      return Err(Invalid);
    }
    var bytes := EncodeInt(value, width, endian);
    for i := 0 to width
      invariant forall k :: 0 <= k < buf.Length ==>
                              buf[k] == if offset <= k < offset + i then bytes[k - offset] else old(buf[k])
    {
      buf[offset + i] := bytes[i];
    }
    assert buf[..] == Overwrite(old(buf[..]), offset, bytes);
    return Ok(());
  }

  // ----- Several fields -----

  predicate WidthValid(width: nat) { width in {1, 2, 4, 8} }

  predicate RangeFits(offset: nat, width: nat, len: nat) { offset + width <= len }

  datatype Span = Span(start: nat, count: nat)

  predicate Apart(a: Span, b: Span) { !(a.start < b.start + b.count && b.start < a.start + a.count) }

  predicate RangesDisjoint(ranges: seq<Span>) {
    && (forall i :: 0 <= i < |ranges| ==> ranges[i].start + ranges[i].count <= MAX_U32)
    && forall i, j :: 0 <= i < j < |ranges| ==> Apart(ranges[i], ranges[j])
  }

  function SpanOf(f: IntegerLayout): Span { Span(f.offset, f.width) }

  function Spans(fields: seq<IntegerLayout>): (s: seq<Span>)
    ensures |s| == |fields|
  {
    seq(|fields|, i requires 0 <= i < |fields| => SpanOf(fields[i]))
  }

  /** No byte of any field at `base`. */
  predicate Outside(base: nat, fields: seq<IntegerLayout>, at: nat) {
    forall i :: 0 <= i < |fields| ==>
                  !(base + fields[i].offset <= at < base + fields[i].offset + fields[i].width)
  }

  /** Eight bytes hold any value; layouts narrow this further where they are validated. */
  predicate WidthsFit(fields: seq<IntegerLayout>) {
    forall i :: 0 <= i < |fields| ==> fields[i].width <= 8
  }

  function PutAll(buf: seq<byte>, base: nat, fields: seq<IntegerLayout>, values: seq<nat>): (r: Result<seq<byte>>)
    requires |fields| == |values| && WidthsFit(fields)
    ensures r.Ok? ==> |r.value| == |buf|
    ensures r.Ok? ==> forall at :: 0 <= at < |buf| && Outside(base, fields, at) ==> r.value[at] == buf[at]
    decreases |fields|
  {
    if fields == [] then Ok(buf)
    else
      var f := fields[0];
      var next :- PutInteger(buf, base + f.offset, f.width, f.endian, values[0]);
      assert forall at :: Outside(base, fields, at) ==> Outside(base, fields[1..], at);
      PutAll(next, base, fields[1..], values[1..])
  }

  function GetAll(buf: seq<byte>, base: nat, fields: seq<IntegerLayout>): (r: Result<seq<nat>>)
    requires WidthsFit(fields)
    ensures r.Ok? ==> |r.value| == |fields|
  {
    if fields == [] then Ok([])
    else
      var f := fields[0];
      var value :- GetInteger(buf, base + f.offset, f.width, f.endian);
      var rest :- GetAll(buf, base, fields[1..]);
      Ok([value] + rest)
  }

  lemma GetFrame(a: seq<byte>, b: seq<byte>, offset: nat, width: nat, endian: Endian)
    requires width <= 8 && |a| == |b|
    requires forall at :: offset <= at < offset + width && at < |a| ==> a[at] == b[at]
    ensures GetInteger(a, offset, width, endian) == GetInteger(b, offset, width, endian)
  {
    if offset + width <= |a| {
      assert a[offset..offset + width] == b[offset..offset + width];
    }
  }

  /** Reading several fields depends on their bytes only. */
  lemma {:induction false} GetAllFrame(a: seq<byte>, b: seq<byte>, base: nat, fields: seq<IntegerLayout>)
    requires WidthsFit(fields) && |a| == |b|
    requires forall at :: 0 <= at < |a| && !Outside(base, fields, at) ==> a[at] == b[at]
    ensures GetAll(a, base, fields) == GetAll(b, base, fields)
  {
    if fields != [] {
      var f := fields[0];
      assert forall at :: base + f.offset <= at < base + f.offset + f.width ==> !Outside(base, fields, at);
      GetFrame(a, b, base + f.offset, f.width, f.endian);
      assert forall at :: !Outside(base, fields[1..], at) ==> !Outside(base, fields, at);
      GetAllFrame(a, b, base, fields[1..]);
    }
  }

  lemma FirstIsOutside(base: nat, fields: seq<IntegerLayout>, at: nat)
    requires fields != [] && RangesDisjoint(Spans(fields))
    requires base + fields[0].offset <= at < base + fields[0].offset + fields[0].width
    ensures Outside(base, fields[1..], at)
  {
    forall i | 0 <= i < |fields[1..]|
      ensures !(base + fields[1..][i].offset <= at < base + fields[1..][i].offset + fields[1..][i].width)
    {
      assert Apart(Spans(fields)[0], Spans(fields)[i + 1]);
    }
  }

  lemma FewerDisjoint(fields: seq<IntegerLayout>)
    requires fields != [] && RangesDisjoint(Spans(fields))
    ensures RangesDisjoint(Spans(fields[1..]))
  {
    assert Spans(fields[1..]) == Spans(fields)[1..];
  }

  /** Disjoint fields do not clobber each other: each reads back as its own value. */
  lemma {:induction false} GetAllAfterPutAll(buf: seq<byte>, base: nat, fields: seq<IntegerLayout>, values: seq<nat>)
    requires |fields| == |values| && WidthsFit(fields) && RangesDisjoint(Spans(fields))
    requires forall i :: 0 <= i < |values| ==> values[i] < 0x1_0000_0000_0000_0000
    requires PutAll(buf, base, fields, values).Ok?
    ensures GetAll(PutAll(buf, base, fields, values).value, base, fields) == Ok(values)
    decreases |fields|
  {
    hide Overwrite, EncodeInt, DecodeInt, RangesDisjoint, Outside;
    if fields != [] {
      var f := fields[0];
      var next := PutInteger(buf, base + f.offset, f.width, f.endian, values[0]).value;
      var done := PutAll(next, base, fields[1..], values[1..]).value;
      FewerDisjoint(fields);
      GetAllAfterPutAll(next, base, fields[1..], values[1..]);
      GetAfterPut(buf, base + f.offset, f.width, f.endian, values[0]);
      forall at | base + f.offset <= at < base + f.offset + f.width
        ensures Outside(base, fields[1..], at)
      {
        FirstIsOutside(base, fields, at);
      }
      GetFrame(next, done, base + f.offset, f.width, f.endian);
      assert values == [values[0]] + values[1..];
    }
  }

  /** Reading several fields reads each of them. */
  lemma {:induction false} GetAllReadsEach(buf: seq<byte>, base: nat, fields: seq<IntegerLayout>, i: nat)
    requires WidthsFit(fields) && GetAll(buf, base, fields).Ok? && i < |fields|
    ensures GetInteger(buf, base + fields[i].offset, fields[i].width, fields[i].endian)
            == Ok(GetAll(buf, base, fields).value[i])
  {
    hide GetInteger;
    if i > 0 {
      GetAllReadsEach(buf, base, fields[1..], i - 1);
    }
  }

  /** Putting back what several fields hold changes nothing. */
  lemma {:induction false} PutAllAfterGetAll(buf: seq<byte>, base: nat, fields: seq<IntegerLayout>)
    requires WidthsFit(fields) && GetAll(buf, base, fields).Ok?
    ensures PutAll(buf, base, fields, GetAll(buf, base, fields).value) == Ok(buf)
  {
    if fields != [] {
      var f := fields[0];
      PutAfterGet(buf, base + f.offset, f.width, f.endian);
      PutAllAfterGetAll(buf, base, fields[1..]);
      assert GetAll(buf, base, fields).value[1..] == GetAll(buf, base, fields[1..]).value;
    }
  }

  predicate FitsIn(value: nat, width: nat) { width >= 8 || value < Pow256(width) }

  lemma PutSucceedsIff(buf: seq<byte>, offset: nat, width: nat, endian: Endian, value: nat)
    requires width <= 8 && offset + width <= |buf|
    ensures PutInteger(buf, offset, width, endian, value).Ok? <==> FitsIn(value, width)
  {
  }

  predicate FieldsWithin(fields: seq<IntegerLayout>, len: nat) {
    forall i :: 0 <= i < |fields| ==> RangeFits(fields[i].offset, fields[i].width, len)
  }

  lemma {:induction false} PutAllSucceedsIff(
    buf: seq<byte>, base: nat, fields: seq<IntegerLayout>, values: seq<nat>, len: nat)
    requires |fields| == |values| && WidthsFit(fields) && FieldsWithin(fields, len) && base + len <= |buf|
    ensures PutAll(buf, base, fields, values).Ok?
            <==> forall i :: 0 <= i < |fields| ==> FitsIn(values[i], fields[i].width)
    decreases |fields|
  {
    hide Overwrite, EncodeInt, FitsIn;
    if fields != [] {
      var f := fields[0];
      assert FitsIn(values[0], f.width) <==> PutInteger(buf, base + f.offset, f.width, f.endian, values[0]).Ok? by {
        PutSucceedsIff(buf, base + f.offset, f.width, f.endian, values[0]);
      }
      if FitsIn(values[0], f.width) {
        var next := PutInteger(buf, base + f.offset, f.width, f.endian, values[0]).value;
        PutAllSucceedsIff(next, base, fields[1..], values[1..], len);
        assert forall i :: 0 < i < |fields| ==> fields[i] == fields[1..][i - 1] && values[i] == values[1..][i - 1];
      }
    }
  }

  // ----- Block addresses -----

  function Fields(a: AddressLayout): seq<IntegerLayout> {
    match a
    case Flat(field) => [field]
    case Coordinates(channel, chip, lun, block) => [channel, chip, lun, block]
    case CoordinatesWithPlane(channel, chip, lun, plane, blockInPlane) => [channel, chip, lun, plane, blockInPlane]
  }

  function Values(a: AddressLayout, c: Coordinate, g: NandGeometry): (v: seq<nat>)
    requires g.HasPlanes()
    ensures |v| == |Fields(a)|
  {
    match a
    case Flat(_) => [c.flat]
    case Coordinates(_, _, _, _) => [c.channel, c.chip, c.lun, c.block]
    case CoordinatesWithPlane(_, _, _, _, _) => [c.channel, c.chip, c.lun, c.plane, Quotient(c.block, g.planesPerLun)]
  }

  predicate AddressLayoutValid(a: AddressLayout, len: nat) {
    && (forall i :: 0 <= i < |Fields(a)| ==>
                      WidthValid(Fields(a)[i].width) && RangeFits(Fields(a)[i].offset, Fields(a)[i].width, len))
    && RangesDisjoint(Spans(Fields(a)))
  }

  function EncodeBlockAddress(
    buf: seq<byte>, base: nat, a: AddressLayout, flat: nat, g: NandGeometry): Result<seq<byte>>
    requires g.HasPlanes() && WidthsFit(Fields(a))
  {
    var c :- CoordinateOf(flat, g);
    if a.CoordinatesWithPlane? && g.blocksPerLun % g.planesPerLun != 0 then Err(Invalid)
    else PutAll(buf, base, Fields(a), Values(a, c, g))
  }

  /** Write an address field by field; a refused field leaves the ones before it written. */
  method WriteBlockAddress(buf: array<byte>, base: nat, a: AddressLayout, flat: nat, g: NandGeometry)
    returns (r: Result<()>)
    requires g.HasPlanes() && WidthsFit(Fields(a))
    modifies buf
    ensures match EncodeBlockAddress(old(buf[..]), base, a, flat, g)
            case Ok(after) => r == Ok(()) && buf[..] == after
            case Err(e) => r == Err(e)
  {
    hide PutInteger, CoordinateOf, Fields, Values;
    var c :- CoordinateOf(flat, g);
    if a.CoordinatesWithPlane? && g.blocksPerLun % g.planesPerLun != 0 {
      return Err(Invalid);
    }
    var fields, values := Fields(a), Values(a, c, g);
    for i := 0 to |fields|
      invariant PutAll(old(buf[..]), base, fields, values) == PutAll(buf[..], base, fields[i..], values[i..])
    {
      var f := fields[i];
      assert fields[i..][0] == f && fields[i..][1..] == fields[i + 1..] && values[i..][1..] == values[i + 1..];
      var put := WriteInteger(buf, base + f.offset, f.width, f.endian, values[i]);
      if put.Err? {
        return put;
      }
    }
    return Ok(());
  }

  function CheckedFlatten(channel: nat, chip: nat, lun: nat, block: nat, g: NandGeometry): Result<nat> {
    var chips :- CheckedMul(channel, g.chipsPerChannel);
    var luns :- CheckedMul(chips + chip, g.lunsPerChip);
    var blocks :- CheckedMul(luns + lun, g.blocksPerLun);
    if blocks + block < 0x1_0000_0000_0000_0000 then Ok(blocks + block) else Err(Invalid)
  }

  function DecodeBlockAddress(buf: seq<byte>, base: nat, a: AddressLayout, g: NandGeometry): Result<nat>
    requires g.HasPlanes() && WidthsFit(Fields(a))
  {
    var v :- GetAll(buf, base, Fields(a));
    match a
    case Flat(_) => Ok(v[0])
    case Coordinates(_, _, _, _) =>
      if !InRange(v[0], v[1], v[2], v[3], g) then Err(Invalid) else CheckedFlatten(v[0], v[1], v[2], v[3], g)
    case CoordinatesWithPlane(_, _, _, _, _) =>
      if g.blocksPerLun % g.planesPerLun != 0 || !InRange(v[0], v[1], v[2], 0, g)
         || v[3] >= g.planesPerLun || v[4] >= g.blocksPerLun / g.planesPerLun
      then Err(Invalid)
      else CheckedFlatten(v[0], v[1], v[2], v[4] * g.planesPerLun + v[3], g)
  }

  lemma CheckedProduct(a: nat, m: nat, product: nat)
    requires m >= 1 && product == a * m && product < 0x1_0000_0000_0000_0000
    ensures CheckedMul(a, m) == Ok(product) && a <= product
  {
    Grows(a, m);
  }

  lemma CheckedSteps(channel: nat, chip: nat, lun: nat, block: nat, g: NandGeometry, chips: nat, luns: nat, blocks: nat)
    requires CheckedMul(channel, g.chipsPerChannel) == Ok(chips)
    requires CheckedMul(chips + chip, g.lunsPerChip) == Ok(luns)
    requires CheckedMul(luns + lun, g.blocksPerLun) == Ok(blocks) && blocks + block < 0x1_0000_0000_0000_0000
    ensures CheckedFlatten(channel, chip, lun, block, g) == Ok(blocks + block)
  {
    hide CheckedMul;
  }

  lemma FlattenSteps(channel: nat, chip: nat, lun: nat, block: nat, g: NandGeometry)
    returns (chips: nat, luns: nat, blocks: nat)
    ensures chips == channel * g.chipsPerChannel && luns == (chips + chip) * g.lunsPerChip
    ensures blocks == (luns + lun) * g.blocksPerLun && Flatten(channel, chip, lun, block, g) == blocks + block
  {
    chips := channel * g.chipsPerChannel;
    luns := (chips + chip) * g.lunsPerChip;
    blocks := (luns + lun) * g.blocksPerLun;
  }

  lemma CheckedFlattenFits(channel: nat, chip: nat, lun: nat, block: nat, g: NandGeometry)
    requires g.HasPlanes() && InRange(channel, chip, lun, block, g) && TotalBlocks(g).Ok?
    ensures CheckedFlatten(channel, chip, lun, block, g) == Ok(Flatten(channel, chip, lun, block, g))
  {
    hide CoordinateOf, TotalBlocks, Flatten, CheckedMul, Peel, CheckedFlatten;
    FlattenedHasCoordinate(channel, chip, lun, block, g);
    var chips, luns, blocks := FlattenSteps(channel, chip, lun, block, g);
    CheckedProduct(luns + lun, g.blocksPerLun, blocks);
    CheckedProduct(chips + chip, g.lunsPerChip, luns);
    CheckedProduct(channel, g.chipsPerChannel, chips);
    CheckedSteps(channel, chip, lun, block, g, chips, luns, blocks);
  }

  /** Plane and block-in-plane of a block, and back. */
  lemma PlaneSplit(block: nat, planes: nat, blocks: nat)
    requires planes > 0 && blocks % planes == 0 && block < blocks
    ensures Quotient(block, planes) * planes + block % planes == block
    ensures Quotient(block, planes) < blocks / planes
  {
    assert blocks == (blocks / planes) * planes;
    QuotientBound(block, blocks / planes, planes);
  }

  lemma PlaneJoin(plane: nat, blockInPlane: nat, planes: nat, blocks: nat)
    requires plane < planes && blocks % planes == 0 && blockInPlane < blocks / planes
    ensures var block := blockInPlane * planes + plane;
            block < blocks && block % planes == plane && Quotient(block, planes) == blockInPlane
  {
    assert blocks == (blocks / planes) * planes;
    DigitBound(blockInPlane, blocks / planes, plane, planes);
    DivModUnique(blockInPlane, planes, plane);
  }

  /** Decoding an encoded block gives the block back, under every address layout. */
  lemma DecodeAfterEncode(buf: seq<byte>, base: nat, a: AddressLayout, flat: nat, g: NandGeometry, stride: nat)
    requires g.HasPlanes() && AddressLayoutValid(a, stride) && EncodeBlockAddress(buf, base, a, flat, g).Ok?
    ensures DecodeBlockAddress(EncodeBlockAddress(buf, base, a, flat, g).value, base, a, g) == Ok(flat)
  {
    hide GetAll, PutAll, TotalBlocks, CheckedFlatten, Peel, Flatten;
    var c := CoordinateOf(flat, g).value;
    var values := Values(a, c, g);
    CoordinateFlattens(flat, g);
    if a.CoordinatesWithPlane? {
      PlaneSplit(c.block, g.planesPerLun, g.blocksPerLun);
    }
    GetAllAfterPutAll(buf, base, Fields(a), values);
    CheckedFlattenFits(c.channel, c.chip, c.lun, c.block, g);
  }

  /** Encoding what an in-range entry decodes to restores the entry's fields. */
  lemma EncodeAfterDecode(buf: seq<byte>, base: nat, a: AddressLayout, g: NandGeometry)
    requires g.HasPlanes() && WidthsFit(Fields(a)) && TotalBlocks(g).Ok?
    requires DecodeBlockAddress(buf, base, a, g).Ok?
    requires a.Flat? ==> DecodeBlockAddress(buf, base, a, g).value < TotalBlocks(g).value
    ensures EncodeBlockAddress(buf, base, a, DecodeBlockAddress(buf, base, a, g).value, g) == Ok(buf)
  {
    hide GetAll, PutAll, TotalBlocks, CheckedFlatten, Peel, Flatten;
    var v := GetAll(buf, base, Fields(a)).value;
    var flat := DecodeBlockAddress(buf, base, a, g).value;
    PutAllAfterGetAll(buf, base, Fields(a));
    match a
    case Flat(_) =>
      CoordinateFlattens(flat, g);
      assert Values(a, CoordinateOf(flat, g).value, g) == v;
    case Coordinates(_, _, _, _) =>
      CheckedFlattenFits(v[0], v[1], v[2], v[3], g);
      FlattenedHasCoordinate(v[0], v[1], v[2], v[3], g);
      assert Values(a, CoordinateOf(flat, g).value, g) == v;
    case CoordinatesWithPlane(_, _, _, _, _) =>
      PlaneJoin(v[3], v[4], g.planesPerLun, g.blocksPerLun);
      var block := v[4] * g.planesPerLun + v[3];
      CheckedFlattenFits(v[0], v[1], v[2], block, g);
      FlattenedHasCoordinate(v[0], v[1], v[2], block, g);
      assert Values(a, CoordinateOf(flat, g).value, g) == v;
  }

  // ----- What an entry says -----

  function FieldAt(buf: seq<byte>, base: nat, f: IntegerLayout): Result<nat> {
    if f.width > 8 then Err(Invalid) else GetInteger(buf, base + f.offset, f.width, f.endian)
  }

  /** The block that a plane and a block in it are. */
  function Joined(blockInPlane: nat, plane: nat, planes: nat): nat { blockInPlane * planes + plane }

  /** The named fields of an entry, each in its own role, give the block. */
  predicate EntryNames(buf: seq<byte>, base: nat, a: AddressLayout, flat: nat, g: NandGeometry) {
    match a
    case Flat(field) => FieldAt(buf, base, field) == Ok(flat)
    case Coordinates(channel, chip, lun, block) =>
      var atChannel, atChip := FieldAt(buf, base, channel), FieldAt(buf, base, chip);
      var atLun, atBlock := FieldAt(buf, base, lun), FieldAt(buf, base, block);
      && atChannel.Ok? && atChip.Ok? && atLun.Ok? && atBlock.Ok?
      && InRange(atChannel.value, atChip.value, atLun.value, atBlock.value, g)
      && Flatten(atChannel.value, atChip.value, atLun.value, atBlock.value, g) == flat
    case CoordinatesWithPlane(channel, chip, lun, plane, blockInPlane) =>
      var atChannel, atChip := FieldAt(buf, base, channel), FieldAt(buf, base, chip);
      var atLun, atPlane := FieldAt(buf, base, lun), FieldAt(buf, base, plane);
      var atBlock := FieldAt(buf, base, blockInPlane);
      && atChannel.Ok? && atChip.Ok? && atLun.Ok? && atPlane.Ok? && atBlock.Ok?
      && g.HasPlanes() && g.blocksPerLun % g.planesPerLun == 0 && atPlane.value < g.planesPerLun
      && var block := Joined(atBlock.value, atPlane.value, g.planesPerLun);
         && InRange(atChannel.value, atChip.value, atLun.value, block, g)
         && Flatten(atChannel.value, atChip.value, atLun.value, block, g) == flat
  }

  lemma {:induction false} GetAllIff(buf: seq<byte>, base: nat, fields: seq<IntegerLayout>)
    requires WidthsFit(fields)
    ensures GetAll(buf, base, fields).Ok? <==> forall i :: 0 <= i < |fields| ==> FieldAt(buf, base, fields[i]).Ok?
    ensures GetAll(buf, base, fields).Ok? ==>
              && |GetAll(buf, base, fields).value| == |fields|
              && forall i :: 0 <= i < |fields| ==>
                               FieldAt(buf, base, fields[i]) == Ok(GetAll(buf, base, fields).value[i])
  {
    hide GetInteger;
    if fields != [] {
      GetAllIff(buf, base, fields[1..]);
      assert forall i :: 0 < i < |fields| ==> fields[i] == fields[1..][i - 1];
    }
  }

  lemma PlaneInRange(plane: nat, blockInPlane: nat, planes: nat, blocks: nat)
    requires plane < planes && blocks % planes == 0
    ensures blockInPlane < blocks / planes <==> blockInPlane * planes + plane < blocks
  {
    if blockInPlane < blocks / planes {
      PlaneJoin(plane, blockInPlane, planes, blocks);
    } else {
      assert blocks == (blocks / planes) * planes;
      Distribute(blockInPlane, blocks / planes, planes);
    }
  }

  /** An entry decodes to a block exactly when its named fields give that block. */
  lemma DecodesIffNamed(buf: seq<byte>, base: nat, a: AddressLayout, flat: nat, g: NandGeometry)
    requires g.HasPlanes() && WidthsFit(Fields(a)) && TotalBlocks(g).Ok?
    ensures DecodeBlockAddress(buf, base, a, g) == Ok(flat) <==> EntryNames(buf, base, a, flat, g)
  {
    hide GetAll, GetInteger, TotalBlocks, CheckedFlatten, Flatten;
    var fields := Fields(a);
    GetAllIff(buf, base, fields);
    if GetAll(buf, base, fields).Ok? {
      var v := GetAll(buf, base, fields).value;
      match a
      case Flat(_) =>
      case Coordinates(_, _, _, _) =>
        if InRange(v[0], v[1], v[2], v[3], g) {
          CheckedFlattenFits(v[0], v[1], v[2], v[3], g);
        }
      case CoordinatesWithPlane(_, _, _, _, _) =>
        var block := v[4] * g.planesPerLun + v[3];
        if v[3] < g.planesPerLun && g.blocksPerLun % g.planesPerLun == 0 {
          PlaneInRange(v[3], v[4], g.planesPerLun, g.blocksPerLun);
          if InRange(v[0], v[1], v[2], block, g) {
            CheckedFlattenFits(v[0], v[1], v[2], block, g);
          }
        }
    } else {
      assert exists i :: 0 <= i < |fields| && FieldAt(buf, base, fields[i]).Err?;
    }
  }
}
