/** An accepted command can always be built, and what is built says exactly what the bindings say. */
module CommandTheorems {
  import opened Wrappers
  import opened Bytes
  import opened Geometry
  import opened FieldCodec
  import opened CommandBuilder
  import opened Responses
  import opened Claims

  /** A context whose address is the coordinate of its block and whose other values are in range. */
  predicate InRange(ctx: Context, cmd: Command, g: NandGeometry, pages: u32)
    requires g.HasPlanes() && TotalBlocks(g).Ok?
  {
    && CoordinateOf(ctx.flatBlock, g)
       == Ok(Coordinate(ctx.channel, ctx.chip, ctx.lun, ctx.plane, ctx.block, ctx.flatBlock))
    && (ctx.page < pages || ctx.page == 0)
    && ctx.payloadBytes <= cmd.transferBytes
    && ctx.userBlocks <= TotalBlocks(g).value && ctx.spareBlocks <= TotalBlocks(g).value
  }

  /** The bindings validation does not try: those of the generation. */
  predicate GenerationEncodes(bindings: seq<Binding>, generation: u64) {
    forall i :: 0 <= i < |bindings| && bindings[i].source == Generation ==> Encodes(bindings[i], generation)
  }

  lemma ValueIsSwept(ctx: Context, s: Source, cmd: Command, g: NandGeometry, pages: u32)
    requires g.HasPlanes() && TotalBlocks(g).Ok? && InRange(ctx, cmd, g, pages) && s != Generation
    ensures Maximum(s, g, pages, TotalBlocks(g).value, cmd.transferBytes).Some?
    ensures ctx.Value(s) <= Maximum(s, g, pages, TotalBlocks(g).value, cmd.transferBytes).value
  {
    hide TotalBlocks, Peel, Flatten;
    CoordinateFlattens(ctx.flatBlock, g);
  }

  lemma {:induction false} PutBindingsSucceedIff(buf: seq<byte>, bindings: seq<Binding>, ctx: Context)
    requires WidthsFit(Layouts(bindings)) && FieldsWithin(Layouts(bindings), |buf|)
    ensures PutBindings(buf, bindings, ctx).Ok?
            <==> forall i :: 0 <= i < |bindings| ==> Encodes(bindings[i], ctx.Value(bindings[i].source))
    decreases |bindings|
  {
    hide ApplyAll, Overwrite, EncodeInt, FitsIn;
    if bindings != [] {
      var f := bindings[0].field;
      assert f == Layouts(bindings)[0] && Layouts(bindings[1..]) == Layouts(bindings)[1..];
      assert RangeFits(f.offset, f.width, |buf|);
      if BoundValue(bindings[0], ctx).Ok? {
        var value := BoundValue(bindings[0], ctx).value;
        PutSucceedsIff(buf, f.offset, f.width, f.endian, value);
        if FitsIn(value, f.width) {
          var next := PutInteger(buf, f.offset, f.width, f.endian, value).value;
          assert FieldsWithin(Layouts(bindings[1..]), |next|);
          PutBindingsSucceedIff(next, bindings[1..], ctx);
          assert forall i :: 0 < i < |bindings| ==> bindings[i] == bindings[1..][i - 1];
        }
      }
    }
  }

  /** Every in-range context encodes in every swept binding, so only generation bindings can still fail. */
  lemma SweptBindingsEncode(bindings: seq<Binding>, ctx: Context, cmd: Command, g: NandGeometry, pages: u32)
    requires g.HasPlanes() && TotalBlocks(g).Ok? && InRange(ctx, cmd, g, pages)
    requires SweepsPass(bindings, cmd, g, pages, TotalBlocks(g).value)
    ensures (forall i :: 0 <= i < |bindings| ==> Encodes(bindings[i], ctx.Value(bindings[i].source)))
            <==> GenerationEncodes(bindings, ctx.generation)
  {
    hide Encodes, TotalBlocks, InRange, Maximum;
    forall i | 0 <= i < |bindings| && bindings[i].source != Generation
      ensures Encodes(bindings[i], ctx.Value(bindings[i].source))
    {
      ValueIsSwept(ctx, bindings[i].source, cmd, g, pages);
      assert SweepPasses(bindings[i], Maximum(bindings[i].source, g, pages, TotalBlocks(g).value, cmd.transferBytes));
    }
  }

  lemma AcceptedWidths(cmd: Command, transport: Transport, g: NandGeometry, pages: u32)
    requires g.HasPlanes() && CommandAccepted(cmd, transport, g, pages)
    ensures WidthsFit(Layouts(cmd.fields)) && FieldsWithin(Layouts(cmd.fields), |cmd.cdb|)
  {
    hide RangesDisjoint, SweepsPass, PayloadValid, PayloadBuildsAt, TotalBlocks, OperationsValid;
    forall i | 0 <= i < |cmd.fields|
      ensures Layouts(cmd.fields)[i].width <= 8
              && RangeFits(Layouts(cmd.fields)[i].offset, Layouts(cmd.fields)[i].width, |cmd.cdb|)
    {
      assert CdbBindingValid(cmd.fields[i], |cmd.cdb|);
    }
  }

  /**
   * Validator soundness for CDBs: for an accepted command and any in-range context, building succeeds exactly when the
   * generation, the one value validation does not try, encodes; without a generation binding it always succeeds.
   */
  lemma AcceptedCdbBuilds(cmd: Command, transport: Transport, ctx: Context, g: NandGeometry, pages: u32)
    requires g.HasPlanes() && CommandAccepted(cmd, transport, g, pages) && InRange(ctx, cmd, g, pages)
    ensures WidthsFit(Layouts(cmd.fields))
    ensures CdbBytes(cmd, ctx).Ok? <==> GenerationEncodes(cmd.fields, ctx.generation)
  {
    hide CdbFieldsValid, PayloadValid, PayloadBuildsAt, SweepsPass, InRange, Encodes, PutBindings;
    AcceptedWidths(cmd, transport, g, pages);
    PutBindingsSucceedIff(cmd.cdb, cmd.fields, ctx);
    SweptBindingsEncode(cmd.fields, ctx, cmd, g, pages);
  }

  /** Generations are not tried: an accepted one-byte generation field still refuses generation 256. */
  lemma GenerationIsNotSwept()
    ensures exists cmd: Command, g: NandGeometry, ctx: Context ::
              && g.HasPlanes() && CommandAccepted(cmd, UsbBot, g, 1) && InRange(ctx, cmd, g, 1) && ctx.generation == 256
              && WidthsFit(Layouts(cmd.fields)) && CdbBytes(cmd, ctx) == Err(Invalid)
  {
    var g := NandGeometry(1, 1, 1, 1, 1);
    var b := Binding(IntegerLayout(1, 1, Big), Generation, []);
    var cmd := Command(Zeros(6), NoData, 0, 1000, [b], None, ResponseRule(0, 0, [], 0, 0, []));
    var ctx := Context(0, 0, 0, 0, 0, 0, 0, 0, 256, 0, 0);
    assert TotalBlocks(g) == Ok(1);
    assert Spans(Layouts(cmd.fields)) == [Span(1, 1)];
    assert Pow256(1) == 256;
    assert BoundValue(b, ctx) == Ok(256);
    assert CommandAccepted(cmd, UsbBot, g, 1) && InRange(ctx, cmd, g, 1);
    assert CdbBytes(cmd, ctx) == Err(Invalid);
  }

  // ----- What is built -----

  /** The values the bindings store, where they are defined. */
  function BoundValues(bindings: seq<Binding>, ctx: Context): (v: seq<nat>)
    ensures |v| == |bindings|
  {
    seq(|bindings|, i requires 0 <= i < |bindings| =>
      match BoundValue(bindings[i], ctx) case Ok(x) => x case Err(_) => 0)
  }

  lemma {:induction false} PutBindingsIsPutAll(buf: seq<byte>, bindings: seq<Binding>, ctx: Context)
    requires WidthsFit(Layouts(bindings)) && PutBindings(buf, bindings, ctx).Ok?
    ensures PutBindings(buf, bindings, ctx) == PutAll(buf, 0, Layouts(bindings), BoundValues(bindings, ctx))
    ensures forall i :: 0 <= i < |bindings| ==> BoundValue(bindings[i], ctx) == Ok(BoundValues(bindings, ctx)[i])
    decreases |bindings|
  {
    hide PutInteger, BoundValue;
    if bindings != [] {
      var f, value := bindings[0].field, BoundValue(bindings[0], ctx).value;
      assert f == Layouts(bindings)[0] && Layouts(bindings[1..]) == Layouts(bindings)[1..];
      assert BoundValues(bindings[1..], ctx) == BoundValues(bindings, ctx)[1..];
      var next := PutInteger(buf, f.offset, f.width, f.endian, value).value;
      PutBindingsIsPutAll(next, bindings[1..], ctx);
      assert f.offset == 0 + f.offset && BoundValues(bindings, ctx)[0] == value;
      assert forall i :: 0 < i < |bindings| ==> bindings[i] == bindings[1..][i - 1];
    }
  }

  lemma {:induction false} PutAllAppend(
    buf: seq<byte>, f1: seq<IntegerLayout>, v1: seq<nat>, f2: seq<IntegerLayout>, v2: seq<nat>)
    requires |f1| == |v1| && |f2| == |v2| && WidthsFit(f1) && WidthsFit(f2)
    requires PutAll(buf, 0, f1, v1).Ok?
    ensures PutAll(buf, 0, f1 + f2, v1 + v2) == PutAll(PutAll(buf, 0, f1, v1).value, 0, f2, v2)
    decreases |f1|
  {
    hide PutInteger;
    if f1 == [] {
      assert f1 + f2 == f2 && v1 + v2 == v2;
    } else {
      var next := PutInteger(buf, 0 + f1[0].offset, f1[0].width, f1[0].endian, v1[0]).value;
      PutAllAppend(next, f1[1..], v1[1..], f2, v2);
      assert (f1 + f2)[1..] == f1[1..] + f2 && (v1 + v2)[1..] == v1[1..] + v2;
    }
  }

  /** Disjoint fields read back each on their own, and every other byte is the template's. */
  lemma PutAllIsExact(buf: seq<byte>, fields: seq<IntegerLayout>, values: seq<nat>)
    requires |fields| == |values| && WidthsFit(fields) && RangesDisjoint(Spans(fields))
    requires forall i :: 0 <= i < |values| ==> values[i] < 0x1_0000_0000_0000_0000
    requires PutAll(buf, 0, fields, values).Ok?
    ensures var after := PutAll(buf, 0, fields, values).value;
            && |after| == |buf|
            && (forall i :: 0 <= i < |fields| ==>
                              GetInteger(after, fields[i].offset, fields[i].width, fields[i].endian) == Ok(values[i]))
            && forall at :: 0 <= at < |buf| && Outside(0, fields, at) ==> after[at] == buf[at]
  {
    hide RangesDisjoint, GetAll, GetInteger, PutInteger;
    var after := PutAll(buf, 0, fields, values).value;
    GetAllAfterPutAll(buf, 0, fields, values);
    forall i | 0 <= i < |fields|
      ensures GetInteger(after, fields[i].offset, fields[i].width, fields[i].endian) == Ok(values[i])
    {
      GetAllReadsEach(after, 0, fields, i);
    }
  }

  /**
   * A built CDB: every bound field reads back as its transformed value, every other byte and the opcode are the
   * template's.
   */
  lemma CdbSaysWhatIsBound(cmd: Command, ctx: Context)
    requires CdbFieldsValid(cmd) && WidthsFit(Layouts(cmd.fields)) && CdbBytes(cmd, ctx).Ok?
    ensures var cdb := CdbBytes(cmd, ctx).value;
            && |cdb| == |cmd.cdb|
            && (forall i :: 0 <= i < |cmd.fields| ==>
                              var f := cmd.fields[i].field;
                              GetInteger(cdb, f.offset, f.width, f.endian) == BoundValue(cmd.fields[i], ctx))
            && (forall at :: 0 <= at < |cdb| && Outside(0, Layouts(cmd.fields), at) ==> cdb[at] == cmd.cdb[at])
            && (|cdb| > 0 ==> cdb[0] == cmd.cdb[0])
  {
    hide RangesDisjoint, GetInteger, PutInteger, BoundValue, PutBindings, PutAll, OperationsValid;
    var layouts, values := Layouts(cmd.fields), BoundValues(cmd.fields, ctx);
    PutBindingsIsPutAll(cmd.cdb, cmd.fields, ctx);
    forall i | 0 <= i < |values|
      ensures values[i] < 0x1_0000_0000_0000_0000
    {
      assert BoundValue(cmd.fields[i], ctx) == Ok(values[i]);
    }
    PutAllIsExact(cmd.cdb, layouts, values);
    forall i | 0 <= i < |cmd.fields|
      ensures GetInteger(CdbBytes(cmd, ctx).value, cmd.fields[i].field.offset, cmd.fields[i].field.width,
                         cmd.fields[i].field.endian) == BoundValue(cmd.fields[i], ctx)
    {
      assert layouts[i] == cmd.fields[i].field;
    }
    if |cmd.cdb| > 0 {
      OpcodeUnbound(cmd);
    }
  }

  lemma OpcodeUnbound(cmd: Command)
    requires CdbFieldsValid(cmd)
    ensures Outside(0, Layouts(cmd.fields), 0)
  {
    hide RangesDisjoint;
    forall i | 0 <= i < |cmd.fields|
      ensures Layouts(cmd.fields)[i].offset > 0
    {
      assert CdbBindingValid(cmd.fields[i], |cmd.cdb|);
    }
  }

  // ----- Context payloads -----

  lemma ConstantsFit(cmd: Command, p: ContextPayload)
    requires PayloadValid(cmd, p)
    ensures PayloadWidthsFit(p)
    ensures FieldsWithin(ConstantLayouts(p.constants), p.recordBytes) && FieldsWithin(Layouts(p.fields), p.recordBytes)
    ensures PutAll(Filled(p.fill, p.recordBytes), 0, ConstantLayouts(p.constants), ConstantValues(p.constants)).Ok?
  {
    hide RangesDisjoint, FitsIn, PutAll, OperationsValid;
    var blank, layouts, values := Filled(p.fill, p.recordBytes), ConstantLayouts(p.constants),
        ConstantValues(p.constants);
    PutAllSucceedsIff(blank, 0, layouts, values, p.recordBytes);
  }

  /** With what validation has tried, only the generation can make building a payload fail. */
  lemma PayloadBuildsIff(cmd: Command, p: ContextPayload, ctx: Context, g: NandGeometry, pages: u32)
    requires g.HasPlanes() && TotalBlocks(g).Ok? && InRange(ctx, cmd, g, pages)
    requires cmd.source == Some(FromContext(p)) && PayloadValid(cmd, p) && PayloadWidthsFit(p)
    requires cmd.transferBytes <= MAX_COMMAND_TRANSFER && SweepsPass(p.fields, cmd, g, pages, TotalBlocks(g).value)
    ensures ContextPayloadBytes(cmd, ctx).Ok? <==> GenerationEncodes(p.fields, ctx.generation)
  {
    hide SweepsPass, InRange, Encodes, PutBindings, PutAll, RangesDisjoint, Repeated, TotalBlocks;
    ConstantsFit(cmd, p);
    var fixed := PutAll(Filled(p.fill, p.recordBytes), 0, ConstantLayouts(p.constants),
        ConstantValues(p.constants)).value;
    PutAllKeepsSize(Filled(p.fill, p.recordBytes), ConstantLayouts(p.constants), ConstantValues(p.constants));
    PutBindingsSucceedIff(fixed, p.fields, ctx);
    SweptBindingsEncode(p.fields, ctx, cmd, g, pages);
  }

  /** Validator soundness for context payloads: again only the generation can make building fail. */
  lemma AcceptedPayloadBuilds(
    cmd: Command, p: ContextPayload, transport: Transport, ctx: Context, g: NandGeometry, pages: u32)
    requires g.HasPlanes() && CommandAccepted(cmd, transport, g, pages) && InRange(ctx, cmd, g, pages)
    requires cmd.source == Some(FromContext(p))
    ensures PayloadWidthsFit(p)
    ensures ContextPayloadBytes(cmd, ctx).Ok? <==> GenerationEncodes(p.fields, ctx.generation)
  {
    hide CdbFieldsValid, PayloadBuildsAt, SweepsPass, InRange, PayloadValid, TotalBlocks, ContextPayloadBytes,
      GenerationEncodes;
    PayloadBuildsIff(cmd, p, ctx, g, pages);
  }

  lemma PutAllKeepsSize(buf: seq<byte>, fields: seq<IntegerLayout>, values: seq<nat>)
    requires |fields| == |values| && WidthsFit(fields) && PutAll(buf, 0, fields, values).Ok?
    ensures |PutAll(buf, 0, fields, values).value| == |buf|
  {
  }

  lemma {:induction false} RepeatedCopies(record: seq<byte>, n: nat, k: nat)
    requires k < n
    ensures |Repeated(record, n)| == n * |record| && k * |record| + |record| <= n * |record|
    ensures Repeated(record, n)[k * |record|..k * |record| + |record|] == record
  {
    RepeatedSize(record, n - 1);
    Distribute(n, n - 1, |record|);
    if k < n - 1 {
      RepeatedCopies(record, n - 1, k);
    }
  }

  lemma {:induction false} RepeatedSize(record: seq<byte>, n: nat)
    ensures |Repeated(record, n)| == n * |record|
  {
    if n > 0 {
      RepeatedSize(record, n - 1);
      Distribute(n, n - 1, |record|);
    }
  }

  /** What one record says: its constants, its bound values, and fill everywhere else. */
  predicate RecordSays(record: seq<byte>, p: ContextPayload, ctx: Context)
    requires PayloadWidthsFit(p)
  {
    && |record| == p.recordBytes
    && (forall i :: 0 <= i < |p.constants| ==>
                      FieldHolds(record, p.constants[i].field, p.constants[i].value))
    && (forall i :: 0 <= i < |p.fields| ==>
                      BoundValue(p.fields[i], ctx).Ok?
                      && FieldHolds(record, p.fields[i].field, BoundValue(p.fields[i], ctx).value))
    && forall at :: 0 <= at < |record| && Outside(0, PayloadLayouts(p), at) ==> record[at] == p.fill
  }

  predicate FieldHolds(buf: seq<byte>, f: IntegerLayout, value: nat) {
    f.width <= 8 && GetInteger(buf, f.offset, f.width, f.endian) == Ok(value)
  }

  lemma RecordIsExact(cmd: Command, p: ContextPayload, ctx: Context)
    requires PayloadValid(cmd, p) && PayloadWidthsFit(p) && Record(p, ctx).Ok?
    ensures RecordSays(Record(p, ctx).value, p, ctx)
  {
    hide RangesDisjoint, GetInteger, PutInteger, BoundValue, PutBindings, PutAll, OperationsValid, FitsIn, Outside;
    var blank := Filled(p.fill, p.recordBytes);
    var f1, v1 := ConstantLayouts(p.constants), ConstantValues(p.constants);
    var f2, v2 := Layouts(p.fields), BoundValues(p.fields, ctx);
    var fixed := PutAll(blank, 0, f1, v1).value;
    PutBindingsIsPutAll(fixed, p.fields, ctx);
    PutAllAppend(blank, f1, v1, f2, v2);
    var layouts, values := f1 + f2, v1 + v2;
    forall i | 0 <= i < |values|
      ensures values[i] < 0x1_0000_0000_0000_0000
    {
      if i >= |v1| {
        assert BoundValue(p.fields[i - |v1|], ctx) == Ok(values[i]);
      } else {
        assert values[i] == p.constants[i].value;
      }
    }
    PutAllIsExact(blank, layouts, values);
    forall i | 0 <= i < |p.constants|
      ensures FieldHolds(Record(p, ctx).value, p.constants[i].field, p.constants[i].value)
    {
      assert layouts[i] == p.constants[i].field && values[i] == p.constants[i].value;
    }
    forall i | 0 <= i < |p.fields|
      ensures BoundValue(p.fields[i], ctx).Ok?
              && FieldHolds(Record(p, ctx).value, p.fields[i].field, BoundValue(p.fields[i], ctx).value)
    {
      assert layouts[|f1| + i] == p.fields[i].field && values[|f1| + i] == v2[i];
    }
  }

  function Times(n: nat, size: nat): nat { n * size }

  /** The record numbered `k` of a payload, if it lies in it. */
  function RecordAt(payload: seq<byte>, k: nat, size: nat): seq<byte> {
    var start := Times(k, size);
    if start + size <= |payload| then payload[start..start + size] else []
  }

  /** A built payload fills the transfer with records, and every one of them says what the bindings say. */
  lemma PayloadSaysWhatIsBound(cmd: Command, p: ContextPayload, ctx: Context, k: nat)
    requires cmd.source == Some(FromContext(p)) && PayloadValid(cmd, p) && PayloadWidthsFit(p)
    requires ContextPayloadBytes(cmd, ctx).Ok? && k < p.copies
    ensures var payload := ContextPayloadBytes(cmd, ctx).value;
            && |payload| == cmd.transferBytes
            && k * p.recordBytes + p.recordBytes <= |payload|
            && RecordSays(RecordAt(payload, k, p.recordBytes), p, ctx)
  {
    hide RangesDisjoint, RecordSays, Repeated, OperationsValid, FitsIn, Record;
    var record := Record(p, ctx).value;
    RecordIsExact(cmd, p, ctx);
    RecordSize(record, p, ctx);
    RepeatedCopies(record, p.copies, k);
  }

  lemma RecordSize(record: seq<byte>, p: ContextPayload, ctx: Context)
    requires PayloadWidthsFit(p) && RecordSays(record, p, ctx)
    ensures |record| == p.recordBytes
  {
  }

  // ----- Member by member of the context -----

  /** What field `b` of a buffer holds for a runtime value: the value itself, or what its operations make of it. */
  predicate Stores(buf: seq<byte>, b: Binding, value: u64) {
    if b.operations == [] then FieldHolds(buf, b.field, value)
    else ApplyAll(value, b.operations).Ok? && FieldHolds(buf, b.field, ApplyAll(value, b.operations).value)
  }

  /** Every binding stores the member of the context that its source names. */
  predicate Carries(buf: seq<byte>, bindings: seq<Binding>, ctx: Context) {
    forall i :: 0 <= i < |bindings| ==>
      var b := bindings[i];
      && (b.source == Channel ==> Stores(buf, b, ctx.channel))
      && (b.source == Chip ==> Stores(buf, b, ctx.chip))
      && (b.source == Lun ==> Stores(buf, b, ctx.lun))
      && (b.source == Plane ==> Stores(buf, b, ctx.plane))
      && (b.source == Block ==> Stores(buf, b, ctx.block))
      && (b.source == Page ==> Stores(buf, b, ctx.page))
      && (b.source == FlatBlock ==> Stores(buf, b, ctx.flatBlock))
      && (b.source == PayloadBytes ==> Stores(buf, b, ctx.payloadBytes))
      && (b.source == Generation ==> Stores(buf, b, ctx.generation))
      && (b.source == UserBlocks ==> Stores(buf, b, ctx.userBlocks))
      && (b.source == SpareBlocks ==> Stores(buf, b, ctx.spareBlocks))
  }

  lemma BoundIsStored(buf: seq<byte>, b: Binding, ctx: Context)
    requires BoundValue(b, ctx).Ok? && FieldHolds(buf, b.field, BoundValue(b, ctx).value)
    ensures Stores(buf, b, ctx.Value(b.source))
  {
    hide FieldHolds;
  }

  lemma StoredIsCarried(buf: seq<byte>, bindings: seq<Binding>, ctx: Context)
    requires forall i :: 0 <= i < |bindings| ==> Stores(buf, bindings[i], ctx.Value(bindings[i].source))
    ensures Carries(buf, bindings, ctx)
  {
    hide Stores;
  }

  /** A built CDB carries the context: channel, chip and so on, each where the recipe binds it. */
  lemma CdbCarriesContext(cmd: Command, ctx: Context)
    requires CdbFieldsValid(cmd) && WidthsFit(Layouts(cmd.fields)) && CdbBytes(cmd, ctx).Ok?
    ensures Carries(CdbBytes(cmd, ctx).value, cmd.fields, ctx)
  {
    hide RangesDisjoint, GetInteger, BoundValue, CdbBytes, Stores, Carries, OperationsValid;
    CdbSaysWhatIsBound(cmd, ctx);
    var cdb := CdbBytes(cmd, ctx).value;
    forall i | 0 <= i < |cmd.fields|
      ensures Stores(cdb, cmd.fields[i], ctx.Value(cmd.fields[i].source))
    {
      assert CdbBindingValid(cmd.fields[i], |cmd.cdb|);
      BoundWhenBuilt(cmd, ctx, i);
      BoundIsStored(cdb, cmd.fields[i], ctx);
    }
    StoredIsCarried(cdb, cmd.fields, ctx);
  }

  lemma BoundWhenBuilt(cmd: Command, ctx: Context, i: nat)
    requires WidthsFit(Layouts(cmd.fields)) && CdbBytes(cmd, ctx).Ok? && i < |cmd.fields|
    ensures BoundValue(cmd.fields[i], ctx).Ok?
  {
    hide BoundValue, PutBindings;
    PutBindingsIsPutAll(cmd.cdb, cmd.fields, ctx);
  }

  /** So does every record of a built payload. */
  lemma PayloadCarriesContext(cmd: Command, p: ContextPayload, ctx: Context, k: nat)
    requires cmd.source == Some(FromContext(p)) && PayloadValid(cmd, p) && PayloadWidthsFit(p)
    requires ContextPayloadBytes(cmd, ctx).Ok? && k < p.copies
    ensures var payload := ContextPayloadBytes(cmd, ctx).value;
            && k * p.recordBytes + p.recordBytes <= |payload|
            && Carries(RecordAt(payload, k, p.recordBytes), p.fields, ctx)
  {
    hide PayloadValid, PayloadWidthsFit, ContextPayloadBytes, Carries;
    PayloadSaysWhatIsBound(cmd, p, ctx, k);
    var payload := ContextPayloadBytes(cmd, ctx).value;
    RecordCarries(RecordAt(payload, k, p.recordBytes), p, ctx);
  }

  lemma RecordCarries(record: seq<byte>, p: ContextPayload, ctx: Context)
    requires PayloadWidthsFit(p) && RecordSays(record, p, ctx)
    ensures Carries(record, p.fields, ctx)
  {
    hide Stores, Carries, FieldHolds, BoundValue;
    forall i | 0 <= i < |p.fields|
      ensures Stores(record, p.fields[i], ctx.Value(p.fields[i].source))
    {
      BoundIsStored(record, p.fields[i], ctx);
    }
    StoredIsCarried(record, p.fields, ctx);
  }

  /** The number that field `i` of a CDB holds. */
  function FieldOf(cdb: seq<byte>, cmd: Command, i: nat): Result<nat>
    requires i < |cmd.fields| && cmd.fields[i].field.width <= 8
  {
    var f := cmd.fields[i].field;
    GetInteger(cdb, f.offset, f.width, f.endian)
  }

  /** Binding `i` stores source `s` as it is. */
  predicate Binds(cmd: Command, i: nat, s: Source) {
    i < |cmd.fields| && cmd.fields[i].source == s && cmd.fields[i].operations == [] && cmd.fields[i].field.width <= 8
  }

  lemma PlainField(cdb: seq<byte>, cmd: Command, ctx: Context, i: nat, s: Source)
    requires Carries(cdb, cmd.fields, ctx) && Binds(cmd, i, s)
    ensures s == Channel ==> FieldOf(cdb, cmd, i) == Ok(ctx.channel)
    ensures s == Chip ==> FieldOf(cdb, cmd, i) == Ok(ctx.chip)
    ensures s == Lun ==> FieldOf(cdb, cmd, i) == Ok(ctx.lun)
    ensures s == Block ==> FieldOf(cdb, cmd, i) == Ok(ctx.block)
    ensures s == FlatBlock ==> FieldOf(cdb, cmd, i) == Ok(ctx.flatBlock)
  {
    hide GetInteger, ApplyAll;
  }

  /** A CDB that names its block both by coordinate and by flat number names one block. */
  lemma CdbNamesOneBlock(
    cmd: Command, transport: Transport, ctx: Context, g: NandGeometry, pages: u32,
    channel: nat, chip: nat, lun: nat, block: nat, flat: nat)
    requires g.HasPlanes() && CommandAccepted(cmd, transport, g, pages) && InRange(ctx, cmd, g, pages)
    requires Binds(cmd, channel, Channel) && Binds(cmd, chip, Chip) && Binds(cmd, lun, Lun)
    requires Binds(cmd, block, Block) && Binds(cmd, flat, FlatBlock)
    ensures WidthsFit(Layouts(cmd.fields))
    ensures CdbBytes(cmd, ctx).Ok? ==>
              var cdb := CdbBytes(cmd, ctx).value;
              && FieldOf(cdb, cmd, channel).Ok? && FieldOf(cdb, cmd, chip).Ok? && FieldOf(cdb, cmd, lun).Ok?
              && FieldOf(cdb, cmd, block).Ok? && FieldOf(cdb, cmd, flat).Ok?
              && Flatten(FieldOf(cdb, cmd, channel).value, FieldOf(cdb, cmd, chip).value,
                         FieldOf(cdb, cmd, lun).value, FieldOf(cdb, cmd, block).value, g)
                 == FieldOf(cdb, cmd, flat).value
  {
    hide CdbFieldsValid, PayloadValid, PayloadBuildsAt, SweepsPass, Carries, CdbBytes, Flatten, Peel, TotalBlocks,
      FieldOf, RuleValid;
    AcceptedWidths(cmd, transport, g, pages);
    if CdbBytes(cmd, ctx).Ok? {
      var cdb := CdbBytes(cmd, ctx).value;
      CdbCarriesContext(cmd, ctx);
      PlainField(cdb, cmd, ctx, channel, Channel);
      PlainField(cdb, cmd, ctx, chip, Chip);
      PlainField(cdb, cmd, ctx, lun, Lun);
      PlainField(cdb, cmd, ctx, block, Block);
      PlainField(cdb, cmd, ctx, flat, FlatBlock);
      CoordinateFlattens(ctx.flatBlock, g);
    }
  }

  // ----- Operations in order -----

  /** Operations apply from left to right: a list run after another is the two run as one, and fails where they do. */
  lemma {:induction false} OperationsInOrder(value: u64, a: seq<Operation>, b: seq<Operation>)
    ensures ApplyAll(value, []) == Ok(value)
    ensures ApplyAll(value, a + b) == match ApplyAll(value, a)
                                      case Ok(middle) => ApplyAll(middle, b)
                                      case Err(e) => Err(e)
    ensures forall op :: ApplyAll(value, [op]) == ApplyOne(value, op)
    decreases |a|
  {
    hide ApplyOne;
    if a == [] {
      assert a + b == b;
    } else {
      assert (a + b)[0] == a[0] && (a + b)[1..] == a[1..] + b;
      if ApplyOne(value, a[0]).Ok? {
        OperationsInOrder(ApplyOne(value, a[0]).value, a[1..], b);
      }
    }
    forall op: Operation
      ensures ApplyAll(value, [op]) == ApplyOne(value, op)
    {
      assert [op][1..] == [];
    }
  }

  // ----- The sweep of validation is exact -----

  /** Every in-range context can be encoded, the generation left aside. */
  ghost predicate AllContextsEncode(bindings: seq<Binding>, cmd: Command, g: NandGeometry, pages: u32)
    requires g.HasPlanes() && TotalBlocks(g).Ok?
  {
    forall ctx, i :: InRange(ctx, cmd, g, pages) && 0 <= i < |bindings| && bindings[i].source != Generation ==>
                       Encodes(bindings[i], ctx.Value(bindings[i].source))
  }

  /** An in-range context in which a source has a given value. */
  function Example(s: Source, v: u64, g: NandGeometry): Context
    requires g.HasPlanes()
  {
    match s
    case Channel => At(v, 0, 0, 0, g)
    case Chip => At(0, v, 0, 0, g)
    case Lun => At(0, 0, v, 0, g)
    case Plane => At(0, 0, 0, v, g)
    case Block => At(0, 0, 0, v, g)
    case FlatBlock => if ContextAt(v, g).Ok? then ContextAt(v, g).value else At(0, 0, 0, 0, g)
    case Page => At(0, 0, 0, 0, g).(page := v)
    case PayloadBytes => At(0, 0, 0, 0, g).(payloadBytes := v)
    case UserBlocks => At(0, 0, 0, 0, g).(userBlocks := v)
    case SpareBlocks => At(0, 0, 0, 0, g).(spareBlocks := v)
    case Generation => At(0, 0, 0, 0, g).(generation := v)
  }

  function At(channel: u64, chip: u64, lun: u64, block: u64, g: NandGeometry): Context
    requires g.HasPlanes()
  {
    var flat := Flatten(channel, chip, lun, block, g);
    Context(channel, chip, lun, Remainder(block, g.planesPerLun), block, 0,
            if flat < 0x1_0000_0000_0000_0000 then flat else 0, 0, 0, 0, 0)
  }

  lemma AtIsInRange(channel: u64, chip: u64, lun: u64, block: u64, cmd: Command, g: NandGeometry, pages: u32)
    requires g.HasPlanes() && TotalBlocks(g).Ok?
    requires channel < g.channels && chip < g.chipsPerChannel && lun < g.lunsPerChip && block < g.blocksPerLun
    ensures InRange(At(channel, chip, lun, block, g), cmd, g, pages)
  {
    hide CoordinateOf, TotalBlocks, Flatten, Remainder;
    FlattenedHasCoordinate(channel, chip, lun, block, g);
  }

  lemma SmallRemainder(x: nat, m: nat)
    requires x < m
    ensures Remainder(x, m) == x
  {
    DivModUnique(0, m, x);
  }

  lemma AtHolds(channel: u64, chip: u64, lun: u64, block: u64, g: NandGeometry)
    requires g.HasPlanes()
    ensures var ctx := At(channel, chip, lun, block, g);
            && ctx.channel == channel && ctx.chip == chip && ctx.lun == lun && ctx.block == block
            && ctx.plane == Remainder(block, g.planesPerLun)
  {
    hide Flatten, Remainder;
  }

  lemma FlatIsInRange(flat: u64, cmd: Command, g: NandGeometry, pages: u32)
    requires g.HasPlanes() && TotalBlocks(g).Ok? && flat < TotalBlocks(g).value
    ensures ContextAt(flat, g).Ok? && ContextAt(flat, g).value.flatBlock == flat
    ensures InRange(ContextAt(flat, g).value, cmd, g, pages) && ContextAt(flat, g).value.generation == 0
  {
    hide TotalBlocks, Quotient, Remainder;
  }

  lemma CoordinateExample(s: Source, v: u64, cmd: Command, g: NandGeometry, pages: u32)
    requires g.HasPlanes() && TotalBlocks(g).Ok? && TotalBlocks(g).value > 0 && g.planesPerLun <= g.blocksPerLun
    requires Maximum(s, g, pages, TotalBlocks(g).value, cmd.transferBytes).Some?
    requires v <= Maximum(s, g, pages, TotalBlocks(g).value, cmd.transferBytes).value
    requires s in {Channel, Chip, Lun, Plane, Block}
    ensures InRange(Example(s, v, g), cmd, g, pages) && Example(s, v, g).Value(s) == v
  {
    hide TotalBlocks, At, InRange, Remainder;
    assert g.channels > 0 && g.chipsPerChannel > 0 && g.lunsPerChip > 0 && g.blocksPerLun > 0 by {
      NonZero(0, g);
    }
    if s == Channel {
      AtHolds(v, 0, 0, 0, g);
      AtIsInRange(v, 0, 0, 0, cmd, g, pages);
    } else if s == Chip {
      AtHolds(0, v, 0, 0, g);
      AtIsInRange(0, v, 0, 0, cmd, g, pages);
    } else if s == Lun {
      AtHolds(0, 0, v, 0, g);
      AtIsInRange(0, 0, v, 0, cmd, g, pages);
    } else {
      AtHolds(0, 0, 0, v, g);
      AtIsInRange(0, 0, 0, v, cmd, g, pages);
      if s == Plane {
        SmallRemainder(v, g.planesPerLun);
      }
    }
  }

  lemma ExampleIsInRange(s: Source, v: u64, cmd: Command, g: NandGeometry, pages: u32)
    requires g.HasPlanes() && TotalBlocks(g).Ok? && TotalBlocks(g).value > 0 && g.planesPerLun <= g.blocksPerLun
    requires Maximum(s, g, pages, TotalBlocks(g).value, cmd.transferBytes).Some?
    requires v <= Maximum(s, g, pages, TotalBlocks(g).value, cmd.transferBytes).value
    ensures InRange(Example(s, v, g), cmd, g, pages) && Example(s, v, g).Value(s) == v
  {
    hide CoordinateOf, TotalBlocks, Flatten;
    if s in {Channel, Chip, Lun, Plane, Block} {
      CoordinateExample(s, v, cmd, g, pages);
    } else if s == FlatBlock {
      FlatIsInRange(v, cmd, g, pages);
    } else {
      NonZero(0, g);
      AtIsInRange(0, 0, 0, 0, cmd, g, pages);
    }
  }

  /**
   * Trying each source value by value is the same as trying every context: on a medium with blocks, whose LUNs have a
   * block in every plane, the sweep passes exactly when every in-range context can be encoded.
   */
  lemma SweepIsExact(bindings: seq<Binding>, cmd: Command, g: NandGeometry, pages: u32)
    requires g.HasPlanes() && TotalBlocks(g).Ok? && TotalBlocks(g).value > 0 && g.planesPerLun <= g.blocksPerLun
    ensures SweepsPass(bindings, cmd, g, pages, TotalBlocks(g).value) <==> AllContextsEncode(bindings, cmd, g, pages)
  {
    hide Encodes, TotalBlocks, InRange, Maximum, Example, SweepPasses;
    if SweepsPass(bindings, cmd, g, pages, TotalBlocks(g).value) {
      forall ctx, i | InRange(ctx, cmd, g, pages) && 0 <= i < |bindings| && bindings[i].source != Generation
        ensures Encodes(bindings[i], ctx.Value(bindings[i].source))
      {
        ValueIsSwept(ctx, bindings[i].source, cmd, g, pages);
        Swept(bindings[i], Maximum(bindings[i].source, g, pages, TotalBlocks(g).value, cmd.transferBytes),
              ctx.Value(bindings[i].source));
      }
    }
    if AllContextsEncode(bindings, cmd, g, pages) {
      forall i | 0 <= i < |bindings|
        ensures SweepPasses(bindings[i], Maximum(bindings[i].source, g, pages, TotalBlocks(g).value, cmd.transferBytes))
      {
        EncodedIsSwept(bindings, i, cmd, g, pages);
      }
    }
  }

  lemma Swept(b: Binding, maximum: Option<u64>, input: u64)
    requires SweepPasses(b, maximum) && maximum.Some? && input <= maximum.value
    ensures Encodes(b, input)
  {
    hide Encodes;
  }

  lemma EncodedIsSwept(bindings: seq<Binding>, i: nat, cmd: Command, g: NandGeometry, pages: u32)
    requires g.HasPlanes() && TotalBlocks(g).Ok? && TotalBlocks(g).value > 0 && g.planesPerLun <= g.blocksPerLun
    requires AllContextsEncode(bindings, cmd, g, pages) && i < |bindings|
    ensures SweepPasses(bindings[i], Maximum(bindings[i].source, g, pages, TotalBlocks(g).value, cmd.transferBytes))
  {
    hide Encodes, TotalBlocks, InRange, Example;
    var s := bindings[i].source;
    var maximum := Maximum(s, g, pages, TotalBlocks(g).value, cmd.transferBytes);
    if maximum.Some? {
      forall input: u64 | input <= maximum.value
        ensures Encodes(bindings[i], input)
      {
        ExampleIsInRange(s, input, cmd, g, pages);
        var ctx := Example(s, input, g);
        assert InRange(ctx, cmd, g, pages) && bindings[i].source != Generation;
      }
    }
  }

  // ----- The shape of an accepted command -----

  /** CDB, timeout and the transfer that the direction allows. */
  predicate RightlyTransferred(cmd: Command, transport: Transport) {
    && (transport == ScsiCommand ==> |cmd.cdb| == 6 || |cmd.cdb| == 10 || |cmd.cdb| == 12 || |cmd.cdb| == 16)
    && (transport == UsbBot ==> 6 <= |cmd.cdb| <= 16)
    && transport != OtherTransport
    && 100 <= cmd.timeoutMs <= 3_600_000
    && cmd.transferBytes <= 16_777_216
    && (cmd.transferBytes == 0 <==> cmd.direction == NoData)
    && (cmd.source.Some? <==> cmd.direction == ToDevice)
    && cmd.response.maxBytes <= (if cmd.direction == FromDevice then cmd.transferBytes else 0)
  }

  predicate RightOperation(op: Operation) {
    && (op.Divide? ==> op.operand > 0) && (op.Modulo? ==> op.operand > 0) && (op.XorModulo? ==> op.operand > 0)
    && (op.ShiftLeft? ==> op.bits <= 63) && (op.ShiftRight? ==> op.bits <= 63)
  }

  /** A field of one, two, four or eight bytes behind the opcode, with at most 16 operations that can be applied. */
  predicate RightlyBound(b: Binding, cdbBytes: nat) {
    && (b.field.width == 1 || b.field.width == 2 || b.field.width == 4 || b.field.width == 8)
    && 1 <= b.field.offset && b.field.offset + b.field.width <= cdbBytes
    && |b.operations| <= 16 && forall i :: 0 <= i < |b.operations| ==> RightOperation(b.operations[i])
  }

  lemma AllowedIff(op: Operation)
    ensures OperationValid(op) <==> RightOperation(op)
  {
  }

  lemma BindingIff(b: Binding, n: nat)
    ensures CdbBindingValid(b, n) <==> RightlyBound(b, n)
  {
    hide OperationValid, RightOperation;
    forall i | 0 <= i < |b.operations|
      ensures OperationValid(b.operations[i]) <==> RightOperation(b.operations[i])
    {
      AllowedIff(b.operations[i]);
    }
  }

  lemma TransferIff(cmd: Command, transport: Transport)
    requires cmd.response.minBytes <= cmd.response.maxBytes
    ensures RightlyTransferred(cmd, transport) <==>
            && CdbLengthValid(transport, |cmd.cdb|) && cmd.transferBytes <= MAX_COMMAND_TRANSFER
            && 100 <= cmd.timeoutMs <= 3_600_000 && TransferValid(cmd)
  {
  }

  /** A field of one to eight bytes inside the record. */
  predicate InRecord(f: IntegerLayout, recordBytes: nat) {
    1 <= f.width && f.width <= 8 && f.offset + f.width <= recordBytes
  }

  /** Whole records that fill the transfer, and at most 32 constants and fields, which fit and do not overlap. */
  ghost predicate RightPayload(cmd: Command, p: ContextPayload) {
    && cmd.direction == ToDevice && p.recordBytes * p.copies == cmd.transferBytes && p.recordBytes > 0 && p.copies > 0
    && |p.constants| + |p.fields| <= 32
    && (forall i :: 0 <= i < |p.constants| ==>
                      && InRecord(p.constants[i].field, p.recordBytes)
                      && (p.constants[i].field.width < 8 ==> p.constants[i].value < Pow256(p.constants[i].field.width)))
    && (forall i :: 0 <= i < |p.fields| ==>
                      InRecord(p.fields[i].field, p.recordBytes) && RightOperations(p.fields[i].operations))
    && NoByteTwice(PayloadLayouts(p))
  }

  predicate RightOperations(operations: seq<Operation>) {
    |operations| <= 16 && forall i :: 0 <= i < |operations| ==> RightOperation(operations[i])
  }

  lemma OperationsIff(operations: seq<Operation>)
    ensures OperationsValid(operations) <==> RightOperations(operations)
  {
    hide OperationValid, RightOperation;
    forall i | 0 <= i < |operations|
      ensures OperationValid(operations[i]) <==> RightOperation(operations[i])
    {
      AllowedIff(operations[i]);
    }
  }

  lemma PayloadLayoutsLie(p: ContextPayload)
    requires forall i :: 0 <= i < |p.constants| ==> InRecord(p.constants[i].field, p.recordBytes)
    requires forall i :: 0 <= i < |p.fields| ==> InRecord(p.fields[i].field, p.recordBytes)
    ensures forall i :: 0 <= i < |PayloadLayouts(p)| ==>
              PayloadLayouts(p)[i].width >= 1
              && PayloadLayouts(p)[i].offset + PayloadLayouts(p)[i].width <= 0xFFFF_FFFF
  {
    forall i | 0 <= i < |PayloadLayouts(p)|
      ensures InRecord(PayloadLayouts(p)[i], p.recordBytes)
    {
      if i >= |p.constants| {
        assert PayloadLayouts(p)[i] == p.fields[i - |p.constants|].field;
      }
    }
  }

  lemma PayloadIff(cmd: Command, p: ContextPayload)
    ensures PayloadValid(cmd, p) <==> RightPayload(cmd, p)
  {
    hide RangesDisjoint, NoByteTwice, OperationsValid, RightOperations, PayloadLayouts;
    forall i | 0 <= i < |p.fields|
      ensures OperationsValid(p.fields[i].operations) <==> RightOperations(p.fields[i].operations)
    {
      OperationsIff(p.fields[i].operations);
    }
    if (forall i :: 0 <= i < |p.constants| ==> InRecord(p.constants[i].field, p.recordBytes))
       && forall i :: 0 <= i < |p.fields| ==> InRecord(p.fields[i].field, p.recordBytes) {
      PayloadLayoutsLie(p);
      DisjointIff(PayloadLayouts(p));
    }
  }

  /** The trial builds, one for every block, add nothing but the generation zero. */
  lemma TrialBuildsIff(cmd: Command, p: ContextPayload, g: NandGeometry, pages: u32)
    requires g.HasPlanes() && TotalBlocks(g).Ok? && TotalBlocks(g).value > 0
    requires cmd.source == Some(FromContext(p)) && PayloadValid(cmd, p) && PayloadWidthsFit(p)
    requires cmd.transferBytes <= MAX_COMMAND_TRANSFER && SweepsPass(p.fields, cmd, g, pages, TotalBlocks(g).value)
    ensures (forall flat :: 0 <= flat < TotalBlocks(g).value ==> PayloadBuildsAt(cmd, flat, g))
            <==> GenerationEncodes(p.fields, 0)
  {
    hide TotalBlocks, SweepsPass, PayloadValid, InRange, ContextPayloadBytes, GenerationEncodes, ContextAt;
    forall flat | 0 <= flat < TotalBlocks(g).value
      ensures PayloadBuildsAt(cmd, flat, g) <==> GenerationEncodes(p.fields, 0)
    {
      FlatIsInRange(flat, cmd, g, pages);
      PayloadBuildsIff(cmd, p, ContextAt(flat, g).value, g, pages);
    }
    if forall flat :: 0 <= flat < TotalBlocks(g).value ==> PayloadBuildsAt(cmd, flat, g) {
      assert PayloadBuildsAt(cmd, 0, g);
    }
  }

  /** The part of acceptance that no payload has a say in. */
  ghost predicate RightlyAddressed(cmd: Command, transport: Transport, g: NandGeometry, pages: u32)
    requires g.HasPlanes()
  {
    && RightlyTransferred(cmd, transport) && RuleValid(cmd.response)
    && (forall i :: 0 <= i < |cmd.fields| ==> RightlyBound(cmd.fields[i], |cmd.cdb|))
    && NoByteTwice(Layouts(cmd.fields))
    && TotalBlocks(g).Ok? && TotalBlocks(g).value <= 131_072
    && AllContextsEncode(cmd.fields, cmd, g, pages)
  }

  lemma AddressedIff(cmd: Command, transport: Transport, g: NandGeometry, pages: u32)
    requires g.HasPlanes()
    requires TotalBlocks(g).Ok? ==> TotalBlocks(g).value > 0 && g.planesPerLun <= g.blocksPerLun
    ensures RightlyAddressed(cmd, transport, g, pages) <==>
            && CdbLengthValid(transport, |cmd.cdb|) && cmd.transferBytes <= MAX_COMMAND_TRANSFER
            && 100 <= cmd.timeoutMs <= 3_600_000
            && TransferValid(cmd) && RuleValid(cmd.response) && CdbFieldsValid(cmd)
            && TotalBlocks(g).Ok? && TotalBlocks(g).value <= MAX_PHYSICAL_BLOCKS
            && SweepsPass(cmd.fields, cmd, g, pages, TotalBlocks(g).value)
  {
    hide TotalBlocks, SweepsPass, RuleValid, RangesDisjoint, NoByteTwice, AllContextsEncode, RightlyBound,
      TransferValid, RightlyTransferred, CdbLengthValid, CdbBindingValid;
    if RuleValid(cmd.response) {
      RuleIsOrdered(cmd.response);
      TransferIff(cmd, transport);
    }
    if TotalBlocks(g).Ok? {
      SweepIsExact(cmd.fields, cmd, g, pages);
    }
    forall i | 0 <= i < |cmd.fields|
      ensures CdbBindingValid(cmd.fields[i], |cmd.cdb|) <==> RightlyBound(cmd.fields[i], |cmd.cdb|)
    {
      BindingIff(cmd.fields[i], |cmd.cdb|);
    }
    if RuleValid(cmd.response) && RightlyTransferred(cmd, transport)
       && forall i :: 0 <= i < |cmd.fields| ==> RightlyBound(cmd.fields[i], |cmd.cdb|) {
      SmallFields(cmd, transport);
      DisjointIff(Layouts(cmd.fields));
    }
  }

  /**
   * A command is accepted exactly when its shape is right and every in-range context encodes, and so do those of a
   * payload generated from the context, whose generation must besides be able to be zero.
   */
  lemma AcceptedIff(cmd: Command, transport: Transport, g: NandGeometry, pages: u32)
    requires g.HasPlanes()
    requires TotalBlocks(g).Ok? ==> TotalBlocks(g).value > 0 && g.planesPerLun <= g.blocksPerLun
    ensures CommandAccepted(cmd, transport, g, pages) <==>
            && RightlyAddressed(cmd, transport, g, pages)
            && match cmd.source
               case Some(FromContext(p)) =>
                 RightPayload(cmd, p) && AllContextsEncode(p.fields, cmd, g, pages) && GenerationEncodes(p.fields, 0)
               case _ => true
  {
    hide TotalBlocks, SweepsPass, RuleValid, AllContextsEncode, TransferValid, RightlyAddressed, CdbLengthValid,
      CdbFieldsValid, PayloadValid, RightPayload, GenerationEncodes, PayloadBuildsAt, PayloadWidthsFit;
    AddressedIff(cmd, transport, g, pages);
    match cmd.source
    case Some(FromContext(p)) =>
      PayloadIff(cmd, p);
      if PayloadValid(cmd, p) {
        ConstantsFit(cmd, p);
      }
      if RightlyAddressed(cmd, transport, g, pages) {
        SweepIsExact(p.fields, cmd, g, pages);
        if PayloadValid(cmd, p) && SweepsPass(p.fields, cmd, g, pages, TotalBlocks(g).value) {
          TrialBuildsIff(cmd, p, g, pages);
        }
      }
    case _ =>
  }

  lemma RuleIsOrdered(rule: ResponseRule)
    requires RuleValid(rule)
    ensures rule.minBytes <= rule.maxBytes
  {
  }

  lemma SmallFields(cmd: Command, transport: Transport)
    requires RightlyTransferred(cmd, transport)
    requires forall i :: 0 <= i < |cmd.fields| ==> RightlyBound(cmd.fields[i], |cmd.cdb|)
    ensures forall i :: 0 <= i < |cmd.fields| ==>
              Layouts(cmd.fields)[i].width >= 1
              && Layouts(cmd.fields)[i].offset + Layouts(cmd.fields)[i].width <= 0xFFFF_FFFF
  {
    forall i | 0 <= i < |cmd.fields|
      ensures Layouts(cmd.fields)[i].width >= 1
              && Layouts(cmd.fields)[i].offset + Layouts(cmd.fields)[i].width <= 0xFFFF_FFFF
    {
      assert RightlyBound(cmd.fields[i], |cmd.cdb|);
    }
  }
}
