/** What the metadata payloads guarantee: fields stay apart, tables read back, committing keeps integrity. */
module MetadataTheorems {
  import opened Wrappers
  import opened Bytes
  import opened Geometry
  import opened FieldCodec
  import opened Metadata
  import Checksum

  // ----- The entries are the listed blocks in flat order -----

  predicate Sorted(s: seq<Block>) {
    forall i, j :: 0 <= i < j < |s| ==> s[i].flat <= s[j].flat
  }

  predicate Distinct(s: seq<Block>) {
    forall i, j :: 0 <= i < j < |s| ==> s[i].flat != s[j].flat
  }

  lemma {:induction false} InsertAdds(sorted: seq<Block>, b: Block)
    ensures multiset(Insert(sorted, b)) == multiset(sorted) + multiset{b}
  {
    if sorted != [] && sorted[|sorted| - 1].flat > b.flat {
      InsertAdds(sorted[..|sorted| - 1], b);
      assert sorted == sorted[..|sorted| - 1] + [sorted[|sorted| - 1]];
    }
  }

  lemma {:induction false} InsertSorts(sorted: seq<Block>, b: Block)
    requires Sorted(sorted)
    ensures Sorted(Insert(sorted, b))
    ensures forall x :: x in Insert(sorted, b) ==> x == b || x in sorted
  {
    if sorted != [] && sorted[|sorted| - 1].flat > b.flat {
      var front, last := sorted[..|sorted| - 1], sorted[|sorted| - 1];
      InsertSorts(front, b);
      assert forall x :: x in front ==> x.flat <= last.flat;
      assert forall x :: x in Insert(front, b) ==> x.flat <= last.flat;
    }
  }

  lemma NothingToSort()
    ensures Sorted([])
  {
  }

  /** The stable sort sorts, and neither loses nor invents a block. */
  lemma {:induction false} SortByFlatSorts(blocks: seq<Block>)
    ensures Sorted(SortByFlat(blocks)) && multiset(SortByFlat(blocks)) == multiset(blocks)
  {
    hide Insert, Sorted;
    if blocks == [] {
      NothingToSort();
    } else {
      var front, last := blocks[..|blocks| - 1], blocks[|blocks| - 1];
      SortByFlatSorts(front);
      InsertSorts(SortByFlat(front), last);
      InsertAdds(SortByFlat(front), last);
      assert blocks == front + [last];
    }
  }

  lemma {:induction false} FilteredIsListed(blocks: seq<Block>)
    ensures forall b :: b in Filtered(blocks) <==> b in blocks && Listed(b.disposition)
  {
    hide Listed;
    if blocks != [] {
      var front, last := blocks[..|blocks| - 1], blocks[|blocks| - 1];
      FilteredIsListed(front);
      assert blocks == front + [last];
    }
  }

  lemma {:induction false} FlatsCount(s: seq<Block>)
    ensures |Flats(s)| <= |s|
    ensures |Flats(s)| == |s| <==> Distinct(s)
  {
    if s != [] {
      var front, last := s[..|s| - 1], s[|s| - 1];
      FlatsCount(front);
      assert s == front + [last];
      assert Flats(s) == Flats(front) + {last.flat};
      if Distinct(front) {
        if last.flat in Flats(front) {
          var i :| 0 <= i < |front| && front[i].flat == last.flat;
          assert s[i].flat == s[|s| - 1].flat;
        }
      } else {
        var i, j :| 0 <= i < j < |front| && front[i].flat == front[j].flat;
        assert s[i].flat == s[j].flat;
      }
    }
  }

  lemma SameFlats(a: seq<Block>, b: seq<Block>)
    requires multiset(a) == multiset(b)
    ensures |a| == |b| && Flats(a) == Flats(b) && (Distinct(a) <==> Distinct(b))
    ensures forall x :: x in a <==> x in b
  {
    assert forall x :: x in a <==> x in multiset(a);
    assert forall x :: x in b <==> x in multiset(b);
    assert |multiset(a)| == |multiset(b)|;
    FlatsCount(a);
    FlatsCount(b);
  }

  /** Distinct flat numbers below a bound are at most that many. */
  lemma {:induction false} Pigeonhole(s: set<u64>, bound: nat)
    requires forall x :: x in s ==> x < bound
    ensures |s| <= bound
  {
    if bound == 0 {
      assert s == {};
    } else {
      Pigeonhole(s - {bound - 1}, bound - 1);
    }
  }

  lemma EntriesAreListed(blocks: seq<Block>)
    ensures var entries := Entries(blocks);
            && Sorted(entries) && multiset(entries) == multiset(Filtered(blocks))
            && (Distinct(entries) <==> Distinct(Filtered(blocks)))
            && forall b :: b in entries <==> b in blocks && Listed(b.disposition)
  {
    SortByFlatSorts(Filtered(blocks));
    SameFlats(Entries(blocks), Filtered(blocks));
    FilteredIsListed(blocks);
  }

  // ----- Checksums -----

  /** `at` lies in the checksum field. */
  predicate InField(c: ChecksumLayout, at: nat)
    requires Checksum.Width(c.algorithm).Some?
  {
    c.offset <= at < c.offset + Checksum.Width(c.algorithm).value
  }

  lemma ZeroedAgrees(a: seq<byte>, b: seq<byte>, c: ChecksumLayout)
    requires Checksum.Width(c.algorithm).Some? && |a| == |b|
    requires forall at :: 0 <= at < |a| && !InField(c, at) ==> a[at] == b[at]
    ensures Zeroed(a, c) == Zeroed(b, c)
  {
    hide Checksum.Width;
    if Zeroed(a, c).Ok? && Zeroed(b, c).Ok? {
      assert Zeroed(a, c).value == Zeroed(b, c).value;
    }
  }

  /** Writing a checksum touches the checksum field only, and leaves a payload whose checksum is valid. */
  lemma ChecksummedIsValid(buf: seq<byte>, c: ChecksumLayout)
    requires Checksummed(buf, c).Ok?
    ensures Checksum.Width(c.algorithm).Some?
    ensures var r := Checksummed(buf, c).value;
            && |r| == |buf| && ChecksumValid(r, c)
            && forall at :: 0 <= at < |buf| && !InField(c, at) ==> r[at] == buf[at]
  {
    hide Checksum.Width, Checksum.WordValue, EncodeInt, DecodeInt;
    var width := Checksum.Width(c.algorithm).value;
    var r := Checksummed(buf, c).value;
    ZeroedAgrees(buf, r, c);
    GetAfterPut(Zeroed(buf, c).value, c.offset, width, c.endian, Computed(buf, c).value);
  }

  lemma SliceFrame(a: seq<byte>, at: nat, v: byte, start: nat, length: nat)
    requires at < |a| && start + length <= |a| && !(start <= at < start + length)
    ensures a[at := v][start..start + length] == a[start..start + length]
  {
  }

  /** A byte outside the field and the covered range does not matter to the checksum. */
  lemma UncoveredByteIsFree(buf: seq<byte>, c: ChecksumLayout, at: nat, v: byte)
    requires ChecksumValid(buf, c) && at < |buf| && !InField(c, at) && !(c.start <= at < c.start + c.length)
    ensures ChecksumValid(buf[at := v], c)
  {
    hide Checksum.Width, Checksum.ChecksumValue, EncodeInt, DecodeInt;
    var width := Checksum.Width(c.algorithm).value;
    var a, b := Zeroed(buf, c).value, Zeroed(buf[at := v], c).value;
    var zero := EncodeInt(0, width, c.endian);
    assert a == Overwrite(buf, c.offset, zero) && b == Overwrite(buf[at := v], c.offset, zero);
    assert b == a[at := v];
    SliceFrame(a, at, v, c.start, c.length);
    GetFrame(buf, buf[at := v], c.offset, width, c.endian);
  }

  // ----- What a table holds -----

  /** Entry bytes at `base`: the address, the state, and fill everywhere else. */
  predicate EntryHolds(data: seq<byte>, base: nat, b: Block, l: TableLayout, g: NandGeometry)
    requires g.HasPlanes() && TableLayoutValid(l)
  {
    && base + l.stride <= |data|
    && DecodeBlockAddress(data, base, l.address, g) == Ok(b.flat)
    && data[base + l.stateOffset] == StateValue(b.disposition, l)
    && GapsFilled(data, base, l)
  }

  predicate GapsFilled(data: seq<byte>, base: nat, l: TableLayout)
    requires base + l.stride <= |data|
  {
    forall at :: base <= at < base + l.stride && at != base + l.stateOffset && Outside(base, Fields(l.address), at)
                 ==> data[at] == l.fill
  }

  predicate Same(a: seq<byte>, b: seq<byte>, from: nat, to: nat)
    requires |a| == |b|
  {
    forall at :: from <= at < to && at < |a| ==> a[at] == b[at]
  }

  lemma FieldsInStride(a: AddressLayout, stride: nat, base: nat, at: nat)
    requires AddressLayoutValid(a, stride) && !(base <= at < base + stride)
    ensures Outside(base, Fields(a), at)
  {
  }

  lemma StateOutsideAddress(a: AddressLayout, stateOffset: nat, base: nat)
    requires RangesDisjoint(AddressSpans(a, stateOffset))
    ensures Outside(base, Fields(a), base + stateOffset)
  {
    hide Fields;
    var spans := AddressSpans(a, stateOffset);
    forall i | 0 <= i < |Fields(a)|
      ensures !(base + Fields(a)[i].offset <= base + stateOffset < base + Fields(a)[i].offset + Fields(a)[i].width)
    {
      assert Apart(spans[i], spans[|Fields(a)|]);
    }
  }

  /** An address depends on its own fields only. */
  lemma AddressFrame(a: seq<byte>, b: seq<byte>, base: nat, layout: AddressLayout, g: NandGeometry)
    requires g.HasPlanes() && WidthsFit(Fields(layout)) && |a| == |b|
    requires forall at :: 0 <= at < |a| && !Outside(base, Fields(layout), at) ==> a[at] == b[at]
    ensures DecodeBlockAddress(a, base, layout, g) == DecodeBlockAddress(b, base, layout, g)
  {
    hide GetAll, CheckedFlatten;
    GetAllFrame(a, b, base, Fields(layout));
  }

  lemma EntryFrame(a: seq<byte>, b: seq<byte>, base: nat, block: Block, l: TableLayout, g: NandGeometry)
    requires g.HasPlanes() && TableLayoutValid(l) && |a| == |b|
    requires EntryHolds(a, base, block, l, g) && Same(a, b, base, base + l.stride)
    ensures EntryHolds(b, base, block, l, g)
  {
    hide DecodeBlockAddress, RangesDisjoint, Outside, Fields, StateValue;
    forall at | 0 <= at < |a| && !Outside(base, Fields(l.address), at)
      ensures a[at] == b[at]
    {
      if !(base <= at < base + l.stride) {
        FieldsInStride(l.address, l.stride, base, at);
      }
    }
    AddressFrame(a, b, base, l.address, g);
  }

  lemma PutEntryEffect(buf: seq<byte>, base: nat, b: Block, l: TableLayout, g: NandGeometry)
    requires g.HasPlanes() && TableLayoutValid(l) && base + l.stride <= |buf| && PutEntry(buf, base, b, l, g).Ok?
    requires GapsFilled(buf, base, l)
    ensures var after := PutEntry(buf, base, b, l, g).value;
            && EntryHolds(after, base, b, l, g)
            && Same(buf, after, 0, base) && Same(buf, after, base + l.stride, |buf|)
  {
    hide DecodeBlockAddress, RangesDisjoint, Fields, StateValue, CoordinateOf, Values, Outside;
    var addressed := EncodeBlockAddress(buf, base, l.address, b.flat, g).value;
    var after := PutEntry(buf, base, b, l, g).value;
    DecodeAfterEncode(buf, base, l.address, b.flat, g, l.stride);
    StateOutsideAddress(l.address, l.stateOffset, base);
    AddressFrame(addressed, after, base, l.address, g);
    forall at | 0 <= at < |buf| && !(base <= at < base + l.stride)
      ensures after[at] == buf[at]
    {
      FieldsInStride(l.address, l.stride, base, at);
    }
  }

  /** Every entry is in its place, and nothing outside the entries changed. */
  lemma {:induction false} EntriesEffect(buf: seq<byte>, entries: seq<Block>, l: TableLayout, g: NandGeometry)
    requires g.HasPlanes() && TableLayoutValid(l) && EntryBase(|l.header|, l.stride, |entries|) <= |buf|
    requires PutEntries(buf, entries, l, g).Ok?
    requires forall at :: |l.header| <= at < |buf| ==> buf[at] == l.fill
    ensures var after := PutEntries(buf, entries, l, g).value;
            && |after| == |buf|
            && (forall k :: 0 <= k < |entries| ==>
                              EntryHolds(after, EntryBase(|l.header|, l.stride, k), entries[k], l, g))
            && Same(buf, after, 0, |l.header|)
            && Same(buf, after, EntryBase(|l.header|, l.stride, |entries|), |buf|)
  {
    hide PutEntry, TableLayoutValid, EntryBase, Outside, EntryHolds;
    if entries != [] {
      var n := |entries| - 1;
      EntriesFit(|l.header|, l.stride, n, |entries|);
      var before := PutEntries(buf, entries[..n], l, g).value;
      EntriesEffect(buf, entries[..n], l, g);
      var base := EntryBase(|l.header|, l.stride, n);
      HeaderFirst(|l.header|, l.stride, n);
      PutEntryEffect(before, base, entries[n], l, g);
      var after := PutEntries(buf, entries, l, g).value;
      forall k | 0 <= k < n
        ensures EntryHolds(after, EntryBase(|l.header|, l.stride, k), entries[k], l, g)
      {
        EntriesFit(|l.header|, l.stride, k, n);
        assert entries[..n][k] == entries[k];
        EntryFrame(before, after, EntryBase(|l.header|, l.stride, k), entries[k], l, g);
      }
    }
  }

  lemma HeaderFirst(start: nat, stride: nat, k: nat)
    ensures start <= EntryBase(start, stride, k)
  {
  }

  /** No byte of the generation, the count, the checksum or the commit marker. */
  predicate Unclaimed(l: TableLayout, at: nat)
    requires TableLayoutValid(l)
  {
    && !(l.generation.offset <= at < l.generation.offset + l.generation.width)
    && !(l.count.offset <= at < l.count.offset + l.count.width)
    && !InField(l.checksum, at)
    && at != l.commitOffset
  }

  /** Everything a table says, each part in its own bytes, with commit marker `marker`. */
  predicate TableHolds(t: seq<byte>, marker: byte, blocks: seq<Block>, generation: u64, l: TableLayout, g: NandGeometry)
    requires g.HasPlanes() && TableLayoutValid(l)
  {
    var entries := Entries(blocks);
    && |t| == l.maximumBytes
    && EntryBase(|l.header|, l.stride, |entries|) <= |t|
    && GetField(t, l.generation) == Ok(generation)
    && GetField(t, l.count) == Ok(|entries|)
    && t[l.commitOffset] == marker
    && ChecksumValid(t, l.checksum)
    && (forall k :: 0 <= k < |entries| ==> EntryHolds(t, EntryBase(|l.header|, l.stride, k), entries[k], l, g))
    && (forall at :: 0 <= at < |l.header| && Unclaimed(l, at) ==> t[at] == l.header[at])
    && (forall at :: EntryBase(|l.header|, l.stride, |entries|) <= at < |t| ==> t[at] == l.fill)
  }

  /** The parts of the header are apart, so each only has to be compared with the others' bytes. */
  lemma HeaderPartsApart(l: TableLayout)
    requires TableLayoutValid(l)
    ensures Apart(SpanOf(l.generation), SpanOf(l.count))
    ensures Apart(SpanOf(l.generation), ChecksumSpan(l.checksum))
            && Apart(SpanOf(l.generation), Span(l.commitOffset, 1))
    ensures Apart(SpanOf(l.count), ChecksumSpan(l.checksum)) && Apart(SpanOf(l.count), Span(l.commitOffset, 1))
    ensures Apart(ChecksumSpan(l.checksum), Span(l.commitOffset, 1))
  {
    hide Checksum.Width, AddressLayoutValid;
    var s := [SpanOf(l.generation), SpanOf(l.count), ChecksumSpan(l.checksum), Span(l.commitOffset, 1)];
    assert Apart(s[0], s[1]) && Apart(s[0], s[2]) && Apart(s[0], s[3]);
    assert Apart(s[1], s[2]) && Apart(s[1], s[3]) && Apart(s[2], s[3]);
  }

  lemma FieldFrame(a: seq<byte>, b: seq<byte>, f: IntegerLayout)
    requires WidthValid(f.width) && |a| == |b| && Same(a, b, f.offset, f.offset + f.width)
    ensures GetField(a, f) == GetField(b, f)
  {
    GetFrame(a, b, f.offset, f.width, f.endian);
  }

  lemma FieldAfterPut(buf: seq<byte>, f: IntegerLayout, value: u64)
    requires WidthValid(f.width) && PutField(buf, f, value).Ok?
    ensures var r := PutField(buf, f, value).value;
            GetField(r, f) == Ok(value) && Same(buf, r, 0, f.offset) && Same(buf, r, f.offset + f.width, |buf|)
  {
    hide EncodeInt, DecodeInt;
    GetAfterPut(buf, f.offset, f.width, f.endian, value);
  }

  /** A built table holds exactly what the state says: no field, entry, marker or checksum clobbers another. */
  lemma BuiltTableHolds(blocks: seq<Block>, generation: u64, l: TableLayout, g: NandGeometry)
    requires g.HasPlanes() && TableLayoutValid(l) && BbtBytes(blocks, generation, l, g).Ok?
    ensures TableHolds(BbtBytes(blocks, generation, l, g).value, l.prepareValue, blocks, generation, l, g)
  {
    hide Entries, PutEntries, PutField, GetField, Checksummed, ChecksumValid, EntryHolds, EntryBase, RangesDisjoint,
      AddressLayoutValid, Checksum.Width;
    var entries := Entries(blocks);
    var blank := l.header + Filled(l.fill, l.maximumBytes - |l.header|);
    var numbered := PutField(blank, l.generation, generation).value;
    var counted := PutField(numbered, l.count, |entries|).value;
    var body := TableBody(blocks, generation, l, g).value;
    var prepared := body[l.commitOffset := l.prepareValue];
    var t := BbtBytes(blocks, generation, l, g).value;
    HeaderPartsApart(l);
    FieldAfterPut(blank, l.generation, generation);
    CountIsWord(blocks, l);
    FieldAfterPut(numbered, l.count, |entries|);
    EntriesEffect(counted, entries, l, g);
    ChecksummedIsValid(prepared, l.checksum);
    HeaderFirst(|l.header|, l.stride, |entries|);
    FieldFrame(numbered, t, l.generation);
    FieldFrame(counted, t, l.count);
    forall k | 0 <= k < |entries|
      ensures EntryHolds(t, EntryBase(|l.header|, l.stride, k), entries[k], l, g)
    {
      HeaderFirst(|l.header|, l.stride, k);
      EntryFrame(body, t, EntryBase(|l.header|, l.stride, k), entries[k], l, g);
    }
  }

  lemma CountIsWord(blocks: seq<Block>, l: TableLayout)
    requires TableLayoutValid(l) && EntryBase(|l.header|, l.stride, |Entries(blocks)|) <= l.maximumBytes
    ensures |Entries(blocks)| < 0x1_0000_0000
  {
    hide Entries, RangesDisjoint, AddressLayoutValid, Checksum.Width;
    Grows(|Entries(blocks)|, l.stride);
  }

  /** Changing the commit marker, and nothing else, keeps everything a table says and its checksum. */
  lemma CommitKeepsTable(
    t: seq<byte>, marker: byte, flipped: byte, blocks: seq<Block>, generation: u64, l: TableLayout, g: NandGeometry)
    requires g.HasPlanes() && TableLayoutValid(l) && TableHolds(t, marker, blocks, generation, l, g)
    ensures TableHolds(Committed(t, l.commitOffset, flipped), flipped, blocks, generation, l, g)
  {
    hide Entries, GetField, ChecksumValid, EntryHolds, EntryBase, RangesDisjoint, AddressLayoutValid, Checksum.Width;
    var u := Committed(t, l.commitOffset, flipped);
    var entries := Entries(blocks);
    HeaderPartsApart(l);
    HeaderFirst(|l.header|, l.stride, |entries|);
    FieldFrame(t, u, l.generation);
    FieldFrame(t, u, l.count);
    UncoveredByteIsFree(t, l.checksum, l.commitOffset, flipped);
    forall k | 0 <= k < |entries|
      ensures EntryHolds(u, EntryBase(|l.header|, l.stride, k), entries[k], l, g)
    {
      HeaderFirst(|l.header|, l.stride, k);
      EntryFrame(t, u, EntryBase(|l.header|, l.stride, k), entries[k], l, g);
    }
  }

  // ----- Reading a table back -----

  /** `i` describes the tables `l` writes. */
  predicate Describes(i: InputLayout, l: TableLayout) {
    && i.count == l.count && i.entriesOffset == |l.header| && i.stride == l.stride
    && i.address == l.address && i.stateOffset == l.stateOffset
    && l.factoryBadValue in i.factoryBadValues
    && l.quarantinedValue in i.runtimeBadValues
    && l.systemValue in i.systemValues
  }

  /** How a listed block reads back: the table has one value each for factory, runtime and system blocks. */
  function Reported(b: Block): Block {
    Block(b.flat, match b.disposition
                  case FactoryBad => FactoryBad
                  case SystemPreserved => SystemRebuild
                  case SystemRebuild => SystemRebuild
                  case _ => HistoricalRuntimeBad)
  }

  function AllReported(s: seq<Block>): (r: seq<Block>)
    ensures |r| == |s|
  {
    seq(|s|, i requires 0 <= i < |s| => Reported(s[i]))
  }

  lemma EntryReadsBack(t: seq<byte>, k: nat, b: Block, l: TableLayout, i: InputLayout, g: NandGeometry, total: nat)
    requires g.HasPlanes() && TableLayoutValid(l) && InputLayoutValid(i) && Describes(i, l)
    requires EntryHolds(t, EntryBase(|l.header|, l.stride, k), b, l, g) && b.flat < total
    ensures DecodeEntry(t, k, i, g, total) == Ok(Reported(b))
  {
    hide DecodeBlockAddress, EntryBase, RangesDisjoint, Checksum.Width, AddressLayoutValid, GapsFilled;
  }

  lemma DistinctGrows(front: seq<Block>, b: Block)
    ensures Distinct(front + [b]) <==> Distinct(front) && b.flat !in Flats(front)
  {
    var s := front + [b];
    if Distinct(s) {
      forall i, j | 0 <= i < j < |front|
        ensures front[i].flat != front[j].flat
      {
        assert s[i].flat != s[j].flat;
      }
      forall x | x in front
        ensures x.flat != b.flat
      {
        var i :| 0 <= i < |front| && front[i] == x;
        assert s[i].flat != s[|front|].flat;
      }
    }
  }

  lemma ReportedFlats(s: seq<Block>)
    ensures Flats(AllReported(s)) == Flats(s)
  {
    forall f | f in Flats(s)
      ensures f in Flats(AllReported(s))
    {
      var i :| 0 <= i < |s| && s[i].flat == f;
      assert AllReported(s)[i] in AllReported(s);
    }
    forall f | f in Flats(AllReported(s))
      ensures f in Flats(s)
    {
      var i :| 0 <= i < |s| && AllReported(s)[i].flat == f;
      assert s[i] in s;
    }
  }

  lemma {:induction false} EntriesReadBack(
    t: seq<byte>, entries: seq<Block>, n: nat, i: InputLayout, g: NandGeometry, total: nat)
    requires g.HasPlanes() && InputLayoutValid(i) && n <= |entries|
    requires forall k :: 0 <= k < n ==> DecodeEntry(t, k, i, g, total) == Ok(Reported(entries[k]))
    ensures DecodeEntries(t, n, i, g, total).Ok? <==> Distinct(entries[..n])
    ensures DecodeEntries(t, n, i, g, total).Ok? ==> DecodeEntries(t, n, i, g, total).value == AllReported(entries[..n])
  {
    hide DecodeEntry, InputLayoutValid, Distinct, Flats;
    if n == 0 {
      NoneReported(entries);
    } else {
      var front, b := entries[..n - 1], entries[n - 1];
      EntriesReadBack(t, entries, n - 1, i, g, total);
      assert entries[..n] == front + [b];
      DistinctGrows(front, b);
      ReportedFlats(front);
      assert AllReported(front + [b]) == AllReported(front) + [Reported(b)];
    }
  }

  lemma NoneReported(entries: seq<Block>)
    ensures Distinct(entries[..0]) && AllReported(entries[..0]) == []
  {
  }

  /**
   * A table decodes exactly when its blocks are distinct and the reader admits that many entries, and then to the
   * listed blocks in increasing flat order, each in its class.
   */
  lemma TableReadsBack(
    t: seq<byte>, marker: byte, blocks: seq<Block>, generation: u64, l: TableLayout, i: InputLayout, g: NandGeometry)
    requires g.HasPlanes() && TableLayoutValid(l) && InputLayoutValid(i) && Describes(i, l) && TotalBlocks(g).Ok?
    requires TableHolds(t, marker, blocks, generation, l, g)
    requires forall b :: b in Entries(blocks) ==> b.flat < TotalBlocks(g).value
    ensures DecodeTable(t, i, g).Ok? <==> Distinct(Filtered(blocks)) && |Entries(blocks)| <= i.maximumEntries
    ensures DecodeTable(t, i, g).Ok? ==> DecodeTable(t, i, g).value == AllReported(Entries(blocks))
  {
    hide Entries, EntryHolds, GetField, ChecksumValid, RangesDisjoint, AddressLayoutValid, Checksum.Width,
      DecodeEntry, DecodeEntries, EntryBase, TotalBlocks, Flats;
    var entries, total := Entries(blocks), TotalBlocks(g).value;
    EntriesAreListed(blocks);
    forall k | 0 <= k < |entries|
      ensures DecodeEntry(t, k, i, g, total) == Ok(Reported(entries[k]))
    {
      assert entries[k] in entries;
      EntryReadsBack(t, k, entries[k], l, i, g, total);
    }
    EntriesReadBack(t, entries, |entries|, i, g, total);
    assert entries[..|entries|] == entries;
    if Distinct(entries) {
      FewEntries(entries, total);
    }
  }

  lemma FewEntries(entries: seq<Block>, total: nat)
    requires Distinct(entries) && forall b :: b in entries ==> b.flat < total
    ensures |entries| <= total
  {
    FlatsCount(entries);
    Pigeonhole(Flats(entries), total);
  }

  lemma {:induction false} EncodedInRange(buf: seq<byte>, entries: seq<Block>, l: TableLayout, g: NandGeometry)
    requires g.HasPlanes() && TableLayoutValid(l) && EntryBase(|l.header|, l.stride, |entries|) <= |buf|
    requires PutEntries(buf, entries, l, g).Ok?
    ensures forall b :: b in entries ==> TotalBlocks(g).Ok? && b.flat < TotalBlocks(g).value
  {
    hide TotalBlocks, TableLayoutValid, EntryBase, PutAll, Fields, Values, Peel;
    if entries != [] {
      var n := |entries| - 1;
      EntriesFit(|l.header|, l.stride, n, |entries|);
      EncodedInRange(buf, entries[..n], l, g);
      assert entries == entries[..n] + [entries[n]];
    }
  }

  /** `r` is the listed blocks of `blocks`, each once, in increasing flat order and in its class. */
  ghost predicate ListsExactly(r: seq<Block>, blocks: seq<Block>) {
    && (forall j, k :: 0 <= j < k < |r| ==> r[j].flat < r[k].flat)
    && (forall b :: b in blocks && Listed(b.disposition) ==> Reported(b) in r)
    && (forall x :: x in r ==> exists b :: b in blocks && Listed(b.disposition) && x == Reported(b))
  }

  /**
   * The table round trip. Whenever a table is built, the table as built and the table with its commit marker set both
   * decode exactly when the listed blocks are distinct, the reader admits that many and the geometry has a total; the
   * result is the listed blocks, each once, in increasing flat order and in its class.
   */
  lemma BbtRoundTrip(blocks: seq<Block>, generation: u64, l: TableLayout, i: InputLayout, g: NandGeometry, marker: byte)
    requires g.HasPlanes() && TableLayoutValid(l) && InputLayoutValid(i) && Describes(i, l)
    requires BbtBytes(blocks, generation, l, g).Ok? && marker in {l.prepareValue, l.commitValue}
    ensures l.commitOffset < |BbtBytes(blocks, generation, l, g).value|
    ensures var committed := Committed(BbtBytes(blocks, generation, l, g).value, l.commitOffset, marker);
            var decoded := DecodeTable(committed, i, g);
            && (decoded.Ok? <==>
                TotalBlocks(g).Ok? && Distinct(Filtered(blocks)) && |Entries(blocks)| <= i.maximumEntries)
            && (decoded.Ok? ==> ListsExactly(decoded.value, blocks))
  {
    hide Entries, Filtered, TableHolds, DecodeEntries, EntryBase, TotalBlocks, Describes, InputLayoutValid,
      ListsExactly, BbtBytes, TableLayoutValid, GetInteger;
    var t := BbtBytes(blocks, generation, l, g).value;
    BuiltTableHolds(blocks, generation, l, g);
    TableHasSize(t, l.prepareValue, blocks, generation, l, g);
    CommitKeepsTable(t, l.prepareValue, marker, blocks, generation, l, g);
    BuiltInRange(blocks, generation, l, g);
    if TotalBlocks(g).Ok? {
      TableReadsBack(Committed(t, l.commitOffset, marker), marker, blocks, generation, l, i, g);
      if Distinct(Filtered(blocks)) {
        ReportedInOrder(blocks);
      }
    }
  }

  lemma TableHasSize(t: seq<byte>, marker: byte, blocks: seq<Block>, generation: u64, l: TableLayout, g: NandGeometry)
    requires g.HasPlanes() && TableLayoutValid(l) && TableHolds(t, marker, blocks, generation, l, g)
    ensures |t| == l.maximumBytes && l.commitOffset < |t|
  {
    hide EntryHolds, Entries, EntryBase, ChecksumValid, RangesDisjoint, AddressLayoutValid, Checksum.Width;
  }

  lemma BuiltInRange(blocks: seq<Block>, generation: u64, l: TableLayout, g: NandGeometry)
    requires g.HasPlanes() && TableLayoutValid(l) && BbtBytes(blocks, generation, l, g).Ok?
    ensures forall b :: b in Entries(blocks) ==> TotalBlocks(g).Ok? && b.flat < TotalBlocks(g).value
  {
    hide TotalBlocks, Entries, PutEntries, EntryBase, PutField, Checksummed, RangesDisjoint, AddressLayoutValid,
      Checksum.Width;
    var blank := l.header + Filled(l.fill, l.maximumBytes - |l.header|);
    var numbered := PutField(blank, l.generation, generation).value;
    var counted := PutField(numbered, l.count, |Entries(blocks)|).value;
    EncodedInRange(counted, Entries(blocks), l, g);
  }

  lemma ReportedInOrder(blocks: seq<Block>)
    requires Distinct(Filtered(blocks))
    ensures ListsExactly(AllReported(Entries(blocks)), blocks)
  {
    hide Entries, Filtered, Listed;
    EntriesAreListed(blocks);
    var entries, r := Entries(blocks), AllReported(Entries(blocks));
    forall b | b in blocks && Listed(b.disposition)
      ensures Reported(b) in r
    {
      var k :| 0 <= k < |entries| && entries[k] == b;
      assert r[k] == Reported(b);
    }
    forall x | x in r
      ensures exists b :: b in blocks && Listed(b.disposition) && x == Reported(b)
    {
      var k :| 0 <= k < |r| && r[k] == x;
      assert entries[k] in entries;
    }
  }

  // ----- Block by block -----

  /** The dispositions that keep a block out of the table, one by one. */
  predicate LeftOut(d: Disposition) { d == Unknown || d == Data || d == Erased || d == Qualified }

  /** What a decoded table says, class by class, about the blocks it was built from. */
  ghost predicate SaysOf(r: seq<Block>, blocks: seq<Block>, flat: u64) {
    && (Block(flat, FactoryBad) in r <==> Block(flat, FactoryBad) in blocks)
    && (Block(flat, HistoricalRuntimeBad) in r <==>
        Block(flat, HistoricalRuntimeBad) in blocks || Block(flat, Quarantined) in blocks)
    && (Block(flat, SystemRebuild) in r
        <==> Block(flat, SystemPreserved) in blocks || Block(flat, SystemRebuild) in blocks)
    && (forall x :: x in r ==> x.disposition in {FactoryBad, HistoricalRuntimeBad, SystemRebuild})
  }

  lemma ListsByClass(r: seq<Block>, blocks: seq<Block>, flat: u64)
    requires ListsExactly(r, blocks)
    ensures SaysOf(r, blocks, flat)
  {
    if Block(flat, FactoryBad) in r {
      var b :| b in blocks && Listed(b.disposition) && Block(flat, FactoryBad) == Reported(b);
      assert b == Block(flat, FactoryBad);
    }
    if Block(flat, HistoricalRuntimeBad) in r {
      var b :| b in blocks && Listed(b.disposition) && Block(flat, HistoricalRuntimeBad) == Reported(b);
      assert b == Block(flat, HistoricalRuntimeBad) || b == Block(flat, Quarantined);
    }
    if Block(flat, SystemRebuild) in r {
      var b :| b in blocks && Listed(b.disposition) && Block(flat, SystemRebuild) == Reported(b);
      assert b == Block(flat, SystemPreserved) || b == Block(flat, SystemRebuild);
    }
    forall d: Disposition | Block(flat, d) in blocks && Listed(d)
      ensures Reported(Block(flat, d)) in r
    {
    }
    forall x | x in r
      ensures x.disposition in {FactoryBad, HistoricalRuntimeBad, SystemRebuild}
    {
      var b :| b in blocks && Listed(b.disposition) && x == Reported(b);
    }
  }

  function Kept(blocks: seq<Block>): nat {
    if blocks == [] then 0
    else Kept(blocks[..|blocks| - 1]) + if LeftOut(blocks[|blocks| - 1].disposition) then 0 else 1
  }

  predicate KeptApart(blocks: seq<Block>) {
    forall j, k :: 0 <= j < k < |blocks| && !LeftOut(blocks[j].disposition) && !LeftOut(blocks[k].disposition) ==>
                     blocks[j].flat != blocks[k].flat
  }

  lemma {:induction false} KeptCount(blocks: seq<Block>)
    ensures |Filtered(blocks)| == Kept(blocks)
  {
    if blocks != [] {
      KeptCount(blocks[..|blocks| - 1]);
    }
  }

  lemma {:induction false} KeptApartIff(blocks: seq<Block>)
    ensures Distinct(Filtered(blocks)) <==> KeptApart(blocks)
  {
    hide Distinct, KeptApart, Flats;
    if blocks == [] {
      NothingKept();
    } else {
      var front, last := blocks[..|blocks| - 1], blocks[|blocks| - 1];
      KeptApartIff(front);
      OneMoreApart(front, last);
      KeptFlats(front, last.flat);
      DistinctGrows(Filtered(front), last);
      assert blocks == front + [last];
      assert Filtered(blocks) == if LeftOut(last.disposition) then Filtered(front) else Filtered(front) + [last];
    }
  }

  lemma NothingKept()
    ensures Distinct(Filtered([])) && KeptApart([])
  {
  }

  lemma KeptFlats(blocks: seq<Block>, flat: u64)
    ensures flat in Flats(Filtered(blocks)) <==> exists b :: b in blocks && !LeftOut(b.disposition) && b.flat == flat
  {
    hide Filtered;
    FilteredIsListed(blocks);
  }

  lemma OneMoreApart(front: seq<Block>, last: Block)
    ensures KeptApart(front + [last]) <==>
            && KeptApart(front)
            && (LeftOut(last.disposition) || !exists b :: b in front && !LeftOut(b.disposition) && b.flat == last.flat)
  {
    hide LeftOut;
    var s := front + [last];
    if KeptApart(s) {
      assert forall j :: 0 <= j < |front| ==> s[j] == front[j];
      forall b | b in front && !LeftOut(b.disposition) && !LeftOut(last.disposition)
        ensures b.flat != last.flat
      {
        var j :| 0 <= j < |front| && front[j] == b;
        assert s[j] == b && s[|front|] == last;
      }
    }
  }

  /**
   * Which blocks a table that reads back names, and as what: factory-bad blocks as factory bad, runtime-bad and
   * quarantined ones as runtime bad, both kinds of system blocks as system. A block is absent exactly when it is
   * unknown, data, erased or qualified.
   */
  lemma TableNamesBlocks(
    blocks: seq<Block>, generation: u64, l: TableLayout, i: InputLayout, g: NandGeometry, marker: byte, b: Block)
    requires g.HasPlanes() && TableLayoutValid(l) && InputLayoutValid(i) && Describes(i, l)
    requires BbtBytes(blocks, generation, l, g).Ok? && marker in {l.prepareValue, l.commitValue}
    requires b in blocks && forall x :: x in blocks && x.flat == b.flat ==> x == b
    ensures l.commitOffset < |BbtBytes(blocks, generation, l, g).value|
    ensures var committed := Committed(BbtBytes(blocks, generation, l, g).value, l.commitOffset, marker);
            var decoded := DecodeTable(committed, i, g);
            && (decoded.Ok? <==> TotalBlocks(g).Ok? && KeptApart(blocks) && Kept(blocks) <= i.maximumEntries)
            && (decoded.Ok? ==>
                && (forall flat :: SaysOf(decoded.value, blocks, flat))
                && (LeftOut(b.disposition) <==> forall x :: x in decoded.value ==> x.flat != b.flat))
  {
    hide BbtBytes, DecodeTable, TableLayoutValid, InputLayoutValid, Describes, ListsExactly, Filtered, Entries,
      Distinct, SaysOf, Kept, KeptApart, TotalBlocks;
    EntriesAreListed(blocks);
    SameSize(Entries(blocks), Filtered(blocks));
    KeptCount(blocks);
    KeptApartIff(blocks);
    BbtRoundTrip(blocks, generation, l, i, g, marker);
    var decoded := DecodeTable(Committed(BbtBytes(blocks, generation, l, g).value, l.commitOffset, marker), i, g);
    if decoded.Ok? {
      forall flat: u64
        ensures SaysOf(decoded.value, blocks, flat)
      {
        ListsByClass(decoded.value, blocks, flat);
      }
      AbsentIff(decoded.value, blocks, b);
    }
  }

  lemma SameSize(a: seq<Block>, b: seq<Block>)
    requires multiset(a) == multiset(b)
    ensures |a| == |b|
  {
    assert |multiset(a)| == |multiset(b)|;
  }

  lemma AbsentIff(r: seq<Block>, blocks: seq<Block>, b: Block)
    requires SaysOf(r, blocks, b.flat) && b in blocks && forall x :: x in blocks && x.flat == b.flat ==> x == b
    ensures LeftOut(b.disposition) <==> forall x :: x in r ==> x.flat != b.flat
  {
    if LeftOut(b.disposition) {
      forall x | x in r
        ensures x.flat != b.flat
      {
        assert x.flat == b.flat ==> x == Block(b.flat, x.disposition);
      }
    }
  }
}
