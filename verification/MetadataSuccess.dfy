/** Exactly when a payload can be built under an accepted layout. */
module MetadataSuccess {
  import opened Bytes
  import opened Geometry
  import opened FieldCodec
  import opened Metadata
  import opened MetadataTheorems
  import Checksum

  /** The block has a coordinate, and every part of it fits the address field that carries it. */
  predicate Addressable(a: AddressLayout, flat: nat, g: NandGeometry)
    requires g.HasPlanes()
  {
    && CoordinateOf(flat, g).Ok?
    && (a.CoordinatesWithPlane? ==> g.blocksPerLun % g.planesPerLun == 0)
    && forall i :: 0 <= i < |Fields(a)| ==> FitsIn(Values(a, CoordinateOf(flat, g).value, g)[i], Fields(a)[i].width)
  }

  lemma {:induction false} PutEntriesSucceedIff(buf: seq<byte>, entries: seq<Block>, l: TableLayout, g: NandGeometry)
    requires g.HasPlanes() && TableLayoutValid(l) && EntryBase(|l.header|, l.stride, |entries|) <= |buf|
    ensures PutEntries(buf, entries, l, g).Ok? <==> forall b :: b in entries ==> Addressable(l.address, b.flat, g)
  {
    hide EntryBase, RangesDisjoint, CoverageValid, Checksum.Width, Addressable, EncodeBlockAddress;
    if entries != [] {
      var n := |entries| - 1;
      EntriesFit(|l.header|, l.stride, n, |entries|);
      PutEntriesSucceedIff(buf, entries[..n], l, g);
      assert entries == entries[..n] + [entries[n]];
      if PutEntries(buf, entries[..n], l, g).Ok? {
        var before := PutEntries(buf, entries[..n], l, g).value;
        EncodesIff(before, EntryBase(|l.header|, l.stride, n), l.address, entries[n].flat, g, l.stride);
      }
    }
  }

  lemma EncodesIff(buf: seq<byte>, base: nat, a: AddressLayout, flat: nat, g: NandGeometry, stride: nat)
    requires g.HasPlanes() && AddressLayoutValid(a, stride) && base + stride <= |buf|
    ensures EncodeBlockAddress(buf, base, a, flat, g).Ok? <==> Addressable(a, flat, g)
  {
    hide PutAll, CoordinateOf, Fields, Values, FitsIn;
    if CoordinateOf(flat, g).Ok? {
      PutAllSucceedsIff(buf, base, Fields(a), Values(a, CoordinateOf(flat, g).value, g), stride);
    }
  }

  /** A checksum always fits its own field. */
  lemma ChecksumFits(a: Checksum.Algorithm, data: seq<byte>)
    requires Checksum.Width(a).Some?
    ensures Checksum.ChecksumValue(a, data).Ok?
    ensures FitsIn(Checksum.ChecksumValue(a, data).value, Checksum.Width(a).value)
  {
    hide Checksum.WordValue, Checksum.Width;
  }

  lemma ChecksummedSucceeds(buf: seq<byte>, c: ChecksumLayout)
    requires Checksum.Width(c.algorithm).Some? && RangeFits(c.offset, Checksum.Width(c.algorithm).value, |buf|)
    requires c.start + c.length <= |buf|
    ensures Checksummed(buf, c).Ok?
  {
    hide Checksum.Width, Checksum.ChecksumValue, EncodeInt, Overwrite;
    var zeroed := Zeroed(buf, c).value;
    ChecksumFits(c.algorithm, zeroed[c.start..c.start + c.length]);
  }

  /**
   * Building a table fails exactly when it is too long for its payload, when the generation or the entry count does not
   * fit its field, or when a listed block lies outside the geometry or does not fit the address fields.
   */
  lemma BbtIsBuiltIff(blocks: seq<Block>, generation: u64, l: TableLayout, g: NandGeometry)
    requires g.HasPlanes() && TableLayoutValid(l)
    ensures BbtBytes(blocks, generation, l, g).Ok? <==>
            && |l.header| + |Entries(blocks)| * l.stride <= l.maximumBytes
            && FitsIn(generation, l.generation.width) && FitsIn(|Entries(blocks)|, l.count.width)
            && forall b :: b in blocks && Listed(b.disposition) ==> Addressable(l.address, b.flat, g)
  {
    hide Entries, Filtered, Listed, PutEntries, Checksummed, RangesDisjoint, AddressLayoutValid, Checksum.Width,
      Addressable, Overwrite, EncodeInt, FitsIn;
    var entries := Entries(blocks);
    EntriesAreListed(blocks);
    var blank := l.header + Filled(l.fill, l.maximumBytes - |l.header|);
    PutSucceedsIff(blank, l.generation.offset, l.generation.width, l.generation.endian, generation);
    if PutField(blank, l.generation, generation).Ok? {
      var numbered := PutField(blank, l.generation, generation).value;
      PutSucceedsIff(numbered, l.count.offset, l.count.width, l.count.endian, |entries|);
      if PutField(numbered, l.count, |entries|).Ok? && EntryBase(|l.header|, l.stride, |entries|) <= l.maximumBytes {
        PutEntriesSucceedIff(PutField(numbered, l.count, |entries|).value, entries, l, g);
      }
    }
    if TableBody(blocks, generation, l, g).Ok? {
      ChecksummedSucceeds(TableBody(blocks, generation, l, g).value[l.commitOffset := l.prepareValue], l.checksum);
    }
  }

  /** Building an FTL payload fails exactly when the table has no commit byte or a number does not fit its field. */
  lemma FtlIsBuiltIff(v: FtlValues, bbt: seq<byte>, table: TableLayout, l: FtlLayout, h: Hash)
    requires FtlLayoutValid(l) && h.Sound()
    ensures FtlBytes(v, bbt, table, l, h).Ok? <==>
            && table.commitOffset < |bbt|
            && FitsIn(v.generation, l.generation.width) && FitsIn(v.userBlocks, l.userBlocks.width)
            && FitsIn(v.spareBlocks, l.spareBlocks.width)
  {
    hide Checksummed, RangesDisjoint, Checksum.Width, Overwrite, EncodeInt, FitsIn;
    if table.commitOffset < |bbt| {
      var blank := l.header + Filled(l.fill, l.totalBytes - |l.header|);
      PutSucceedsIff(blank, l.generation.offset, l.generation.width, l.generation.endian, v.generation);
      if PutField(blank, l.generation, v.generation).Ok? {
        var b1 := PutField(blank, l.generation, v.generation).value;
        PutSucceedsIff(b1, l.userBlocks.offset, l.userBlocks.width, l.userBlocks.endian, v.userBlocks);
        if PutField(b1, l.userBlocks, v.userBlocks).Ok? {
          var b2 := PutField(b1, l.userBlocks, v.userBlocks).value;
          PutSucceedsIff(b2, l.spareBlocks.offset, l.spareBlocks.width, l.spareBlocks.endian, v.spareBlocks);
        }
      }
      if FtlBody(v, bbt, table, l, h).Ok? {
        ChecksummedSucceeds(FtlBody(v, bbt, table, l, h).value[l.commitOffset := l.prepareValue], l.checksum);
      }
    }
  }
}
