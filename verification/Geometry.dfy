/** NAND geometry: block coordinates and flat block numbers. */
module Geometry {
  import opened Wrappers
  import opened Bytes

  /** The dimensions of the medium. Profiles with no planes per LUN are refused before any of this runs. */
  datatype NandGeometry = NandGeometry(
    channels: u32, chipsPerChannel: u32, lunsPerChip: u32, planesPerLun: u32, blocksPerLun: u32)
  {
    predicate HasPlanes() { planesPerLun > 0 }
  }

  datatype Coordinate = Coordinate(channel: nat, chip: nat, lun: nat, plane: nat, block: nat, flat: nat)

  function CheckedMul(a: nat, b: nat): Result<u64> {
    if a * b < 0x1_0000_0000_0000_0000 then Ok(a * b) else Err(Invalid)
  }

  function TotalBlocks(g: NandGeometry): Result<u64> {
    var chips :- CheckedMul(g.channels, g.chipsPerChannel);
    var luns :- CheckedMul(chips, g.lunsPerChip);
    CheckedMul(luns, g.blocksPerLun)
  }

  lemma Grows(a: nat, m: nat)
    requires m >= 1
    ensures a * m >= a
  {
  }

  lemma QuotientIsSmaller(x: nat, m: nat)
    requires m > 0
    ensures x / m <= x
  {
    assert x == (x / m) * m + x % m;
    Grows(x / m, m);
  }

  function Quotient(x: nat, m: nat): (q: nat)
    requires m > 0
    ensures q <= x
  {
    QuotientIsSmaller(x, m);
    x / m
  }

  function Remainder(x: nat, m: nat): (r: nat)
    requires m > 0
    ensures r == x % m && r < m && r <= x
  {
    x % m
  }

  /** Peel the block, the LUN and the chip off a flat number. */
  function Peel(flat: nat, g: NandGeometry): (c: Coordinate)
    requires g.chipsPerChannel > 0 && g.lunsPerChip > 0 && g.blocksPerLun > 0 && g.HasPlanes()
    ensures c.channel <= flat && c.chip <= flat && c.lun <= flat && c.plane <= flat && c.block <= flat
  {
    var block, luns := Remainder(flat, g.blocksPerLun), Quotient(flat, g.blocksPerLun);
    var lun, chips := Remainder(luns, g.lunsPerChip), Quotient(luns, g.lunsPerChip);
    var chip, channel := Remainder(chips, g.chipsPerChannel), Quotient(chips, g.chipsPerChannel);
    Coordinate(channel, chip, lun, Remainder(block, g.planesPerLun), block, flat)
  }

  function CoordinateOf(flat: nat, g: NandGeometry): Result<Coordinate>
    requires g.HasPlanes()
  {
    var total :- TotalBlocks(g);
    if flat >= total then Err(Invalid)
    else
      NonZero(flat, g);
      Ok(Peel(flat, g))
  }

  lemma NonZero(flat: nat, g: NandGeometry)
    requires TotalBlocks(g).Ok? && flat < TotalBlocks(g).value
    ensures g.channels > 0 && g.chipsPerChannel > 0 && g.lunsPerChip > 0 && g.blocksPerLun > 0
  {
  }

  lemma TotalIsProduct(g: NandGeometry)
    requires TotalBlocks(g).Ok?
    ensures TotalBlocks(g).value == g.channels * g.chipsPerChannel * g.lunsPerChip * g.blocksPerLun
  {
  }

  predicate InRange(channel: nat, chip: nat, lun: nat, block: nat, g: NandGeometry) {
    channel < g.channels && chip < g.chipsPerChannel && lun < g.lunsPerChip && block < g.blocksPerLun
  }

  function Flatten(channel: nat, chip: nat, lun: nat, block: nat, g: NandGeometry): nat {
    ((channel * g.chipsPerChannel + chip) * g.lunsPerChip + lun) * g.blocksPerLun + block
  }

  lemma AtLeastOnce(times: nat, m: nat)
    requires times >= 1
    ensures times * m >= m
  {
  }

  lemma NextMultiple(n: nat, m: nat)
    ensures (n + 1) * m == n * m + m
  {
  }

  lemma Distribute(a: int, b: int, m: int)
    ensures (a - b) * m == a * m - b * m
  {
  }

  lemma DivModUnique(q: nat, m: nat, r: nat)
    requires r < m
    ensures (q * m + r) / m == q && (q * m + r) % m == r
  {
    var x := q * m + r;
    var p, s := x / m, x % m;
    assert x == p * m + s;
    if p > q {
      Distribute(p, q, m);
      AtLeastOnce(p - q, m);
    } else if p < q {
      Distribute(q, p, m);
      AtLeastOnce(q - p, m);
    }
  }

  /** A digit below its radix keeps a mixed-radix number below the product. */
  lemma DigitBound(high: nat, highLimit: nat, low: nat, radix: nat)
    requires high < highLimit && low < radix
    ensures high * radix + low < highLimit * radix
  {
    Distribute(highLimit, high, radix);
    AtLeastOnce(highLimit - high, radix);
  }

  lemma QuotientBound(x: nat, limit: nat, radix: nat)
    requires radix > 0 && x < limit * radix
    ensures x / radix < limit && x == (x / radix) * radix + x % radix
  {
    var p := x / radix;
    if p > limit {
      Distribute(p, limit, radix);
      AtLeastOnce(p - limit, radix);
    }
  }

  /** Every flat block number below the total has one in-range coordinate, which flattens back to it. */
  lemma CoordinateFlattens(flat: nat, g: NandGeometry)
    requires g.HasPlanes() && CoordinateOf(flat, g).Ok?
    ensures var c := CoordinateOf(flat, g).value;
            && InRange(c.channel, c.chip, c.lun, c.block, g)
            && Flatten(c.channel, c.chip, c.lun, c.block, g) == flat
            && c.flat == flat && c.plane == c.block % g.planesPerLun
  {
    NonZero(flat, g);
    TotalIsProduct(g);
    var luns := flat / g.blocksPerLun;
    var chips := luns / g.lunsPerChip;
    QuotientBound(flat, g.channels * g.chipsPerChannel * g.lunsPerChip, g.blocksPerLun);
    QuotientBound(luns, g.channels * g.chipsPerChannel, g.lunsPerChip);
    QuotientBound(chips, g.channels, g.chipsPerChannel);
  }

  /** Every in-range coordinate is the coordinate of its flat number. */
  lemma FlattenedHasCoordinate(channel: nat, chip: nat, lun: nat, block: nat, g: NandGeometry)
    requires g.HasPlanes() && InRange(channel, chip, lun, block, g) && TotalBlocks(g).Ok?
    ensures var flat := Flatten(channel, chip, lun, block, g);
            && flat < TotalBlocks(g).value
            && CoordinateOf(flat, g) == Ok(Coordinate(channel, chip, lun, block % g.planesPerLun, block, flat))
  {
    TotalIsProduct(g);
    var chips := channel * g.chipsPerChannel + chip;
    var luns := chips * g.lunsPerChip + lun;
    DigitBound(channel, g.channels, chip, g.chipsPerChannel);
    DigitBound(chips, g.channels * g.chipsPerChannel, lun, g.lunsPerChip);
    DigitBound(luns, g.channels * g.chipsPerChannel * g.lunsPerChip, block, g.blocksPerLun);
    DivModUnique(luns, g.blocksPerLun, block);
    DivModUnique(chips, g.lunsPerChip, lun);
    DivModUnique(channel, g.chipsPerChannel, chip);
  }
}
