/** The complete physical-page sweep behind erase verification and salvage. */
module Sweep {
  import opened Wrappers
  import opened Bytes
  import opened Geometry
  import Metadata

  type Disposition = Metadata.Disposition

  const MAX_U64: nat := 0xFFFF_FFFF_FFFF_FFFF

  datatype SweepGeometry = SweepGeometry(
    blocks: u64, nand: NandGeometry, pagesPerBlock: u32, pageBytes: u32, oobBytes: u32)
  {
    function Stride(): nat { pageBytes + oobBytes }

    function TotalPages(): nat { blocks * pagesPerBlock }

    function ImageBytes(): nat { TotalPages() * Stride() }

    /** What the sweep checks before it reads anything. */
    predicate Valid(dispositions: seq<Disposition>) {
      && blocks > 0 && nand.channels > 0 && nand.chipsPerChannel > 0 && nand.lunsPerChip > 0
      && nand.HasPlanes() && nand.blocksPerLun > 0 && nand.blocksPerLun % nand.planesPerLun == 0
      && pagesPerBlock > 0 && pageBytes > 0
      && blocks == |dispositions|
      && TotalBlocks(nand) == Ok(blocks)
      && TotalPages() <= MAX_U64 && ImageBytes() <= MAX_U64
    }

    predicate Divisible() {
      nand.chipsPerChannel > 0 && nand.lunsPerChip > 0 && nand.blocksPerLun > 0 && nand.HasPlanes()
    }

    /** The sweep's own split of a flat number. */
    function AddressOf(flat: nat, page: nat): PageAddress
      requires Divisible()
    {
      var block, upper := Remainder(flat, nand.blocksPerLun), Quotient(flat, nand.blocksPerLun);
      var lun, rest := Remainder(upper, nand.lunsPerChip), Quotient(upper, nand.lunsPerChip);
      PageAddress(Quotient(rest, nand.chipsPerChannel), Remainder(rest, nand.chipsPerChannel), lun,
                  Remainder(block, nand.planesPerLun), block, page)
    }

    function PageGeometry(flat: nat, page: nat): Result<PageAddress>
      requires Divisible()
    {
      if flat >= blocks || page >= pagesPerBlock then Err(Invalid) else Ok(AddressOf(flat, page))
    }
  }

  /** Where a page lies, as the sweep reports it. */
  datatype PageAddress = PageAddress(channel: nat, chip: nat, lun: nat, plane: nat, block: nat, page: nat)

  datatype Ecc = EccUnknown | Correctable | Uncorrectable

  datatype Metrics = Metrics(correctedBits: u64, readRetries: u64, readLatency: u64, ecc: Ecc)

  /** What reading one page gave: raw bytes with metrics, or an error with its bounded message. */
  datatype Outcome = Read(raw: seq<byte>, metrics: Metrics) | Failed(message: seq<byte>)

  datatype Visit = Visit(flat: nat, page: nat, disposition: Disposition, outcome: Outcome)

  /** Factory-bad, preserved and unknown blocks are swept but need not be erased. */
  predicate ExpectedErased(d: Disposition) {
    !(d.Unknown? || d.FactoryBad? || d.SystemPreserved?)
  }

  function NonErased(raw: seq<byte>, erased: byte): nat {
    if raw == [] then 0 else NonErased(raw[..|raw| - 1], erased) + if raw[|raw| - 1] != erased then 1 else 0
  }

  // ----- Counters, as the sweep keeps them -----

  function Plus(a: u64, b: nat): u64 { if a + b <= MAX_U64 then a + b else MAX_U64 }

  function Max(a: u64, b: u64): u64 { if a >= b then a else b }

  datatype Tally = Tally(
    readable: u64, unreadable: u64, eccUnknown: u64, uncorrectable: u64,
    targetReadable: u64, targetUnreadable: u64, targetEccUnknown: u64, targetUncorrectable: u64,
    excludedUnreadable: u64, targetNonErased: u64, targetNonErasedBytes: u64, excludedNonErased: u64)

  datatype BlockTally = BlockTally(
    readable: u64, unreadable: u64, eccUnknown: u64, uncorrectable: u64, nonErased: u64, nonErasedBytes: u64,
    maxCorrectedBits: u64, maxReadRetries: u64, maxReadLatency: u64)

  function NoteTarget(t: Tally, ecc: Ecc, nonErased: nat): Tally {
    var read := t.(targetReadable := Plus(t.targetReadable, 1));
    var checked :=
      match ecc
      case EccUnknown => read.(targetEccUnknown := Plus(read.targetEccUnknown, 1))
      case Uncorrectable => read.(targetUncorrectable := Plus(read.targetUncorrectable, 1))
      case Correctable => read;
    if nonErased > 0
    then checked.(targetNonErased := Plus(checked.targetNonErased, 1),
                  targetNonErasedBytes := Plus(checked.targetNonErasedBytes, nonErased))
    else checked
  }

  /** Count one visited page. */
  function Note(t: Tally, v: Visit, erased: byte): Tally {
    match v.outcome
    case Read(raw, m) =>
      var n := NonErased(raw, erased);
      var read := t.(readable := Plus(t.readable, 1));
      var scoped :=
        if ExpectedErased(v.disposition) then NoteTarget(read, m.ecc, n)
        else if n > 0 then read.(excludedNonErased := Plus(read.excludedNonErased, 1)) else read;
      (match m.ecc
       case EccUnknown => scoped.(eccUnknown := Plus(scoped.eccUnknown, 1))
       case Uncorrectable => scoped.(uncorrectable := Plus(scoped.uncorrectable, 1))
       case Correctable => scoped)
    case Failed(_) =>
      var failed := t.(unreadable := Plus(t.unreadable, 1));
      if ExpectedErased(v.disposition) then failed.(targetUnreadable := Plus(failed.targetUnreadable, 1))
      else failed.(excludedUnreadable := Plus(failed.excludedUnreadable, 1))
  }

  function NoteBlock(b: BlockTally, v: Visit, erased: byte): BlockTally {
    match v.outcome
    case Read(raw, m) =>
      var n := NonErased(raw, erased);
      var read := b.(readable := Plus(b.readable, 1), maxCorrectedBits := Max(b.maxCorrectedBits, m.correctedBits),
                     maxReadRetries := Max(b.maxReadRetries, m.readRetries),
                     maxReadLatency := Max(b.maxReadLatency, m.readLatency));
      var scoped :=
        if n > 0
        then read.(nonErased := Plus(read.nonErased, 1), nonErasedBytes := Plus(read.nonErasedBytes, n))
        else read;
      (match m.ecc
       case EccUnknown => scoped.(eccUnknown := Plus(scoped.eccUnknown, 1))
       case Uncorrectable => scoped.(uncorrectable := Plus(scoped.uncorrectable, 1))
       case Correctable => scoped)
    case Failed(_) => b.(unreadable := Plus(b.unreadable, 1))
  }

  // ----- What the counters mean -----

  datatype Kind =
    | Readable | Unreadable | UnknownEcc | BadEcc
    | Target | TargetReadable | TargetUnreadable | TargetUnknownEcc | TargetBadEcc
    | ExcludedUnreadable | TargetDirty | ExcludedDirty | Dirty

  predicate Dirtied(v: Visit, erased: byte) { v.outcome.Read? && NonErased(v.outcome.raw, erased) > 0 }

  predicate HasEcc(v: Visit, ecc: Ecc) { v.outcome.Read? && v.outcome.metrics.ecc == ecc }

  predicate Is(k: Kind, v: Visit, erased: byte) {
    var target := ExpectedErased(v.disposition);
    match k
    case Readable => v.outcome.Read?
    case Unreadable => v.outcome.Failed?
    case UnknownEcc => HasEcc(v, EccUnknown)
    case BadEcc => HasEcc(v, Uncorrectable)
    case Target => target
    case TargetReadable => target && v.outcome.Read?
    case TargetUnreadable => target && v.outcome.Failed?
    case TargetUnknownEcc => target && HasEcc(v, EccUnknown)
    case TargetBadEcc => target && HasEcc(v, Uncorrectable)
    case ExcludedUnreadable => !target && v.outcome.Failed?
    case TargetDirty => target && Dirtied(v, erased)
    case ExcludedDirty => !target && Dirtied(v, erased)
    case Dirty => Dirtied(v, erased)
  }

  /** How many visits are of a kind. */
  function Count(k: Kind, visits: seq<Visit>, erased: byte): (n: nat)
    ensures n <= |visits|
  {
    if visits == [] then 0
    else Count(k, visits[..|visits| - 1], erased) + if Is(k, visits[|visits| - 1], erased) then 1 else 0
  }

  function DirtyBytes(v: Visit, erased: byte): nat {
    if v.outcome.Read? then NonErased(v.outcome.raw, erased) else 0
  }

  /** Non-erased bytes over visits, of all blocks or of target blocks only. */
  function SumBytes(visits: seq<Visit>, erased: byte, targetOnly: bool): nat {
    if visits == [] then 0
    else
      var v := visits[|visits| - 1];
      SumBytes(visits[..|visits| - 1], erased, targetOnly)
      + if !targetOnly || ExpectedErased(v.disposition) then DirtyBytes(v, erased) else 0
  }

  datatype Metric = CorrectedBits | Retries | Latency

  function MetricOf(m: Metrics, which: Metric): u64 {
    match which
    case CorrectedBits => m.correctedBits
    case Retries => m.readRetries
    case Latency => m.readLatency
  }

  /** The largest value of a metric over the pages that were read. */
  function Largest(visits: seq<Visit>, which: Metric): u64 {
    if visits == [] then 0
    else
      var v, rest := visits[|visits| - 1], Largest(visits[..|visits| - 1], which);
      if v.outcome.Read? then Max(rest, MetricOf(v.outcome.metrics, which)) else rest
  }

  lemma {:induction false} LargestIsMaximum(visits: seq<Visit>, which: Metric)
    ensures forall i :: 0 <= i < |visits| && visits[i].outcome.Read?
                        ==> MetricOf(visits[i].outcome.metrics, which) <= Largest(visits, which)
    ensures Largest(visits, which) == 0
            || exists i :: 0 <= i < |visits| && visits[i].outcome.Read?
                           && MetricOf(visits[i].outcome.metrics, which) == Largest(visits, which)
  {
    hide MetricOf;
    if visits != [] {
      var front := visits[..|visits| - 1];
      LargestIsMaximum(front, which);
      assert forall i :: 0 <= i < |front| ==> front[i] == visits[i];
    }
  }

  predicate Countable(visits: seq<Visit>, erased: byte) {
    |visits| <= MAX_U64 && SumBytes(visits, erased, true) <= MAX_U64 && SumBytes(visits, erased, false) <= MAX_U64
  }

  function Counts(visits: seq<Visit>, erased: byte): Tally
    requires Countable(visits, erased)
  {
    Tally(Count(Readable, visits, erased), Count(Unreadable, visits, erased),
          Count(UnknownEcc, visits, erased), Count(BadEcc, visits, erased),
          Count(TargetReadable, visits, erased), Count(TargetUnreadable, visits, erased),
          Count(TargetUnknownEcc, visits, erased), Count(TargetBadEcc, visits, erased),
          Count(ExcludedUnreadable, visits, erased), Count(TargetDirty, visits, erased),
          SumBytes(visits, erased, true), Count(ExcludedDirty, visits, erased))
  }

  function BlockCounts(visits: seq<Visit>, erased: byte): BlockTally
    requires Countable(visits, erased)
  {
    BlockTally(Count(Readable, visits, erased), Count(Unreadable, visits, erased),
               Count(UnknownEcc, visits, erased), Count(BadEcc, visits, erased),
               Count(Dirty, visits, erased), SumBytes(visits, erased, false),
               Largest(visits, CorrectedBits), Largest(visits, Retries), Largest(visits, Latency))
  }

  lemma CountableFront(visits: seq<Visit>, v: Visit, erased: byte)
    requires Countable(visits + [v], erased)
    ensures Countable(visits, erased)
  {
    assert (visits + [v])[..|visits|] == visits;
  }

  lemma CountLast(k: Kind, visits: seq<Visit>, v: Visit, erased: byte)
    ensures Count(k, visits + [v], erased) == Count(k, visits, erased) + if Is(k, v, erased) then 1 else 0
  {
    assert (visits + [v])[..|visits|] == visits;
  }

  /** Nothing saturates: counting a page brings the tally of the pages so far to that of one page more. */
  lemma NoteCounts(visits: seq<Visit>, v: Visit, erased: byte)
    requires Countable(visits + [v], erased)
    ensures Countable(visits, erased) && Note(Counts(visits, erased), v, erased) == Counts(visits + [v], erased)
  {
    hide Count, ExpectedErased;
    CountableFront(visits, v, erased);
    assert (visits + [v])[..|visits|] == visits;
    forall k: Kind
      ensures Count(k, visits + [v], erased) == Count(k, visits, erased) + if Is(k, v, erased) then 1 else 0
    {
      CountLast(k, visits, v, erased);
    }
  }

  lemma NoteBlockCounts(visits: seq<Visit>, v: Visit, erased: byte)
    requires Countable(visits + [v], erased)
    ensures Countable(visits, erased)
    ensures NoteBlock(BlockCounts(visits, erased), v, erased) == BlockCounts(visits + [v], erased)
  {
    hide Count, ExpectedErased;
    CountableFront(visits, v, erased);
    assert (visits + [v])[..|visits|] == visits;
    forall k: Kind
      ensures Count(k, visits + [v], erased) == Count(k, visits, erased) + if Is(k, v, erased) then 1 else 0
    {
      CountLast(k, visits, v, erased);
    }
  }
}
