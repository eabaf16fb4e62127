/** What a completed sweep proves about the medium, and what the C4 grade may conclude from it. */
module SweepTheorems {
  import opened Wrappers
  import opened Bytes
  import opened Geometry
  import opened Sweep
  import opened SweepRun
  import Metadata

  // ----- Every page once, in order -----

  lemma {:induction false} PageAt(m: Medium, flat: nat, n: nat, page: nat)
    requires flat < |m.dispositions| && page < n
    ensures m.PagesOf(flat, n)[page] == m.VisitOf(flat, page)
  {
    if page < n - 1 {
      PageAt(m, flat, n - 1, page);
    }
  }

  lemma {:induction false} VisitAt(m: Medium, n: nat, flat: nat, page: nat)
    requires flat < n <= |m.dispositions| && page < m.pages
    ensures flat * m.pages + page < n * m.pages
    ensures m.BlocksUpTo(n)[flat * m.pages + page] == m.VisitOf(flat, page)
  {
    IndexFits(flat, n, page, m.pages);
    if flat == n - 1 {
      PageAt(m, flat, m.pages, page);
    } else {
      VisitAt(m, n - 1, flat, page);
    }
  }

  /** The sweep visits `blocks * pages` pages: page `page` of block `flat` is visit number `flat * pages + page`. */
  lemma EveryPageOnceInOrder(m: Medium, i: nat)
    requires m.pages > 0 && i < |m.Visits()|
    ensures i / m.pages < |m.dispositions| && i % m.pages < m.pages
    ensures m.Visits()[i] == m.VisitOf(i / m.pages, i % m.pages)
  {
    QuotientBound(i, |m.dispositions|, m.pages);
    VisitAt(m, |m.dispositions|, i / m.pages, i % m.pages);
  }

  // ----- Counters and what they mean -----

  lemma {:induction false} CountIsZeroIff(k: Kind, visits: seq<Visit>, erased: byte)
    ensures Count(k, visits, erased) == 0 <==> forall i :: 0 <= i < |visits| ==> !Is(k, visits[i], erased)
  {
    hide Is;
    if visits != [] {
      var front := visits[..|visits| - 1];
      CountIsZeroIff(k, front, erased);
      assert forall i :: 0 <= i < |front| ==> front[i] == visits[i];
    }
  }

  lemma {:induction false} NonErasedIsZeroIff(raw: seq<byte>, erased: byte)
    ensures NonErased(raw, erased) == 0 <==> forall i :: 0 <= i < |raw| ==> raw[i] == erased
  {
    if raw != [] {
      var front := raw[..|raw| - 1];
      NonErasedIsZeroIff(front, erased);
      assert forall i :: 0 <= i < |front| ==> front[i] == raw[i];
    }
  }

  lemma KindsSplit(v: Visit, erased: byte)
    ensures Is(Readable, v, erased) <==> !Is(Unreadable, v, erased)
    ensures Is(Target, v, erased) <==> Is(TargetReadable, v, erased) || Is(TargetUnreadable, v, erased)
    ensures !(Is(TargetReadable, v, erased) && Is(TargetUnreadable, v, erased))
    ensures Is(Unreadable, v, erased) <==> Is(TargetUnreadable, v, erased) || Is(ExcludedUnreadable, v, erased)
    ensures !(Is(TargetUnreadable, v, erased) && Is(ExcludedUnreadable, v, erased))
    ensures Is(Dirty, v, erased) <==> Is(TargetDirty, v, erased) || Is(ExcludedDirty, v, erased)
    ensures !(Is(TargetDirty, v, erased) && Is(ExcludedDirty, v, erased))
  {
  }

  lemma KindsNest(v: Visit, erased: byte)
    ensures Is(TargetReadable, v, erased) ==> Is(Readable, v, erased)
    ensures Is(UnknownEcc, v, erased) || Is(BadEcc, v, erased) ==> Is(Readable, v, erased)
    ensures !(Is(UnknownEcc, v, erased) && Is(BadEcc, v, erased))
    ensures Is(TargetUnknownEcc, v, erased) ==> Is(UnknownEcc, v, erased) && Is(TargetReadable, v, erased)
    ensures Is(TargetBadEcc, v, erased) ==> Is(BadEcc, v, erased) && Is(TargetReadable, v, erased)
    ensures Is(TargetDirty, v, erased) ==> Is(TargetReadable, v, erased)
  {
  }

  /** Which counts split another. */
  lemma {:induction false} CountsSplit(visits: seq<Visit>, erased: byte)
    ensures Count(Readable, visits, erased) + Count(Unreadable, visits, erased) == |visits|
    ensures Count(TargetReadable, visits, erased) + Count(TargetUnreadable, visits, erased)
            == Count(Target, visits, erased)
    ensures Count(TargetUnreadable, visits, erased) + Count(ExcludedUnreadable, visits, erased)
            == Count(Unreadable, visits, erased)
    ensures Count(TargetDirty, visits, erased) + Count(ExcludedDirty, visits, erased) == Count(Dirty, visits, erased)
  {
    hide Is;
    if visits != [] {
      CountsSplit(visits[..|visits| - 1], erased);
      KindsSplit(visits[|visits| - 1], erased);
    }
  }

  /** Which counts bound another. */
  lemma {:induction false} CountsNest(visits: seq<Visit>, erased: byte)
    ensures Count(TargetReadable, visits, erased) <= Count(Readable, visits, erased)
    ensures Count(UnknownEcc, visits, erased) + Count(BadEcc, visits, erased) <= Count(Readable, visits, erased)
    ensures Count(TargetUnknownEcc, visits, erased) <= Count(UnknownEcc, visits, erased)
    ensures Count(TargetUnknownEcc, visits, erased) + Count(TargetBadEcc, visits, erased)
            <= Count(TargetReadable, visits, erased)
    ensures Count(TargetBadEcc, visits, erased) <= Count(BadEcc, visits, erased)
    ensures Count(TargetDirty, visits, erased) <= Count(TargetReadable, visits, erased)
  {
    hide Is;
    if visits != [] {
      CountsNest(visits[..|visits| - 1], erased);
      KindsNest(visits[|visits| - 1], erased);
    }
  }

  /** A page read with a correctable verdict and holding the erased byte only. */
  predicate CleanPage(o: Outcome, erased: byte) {
    && o.Read? && o.metrics.ecc == Correctable
    && forall i :: 0 <= i < |o.raw| ==> o.raw[i] == erased
  }

  predicate CleanVisit(v: Visit, erased: byte) { ExpectedErased(v.disposition) ==> CleanPage(v.outcome, erased) }

  lemma CleanVisitIff(v: Visit, erased: byte)
    ensures CleanVisit(v, erased) <==>
            && !Is(TargetUnreadable, v, erased) && !Is(TargetUnknownEcc, v, erased)
            && !Is(TargetBadEcc, v, erased) && !Is(TargetDirty, v, erased)
  {
    hide ExpectedErased;
    if v.outcome.Read? {
      NonErasedIsZeroIff(v.outcome.raw, erased);
    }
  }

  lemma TargetsCleanIff(visits: seq<Visit>, erased: byte)
    ensures (forall i :: 0 <= i < |visits| ==> CleanVisit(visits[i], erased)) <==>
            && Count(TargetUnreadable, visits, erased) == 0 && Count(TargetUnknownEcc, visits, erased) == 0
            && Count(TargetBadEcc, visits, erased) == 0 && Count(TargetDirty, visits, erased) == 0
  {
    hide Count, Is, CleanVisit;
    CountIsZeroIff(TargetUnreadable, visits, erased);
    CountIsZeroIff(TargetUnknownEcc, visits, erased);
    CountIsZeroIff(TargetBadEcc, visits, erased);
    CountIsZeroIff(TargetDirty, visits, erased);
    forall i | 0 <= i < |visits|
      ensures CleanVisit(visits[i], erased) <==>
              && !Is(TargetUnreadable, visits[i], erased) && !Is(TargetUnknownEcc, visits[i], erased)
              && !Is(TargetBadEcc, visits[i], erased) && !Is(TargetDirty, visits[i], erased)
    {
      CleanVisitIff(visits[i], erased);
    }
  }

  /** The six kinds of block that a completed erase leaves blank. */
  predicate MustBeErased(d: Disposition) {
    match d
    case HistoricalRuntimeBad => true
    case SystemRebuild => true
    case Data => true
    case Erased => true
    case Qualified => true
    case Quarantined => true
    case Unknown => false
    case FactoryBad => false
    case SystemPreserved => false
  }

  lemma ScopeIs(d: Disposition)
    ensures ExpectedErased(d) <==> MustBeErased(d)
  {
  }

  /** Every page of every such block was read, correctable and erased throughout. */
  predicate ScopeErased(m: Medium, erased: byte) {
    forall flat, page :: 0 <= flat < |m.dispositions| && 0 <= page < m.pages && MustBeErased(m.dispositions[flat])
                         ==> CleanPage(m.read(flat, page), erased)
  }

  lemma ScopeErasedIff(m: Medium, erased: byte)
    ensures ScopeErased(m, erased) <==> forall i :: 0 <= i < |m.Visits()| ==> CleanVisit(m.Visits()[i], erased)
  {
    hide ExpectedErased, MustBeErased, CleanPage;
    forall d: Disposition
      ensures ExpectedErased(d) <==> MustBeErased(d)
    {
      ScopeIs(d);
    }
    if forall i :: 0 <= i < |m.Visits()| ==> CleanVisit(m.Visits()[i], erased) {
      forall flat, page | 0 <= flat < |m.dispositions| && 0 <= page < m.pages && MustBeErased(m.dispositions[flat])
        ensures CleanPage(m.read(flat, page), erased)
      {
        VisitAt(m, |m.dispositions|, flat, page);
        assert CleanVisit(m.Visits()[flat * m.pages + page], erased);
      }
    }
    if ScopeErased(m, erased) {
      forall i | 0 <= i < |m.Visits()|
        ensures CleanVisit(m.Visits()[i], erased)
      {
        SomePage(m);
        EveryPageOnceInOrder(m, i);
      }
    }
  }

  lemma SomePage(m: Medium)
    requires |m.Visits()| > 0
    ensures m.pages > 0
  {
  }

  /** The erased verdict is exact: it is given if and only if every page in scope is clean. */
  lemma ErasedScopeVerifiedIff(
    r: Report, m: Medium, g: SweepGeometry, erased: byte, salvage: bool, h: Metadata.Hash)
    requires Reports(r, m, g, erased, salvage, h)
    ensures r.ErasedScopeVerified() <==> ScopeErased(m, erased)
  {
    hide Count, BlocksReported, Stream, Image, PageMap, ScopeErased, CleanVisit, Countable, SweepGeometry.Divisible;
    CountsSplit(m.Visits(), erased);
    TargetsCleanIff(m.Visits(), erased);
    ScopeErasedIff(m, erased);
  }

  function BlocksInScope(dispositions: seq<Disposition>): nat {
    if dispositions == [] then 0
    else BlocksInScope(dispositions[..|dispositions| - 1])
         + if MustBeErased(dispositions[|dispositions| - 1]) then 1 else 0
  }

  lemma {:induction false} TargetsUpTo(m: Medium, n: nat, erased: byte)
    requires n <= |m.dispositions|
    ensures Count(Target, m.BlocksUpTo(n), erased) == BlocksInScope(m.dispositions[..n]) * m.pages
  {
    hide Is, MustBeErased, ExpectedErased;
    if n == 0 {
      assert Count(Target, [], erased) == 0;
    } else {
      TargetsUpTo(m, n - 1, erased);
      ScopeIs(m.dispositions[n - 1]);
      TargetsOf(m, n - 1, m.pages, erased);
      CountAppend(Target, m.BlocksUpTo(n - 1), m.PagesOf(n - 1, m.pages), erased);
      assert m.dispositions[..n][..n - 1] == m.dispositions[..n - 1];
      NextMultiple(BlocksInScope(m.dispositions[..n - 1]), m.pages);
    }
  }

  /** The target pages are all pages of the blocks in scope. */
  lemma TargetPagesAreScope(r: Report, m: Medium, g: SweepGeometry, erased: byte, salvage: bool, h: Metadata.Hash)
    requires Reports(r, m, g, erased, salvage, h)
    ensures r.targetPages == BlocksInScope(m.dispositions) * m.pages
  {
    hide Count, BlocksReported, Stream, Image, PageMap, Countable, SweepGeometry.Divisible;
    TargetsUpTo(m, |m.dispositions|, erased);
    assert m.dispositions[..|m.dispositions|] == m.dispositions;
  }

  /** The three flags over all pages, whatever their block: an unreadable page spoils only the first. */
  lemma FlagsAreExact(r: Report, m: Medium, g: SweepGeometry, erased: byte, salvage: bool, h: Metadata.Hash)
    requires Reports(r, m, g, erased, salvage, h)
    ensures r.AllAddressesReadable() <==> forall i :: 0 <= i < |m.Visits()| ==> m.Visits()[i].outcome.Read?
    ensures r.AllPagesEccKnown() <==> forall i :: 0 <= i < |m.Visits()| ==> !HasEcc(m.Visits()[i], EccUnknown)
    ensures r.AllPagesCorrectable() <==>
            forall i :: 0 <= i < |m.Visits()| && m.Visits()[i].outcome.Read? ==> HasEcc(m.Visits()[i], Correctable)
  {
    hide Count, BlocksReported, Stream, Image, PageMap, Countable, SweepGeometry.Divisible;
    CountIsZeroIff(Unreadable, m.Visits(), erased);
    CountIsZeroIff(UnknownEcc, m.Visits(), erased);
    CountIsZeroIff(BadEcc, m.Visits(), erased);
  }

  // ----- Blocks add up to the totals -----

  datatype Column = ReadableColumn | UnreadableColumn | UnknownEccColumn | BadEccColumn | DirtyColumn

  function KindOf(c: Column): Kind {
    match c
    case ReadableColumn => Readable
    case UnreadableColumn => Unreadable
    case UnknownEccColumn => UnknownEcc
    case BadEccColumn => BadEcc
    case DirtyColumn => Dirty
  }

  function Entry(b: BlockTally, c: Column): nat {
    match c
    case ReadableColumn => b.readable
    case UnreadableColumn => b.unreadable
    case UnknownEccColumn => b.eccUnknown
    case BadEccColumn => b.uncorrectable
    case DirtyColumn => b.nonErased
  }

  function ColumnSum(blocks: seq<BlockSummary>, c: Column): nat {
    if blocks == [] then 0 else ColumnSum(blocks[..|blocks| - 1], c) + Entry(blocks[|blocks| - 1].tally, c)
  }

  function ByteSum(blocks: seq<BlockSummary>): nat {
    if blocks == [] then 0 else ByteSum(blocks[..|blocks| - 1]) + blocks[|blocks| - 1].tally.nonErasedBytes
  }

  lemma {:induction false} BytesAppend(a: seq<Visit>, b: seq<Visit>, erased: byte, targetOnly: bool)
    ensures SumBytes(a + b, erased, targetOnly) == SumBytes(a, erased, targetOnly) + SumBytes(b, erased, targetOnly)
  {
    hide DirtyBytes, ExpectedErased;
    if b == [] {
      assert a + b == a;
    } else {
      assert (a + b)[..|a + b| - 1] == a + b[..|b| - 1];
      BytesAppend(a, b[..|b| - 1], erased, targetOnly);
    }
  }

  lemma {:induction false} ColumnsAddUp(
    blocks: seq<BlockSummary>, m: Medium, n: nat, g: SweepGeometry, erased: byte, c: Column)
    requires BlocksReported(blocks, m, n, g, erased)
    ensures ColumnSum(blocks, c) == Count(KindOf(c), m.BlocksUpTo(n), erased)
  {
    hide Count, SumBytes, Largest, Countable, SweepGeometry.AddressOf;
    if n == 0 {
      assert Count(KindOf(c), [], erased) == 0;
    } else {
      assert blocks[n - 1] == BlockReport(m, n - 1, g, erased);
      ColumnsAddUp(blocks[..n - 1], m, n - 1, g, erased, c);
      CountAppend(KindOf(c), m.BlocksUpTo(n - 1), m.PagesOf(n - 1, m.pages), erased);
    }
  }

  lemma NoBytes(erased: byte)
    ensures SumBytes([], erased, false) == 0
  {
  }

  lemma {:induction false} BytesAddUp(blocks: seq<BlockSummary>, m: Medium, n: nat, g: SweepGeometry, erased: byte)
    requires BlocksReported(blocks, m, n, g, erased)
    ensures ByteSum(blocks) == SumBytes(m.BlocksUpTo(n), erased, false)
  {
    hide Count, Largest, Countable, SweepGeometry.AddressOf, SumBytes;
    if n == 0 {
      NoBytes(erased);
    } else {
      assert blocks[n - 1] == BlockReport(m, n - 1, g, erased);
      BytesAddUp(blocks[..n - 1], m, n - 1, g, erased);
      BytesAppend(m.BlocksUpTo(n - 1), m.PagesOf(n - 1, m.pages), erased, false);
    }
  }

  /** The block summaries add up to the totals of the sweep. */
  lemma BlocksAddUpToTotals(r: Report, m: Medium, g: SweepGeometry, erased: byte, salvage: bool, h: Metadata.Hash)
    requires Reports(r, m, g, erased, salvage, h)
    ensures ColumnSum(r.blocks, ReadableColumn) == r.tally.readable
    ensures ColumnSum(r.blocks, UnreadableColumn) == r.tally.unreadable
    ensures ColumnSum(r.blocks, UnknownEccColumn) == r.tally.eccUnknown
    ensures ColumnSum(r.blocks, BadEccColumn) == r.tally.uncorrectable
    ensures ColumnSum(r.blocks, DirtyColumn) == r.tally.targetNonErased + r.tally.excludedNonErased
    ensures ByteSum(r.blocks) >= r.tally.targetNonErasedBytes
  {
    hide Count, Stream, Image, PageMap, BlocksReported, ColumnSum, ByteSum, SumBytes, Countable,
      SweepGeometry.Divisible;
    var n := |m.dispositions|;
    ColumnsAddUp(r.blocks, m, n, g, erased, ReadableColumn);
    ColumnsAddUp(r.blocks, m, n, g, erased, UnreadableColumn);
    ColumnsAddUp(r.blocks, m, n, g, erased, UnknownEccColumn);
    ColumnsAddUp(r.blocks, m, n, g, erased, BadEccColumn);
    ColumnsAddUp(r.blocks, m, n, g, erased, DirtyColumn);
    BytesAddUp(r.blocks, m, n, g, erased);
    CountsSplit(m.Visits(), erased);
    TargetBytesWithin(m.Visits(), erased);
  }

  lemma {:induction false} TargetBytesWithin(visits: seq<Visit>, erased: byte)
    ensures SumBytes(visits, erased, true) <= SumBytes(visits, erased, false)
  {
    if visits != [] {
      TargetBytesWithin(visits[..|visits| - 1], erased);
    }
  }

  // ----- Addresses -----

  /** The controller's block coordinate and the sweep's page address name the same place. */
  predicate SameAddress(a: PageAddress, c: Coordinate, page: nat) {
    a == PageAddress(c.channel, c.chip, c.lun, c.plane, c.block, page)
  }

  lemma SameSplit(g: SweepGeometry, flat: nat, page: nat)
    requires g.Divisible()
    ensures SameAddress(g.AddressOf(flat, page), Peel(flat, g.nand), page)
  {
  }

  /**
   * The sweep splits a flat number exactly as the controller does, and refuses exactly the pages outside the medium.
   */
  lemma GeometryAgrees(g: SweepGeometry, dispositions: seq<Disposition>, flat: nat, page: nat)
    requires g.Valid(dispositions)
    ensures g.PageGeometry(flat, page).Ok? <==> CoordinateOf(flat, g.nand).Ok? && page < g.pagesPerBlock
    ensures g.PageGeometry(flat, page).Ok? ==>
              SameAddress(g.PageGeometry(flat, page).value, CoordinateOf(flat, g.nand).value, page)
  {
    hide Peel, SweepGeometry.AddressOf, TotalBlocks;
    SameSplit(g, flat, page);
  }

  // ----- The salvage image -----

  lemma {:induction false} ImageSize(visits: seq<Visit>, stride: nat)
    requires WholePages(visits, stride)
    ensures |Image(visits, stride)| == |visits| * stride
  {
    if visits == [] {
      assert Image(visits, stride) == [];
    } else {
      ImageSize(visits[..|visits| - 1], stride);
      NextMultiple(|visits| - 1, stride);
    }
  }

  lemma SliceOfFront(a: seq<byte>, b: seq<byte>, from: nat, count: nat)
    requires from + count <= |a|
    ensures (a + b)[from..from + count] == a[from..from + count]
  {
  }

  lemma {:induction false} ImagePage(visits: seq<Visit>, stride: nat, i: nat)
    requires WholePages(visits, stride) && i < |visits|
    ensures i * stride + stride <= |Image(visits, stride)|
    ensures Image(visits, stride)[i * stride..i * stride + stride] == PageImage(visits[i], stride)
  {
    hide PageImage;
    var n := |visits| - 1;
    ImageSize(visits[..n], stride);
    PageSize(visits[n], stride);
    if i < n {
      ImagePage(visits[..n], stride, i);
      SliceOfFront(Image(visits[..n], stride), PageImage(visits[n], stride), i * stride, stride);
    }
  }

  lemma PageSize(v: Visit, stride: nat)
    requires v.outcome.Read? ==> |v.outcome.raw| == stride
    ensures |PageImage(v, stride)| == stride
  {
  }

  lemma {:induction false} MapPageAt(visits: seq<Visit>, g: SweepGeometry, erased: byte, h: Metadata.Hash, i: nat)
    requires g.Divisible() && i < |visits|
    ensures PageMap(visits, g, erased, h)[i] == MapRecord(visits[i], g, erased, h)
  {
    hide MapRecord;
    if i < |visits| - 1 {
      MapPageAt(visits[..|visits| - 1], g, erased, h, i);
    }
  }

  /** A map record `p` for page `page` of block `flat`, and what the image holds at its offset. */
  predicate Pictured(p: MapPage, image: seq<byte>, m: Medium, flat: nat, page: nat, stride: nat) {
    && p.flat == flat && p.page == page
    && (p.status.ReadError? <==> m.read(flat, page).Failed?)
    && p.offset + stride <= |image|
    && image[p.offset..p.offset + stride]
       == match m.read(flat, page)
          case Read(raw, _) => raw
          case Failed(_) => Zeros(stride)
  }

  /** Page `page` of block `flat` in the map and in the image. */
  predicate PageIsExact(image: seq<byte>, pageMap: seq<MapPage>, m: Medium, g: SweepGeometry, flat: nat, page: nat)
    requires g.nand.HasPlanes()
  {
    var i := PageIndex(flat, page, m.pages);
    && i < |pageMap| && Pictured(pageMap[i], image, m, flat, page, g.Stride())
    && CoordinateOf(flat, g.nand).Ok? && SameAddress(pageMap[i].at, CoordinateOf(flat, g.nand).value, page)
  }

  lemma PageIsPictured(m: Medium, g: SweepGeometry, erased: byte, h: Metadata.Hash, flat: nat, page: nat)
    requires g.Valid(m.dispositions) && m.pages == g.pagesPerBlock && WholePages(m.Visits(), g.Stride())
    requires flat < g.blocks && page < m.pages
    ensures PageIsExact(Image(m.Visits(), g.Stride()), PageMap(m.Visits(), g, erased, h), m, g, flat, page)
  {
    hide Image, PageMap, Peel, SweepGeometry.AddressOf, TotalBlocks, WholePages;
    SameSplit(g, flat, page);
    var visits, i := m.Visits(), PageIndex(flat, page, m.pages);
    VisitAt(m, |m.dispositions|, flat, page);
    ImagePage(visits, g.Stride(), i);
    MapPageAt(visits, g, erased, h, i);
  }

  /** A sweep that runs to its end has seen whole pages only. */
  lemma CompletedIsWhole(w: Surroundings, g: SweepGeometry, m: Medium, image: Option<nat>, mapped: bool)
    requires Completes(w, g, m, image, mapped)
    ensures WholePages(m.Visits(), g.Stride())
  {
    hide TotalBlocks, PageIndex;
    forall i | 0 <= i < |m.Visits()| && m.Visits()[i].outcome.Read?
      ensures |m.Visits()[i].outcome.raw| == g.Stride()
    {
      EveryPageOnceInOrder(m, i);
      assert BlockPasses(w, g, m, mapped, i / m.pages, m.pages);
      assert PageStop(w, g, m, mapped, i / m.pages, i % m.pages).None?;
    }
  }

  /**
   * The image holds every page at the offset its map record gives: the raw page where the map says it was read, a
   * hole of zeros exactly where the map says it could not be; and nothing else.
   */
  lemma ImageMatchesMap(
    r: Report, w: Surroundings, m: Medium, g: SweepGeometry, erased: byte, image: Option<nat>, h: Metadata.Hash)
    requires Completes(w, g, m, image, true) && Reports(r, m, g, erased, true, h)
    ensures |r.image| == g.ImageBytes() && |r.pageMap| == g.TotalPages()
    ensures forall flat, page :: 0 <= flat < g.blocks && 0 <= page < m.pages ==>
                                   PageIsExact(r.image, r.pageMap, m, g, flat, page)
  {
    hide Image, PageMap, BlocksReported, Counts, Count, Stream, Peel, TotalBlocks, Countable, PageIsExact, WholePages,
      AllPass;
    CompletedIsWhole(w, g, m, image, true);
    ImageSize(m.Visits(), g.Stride());
    forall flat, page | 0 <= flat < g.blocks && 0 <= page < m.pages
      ensures PageIsExact(r.image, r.pageMap, m, g, flat, page)
    {
      PageIsPictured(m, g, erased, h, flat, page);
    }
  }
}
