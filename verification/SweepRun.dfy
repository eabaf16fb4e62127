/** Running the sweep: the order of visits, the hash input, the salvage image and its page map. */
module SweepRun {
  import opened Wrappers
  import opened Bytes
  import opened Geometry
  import opened Sweep
  import Metadata

  /** The medium as one sweep sees it: a disposition per block and an answer per page. */
  datatype Medium = Medium(dispositions: seq<Disposition>, pages: nat, read: (nat, nat) -> Outcome) {
    function VisitOf(flat: nat, page: nat): Visit
      requires flat < |dispositions|
    {
      Visit(flat, page, dispositions[flat], read(flat, page))
    }

    function PagesOf(flat: nat, n: nat): (s: seq<Visit>)
      requires flat < |dispositions|
      ensures |s| == n
    {
      if n == 0 then [] else PagesOf(flat, n - 1) + [VisitOf(flat, n - 1)]
    }

    function BlocksUpTo(n: nat): (s: seq<Visit>)
      requires n <= |dispositions|
      ensures |s| == n * pages
    {
      if n == 0 then []
      else
        Distribute(n, n - 1, pages);
        BlocksUpTo(n - 1) + PagesOf(n - 1, pages)
    }

    /** Every visit of a complete sweep, in order. */
    function Visits(): seq<Visit> { BlocksUpTo(|dispositions|) }
  }

  // ----- The ordered hash input -----

  function Code(d: Disposition): byte {
    match d
    case Unknown => 0
    case FactoryBad => 1
    case HistoricalRuntimeBad => 2
    case SystemPreserved => 3
    case SystemRebuild => 4
    case Data => 5
    case Erased => 6
    case Qualified => 7
    case Quarantined => 8
  }

  function EccCode(e: Ecc): byte {
    match e
    case EccUnknown => 0
    case Correctable => 1
    case Uncorrectable => 2
  }

  function Address(v: Visit): (s: seq<byte>)
    ensures |s| == 14
  {
    LittleEndian(v.flat, 8) + LittleEndian(v.page, 4)
    + [Code(v.disposition), if ExpectedErased(v.disposition) then 1 else 0]
  }

  function Evidence(o: Outcome, h: Metadata.Hash): seq<byte> {
    match o
    case Read(raw, m) =>
      [1] + h.digest(raw) + LittleEndian(m.correctedBits, 8) + LittleEndian(m.readRetries, 8)
      + LittleEndian(m.readLatency, 8) + [EccCode(m.ecc)]
    case Failed(message) => [0] + h.digest(message)
  }

  function HashRecord(v: Visit, h: Metadata.Hash): seq<byte> { Address(v) + Evidence(v.outcome, h) }

  function Stream(visits: seq<Visit>, h: Metadata.Hash): seq<byte> {
    if visits == [] then [] else Stream(visits[..|visits| - 1], h) + HashRecord(visits[|visits| - 1], h)
  }

  // ----- The salvage image and its map -----

  /** A page's bytes in the image; a page that could not be read is a hole of zeros. */
  function PageImage(v: Visit, stride: nat): seq<byte> {
    match v.outcome
    case Read(raw, _) => raw
    case Failed(_) => Zeros(stride)
  }

  function Image(visits: seq<Visit>, stride: nat): seq<byte> {
    if visits == [] then [] else Image(visits[..|visits| - 1], stride) + PageImage(visits[|visits| - 1], stride)
  }

  datatype Status = PageOk(digest: seq<byte>, nonErased: nat, metrics: Metrics) | ReadError(message: seq<byte>)

  datatype MapPage = MapPage(
    flat: nat, page: nat, at: PageAddress, disposition: Disposition, expectedErased: bool, offset: nat, status: Status)

  function PageIndex(flat: nat, page: nat, pages: nat): nat { flat * pages + page }

  function Offset(flat: nat, page: nat, g: SweepGeometry): nat {
    PageIndex(flat, page, g.pagesPerBlock) * g.Stride()
  }

  function MapRecord(v: Visit, g: SweepGeometry, erased: byte, h: Metadata.Hash): MapPage
    requires g.Divisible()
  {
    MapPage(v.flat, v.page, g.AddressOf(v.flat, v.page), v.disposition, ExpectedErased(v.disposition),
            Offset(v.flat, v.page, g),
            match v.outcome
            case Read(raw, m) => PageOk(h.digest(raw), NonErased(raw, erased), m)
            case Failed(message) => ReadError(message))
  }

  function PageMap(visits: seq<Visit>, g: SweepGeometry, erased: byte, h: Metadata.Hash): (s: seq<MapPage>)
    requires g.Divisible()
    ensures |s| == |visits|
  {
    if visits == [] then []
    else PageMap(visits[..|visits| - 1], g, erased, h) + [MapRecord(visits[|visits| - 1], g, erased, h)]
  }

  // ----- The summary -----

  datatype BlockSummary = BlockSummary(
    flat: nat, at: PageAddress, disposition: Disposition, pages: nat, tally: BlockTally)

  datatype Report = Report(
    totalBlocks: nat, totalPages: nat, targetPages: u64, tally: Tally, blocks: seq<BlockSummary>,
    sweepDigest: seq<byte>, image: seq<byte>, pageMap: seq<MapPage>)
  {
    predicate AllAddressesReadable() { tally.unreadable == 0 }

    predicate AllPagesEccKnown() { tally.eccUnknown == 0 }

    predicate AllPagesCorrectable() { tally.eccUnknown == 0 && tally.uncorrectable == 0 }

    predicate ErasedScopeVerified() {
      && tally.targetReadable == targetPages && tally.targetUnreadable == 0 && tally.targetEccUnknown == 0
      && tally.targetUncorrectable == 0 && tally.targetNonErased == 0
    }
  }

  predicate WholePages(visits: seq<Visit>, stride: nat) {
    forall i :: 0 <= i < |visits| && visits[i].outcome.Read? ==> |visits[i].outcome.raw| == stride
  }

  lemma {:induction false} NonErasedBound(raw: seq<byte>, erased: byte)
    ensures NonErased(raw, erased) <= |raw|
  {
    if raw != [] {
      NonErasedBound(raw[..|raw| - 1], erased);
    }
  }

  lemma {:induction false} BytesBound(visits: seq<Visit>, erased: byte, targetOnly: bool, stride: nat)
    requires WholePages(visits, stride)
    ensures SumBytes(visits, erased, targetOnly) <= |visits| * stride
  {
    hide NonErased, ExpectedErased;
    if visits == [] {
      assert SumBytes(visits, erased, targetOnly) == 0;
    } else {
      var n := |visits| - 1;
      BytesBound(visits[..n], erased, targetOnly, stride);
      NextMultiple(n, stride);
      if visits[n].outcome.Read? {
        NonErasedBound(visits[n].outcome.raw, erased);
        assert DirtyBytes(visits[n], erased) <= stride;
      }
    }
  }

  lemma Monotone(a: nat, b: nat, m: nat)
    requires a <= b
    ensures a * m <= b * m
  {
  }

  /** Neither page counts nor byte counts can reach the end of a counter. */
  lemma WholeIsCountable(visits: seq<Visit>, erased: byte, g: SweepGeometry)
    requires WholePages(visits, g.Stride()) && |visits| <= g.TotalPages() <= MAX_U64 && g.ImageBytes() <= MAX_U64
    ensures Countable(visits, erased)
  {
    BytesBound(visits, erased, true, g.Stride());
    BytesBound(visits, erased, false, g.Stride());
    Monotone(|visits|, g.TotalPages(), g.Stride());
  }

  /** The report of a sweep whose pages all answered with whole pages or errors. */
  function BlockReport(m: Medium, flat: nat, g: SweepGeometry, erased: byte): BlockSummary
    requires flat < |m.dispositions| && g.Divisible() && Countable(m.PagesOf(flat, m.pages), erased)
  {
    BlockSummary(
      flat, g.AddressOf(flat, 0), m.dispositions[flat], m.pages, BlockCounts(m.PagesOf(flat, m.pages), erased))
  }

  predicate BlocksReported(blocks: seq<BlockSummary>, m: Medium, n: nat, g: SweepGeometry, erased: byte) {
    && n <= |m.dispositions| && g.Divisible() && |blocks| == n
    && forall flat :: 0 <= flat < n ==>
                        Countable(m.PagesOf(flat, m.pages), erased) && blocks[flat] == BlockReport(m, flat, g, erased)
  }

  /** What a report says about a medium: counts, block summaries, digest, image and map are those of its visits. */
  predicate Reports(r: Report, m: Medium, g: SweepGeometry, erased: byte, salvage: bool, h: Metadata.Hash) {
    var visits := m.Visits();
    && g.Divisible() && Countable(visits, erased)
    && r.totalBlocks == g.blocks && r.totalPages == g.TotalPages()
    && r.targetPages == Count(Target, visits, erased)
    && r.tally == Counts(visits, erased)
    && BlocksReported(r.blocks, m, |m.dispositions|, g, erased)
    && r.sweepDigest == h.digest(Stream(visits, h))
    && r.image == (if salvage then Image(visits, g.Stride()) else [])
    && r.pageMap == if salvage then PageMap(visits, g, erased, h) else []
  }

  // ----- Where a sweep may stop -----

  /** What a sweep meets outside the medium; `None` is a step that went well. */
  datatype Surroundings = Surroundings(
    opening: Option<Error>,             // seeking the image and writing the map's header
    interrupted: (nat, nat) -> bool,    // a signal noticed before a page is read
    write: (nat, nat) -> Option<Error>, // writing a page to the image and to the map
    late: nat -> bool,                  // whether five seconds have passed since the last progress report
    progress: nat -> Option<Error>,     // the answer of the progress callback after so many pages
    flush: Option<Error>)               // flushing both outputs
  {
    /** Progress is reported after the first page, after the last, every 256 pages and when it is late. */
    predicate Announced(done: nat, total: nat) {
      done == 1 || done == total || done % 256 == 0 || late(done)
    }
  }

  /** The error that stops a sweep at a page, if any. A page that cannot be read is none. */
  function PageStop(w: Surroundings, g: SweepGeometry, m: Medium, salvage: bool, flat: nat, page: nat): Option<Error> {
    var o, done := m.read(flat, page), PageIndex(flat, page, m.pages) + 1;
    if w.interrupted(flat, page) then Some(Interrupted)
    else if o.Read? && |o.raw| != g.Stride() then Some(Invalid)
    else if salvage && w.write(flat, page).Some? then w.write(flat, page)
    else if w.Announced(done, g.TotalPages()) then w.progress(done)
    else None
  }

  predicate Opens(w: Surroundings, g: SweepGeometry, m: Medium, image: Option<nat>, mapped: bool) {
    && g.Valid(m.dispositions) && image.Some? == mapped
    && (image.Some? ==> image.value == 0) && (mapped ==> w.opening.None?)
  }

  predicate BlockPasses(w: Surroundings, g: SweepGeometry, m: Medium, salvage: bool, flat: nat, pages: nat) {
    forall page :: 0 <= page < pages ==> PageStop(w, g, m, salvage, flat, page).None?
  }

  predicate AllPass(w: Surroundings, g: SweepGeometry, m: Medium, salvage: bool, blocks: nat) {
    forall flat :: 0 <= flat < blocks ==> BlockPasses(w, g, m, salvage, flat, m.pages)
  }

  /** The sweep runs to its end. */
  predicate Completes(w: Surroundings, g: SweepGeometry, m: Medium, image: Option<nat>, mapped: bool) {
    && m.pages == g.pagesPerBlock && Opens(w, g, m, image, mapped)
    && AllPass(w, g, m, mapped, g.blocks) && (mapped ==> w.flush.None?)
  }

  /** The sweep stops with `e` at this page, having passed every page before it. */
  predicate StopsAt(
    w: Surroundings, g: SweepGeometry, m: Medium, salvage: bool, flat: nat, page: nat, e: Error)
  {
    && flat < g.blocks && page < m.pages && PageStop(w, g, m, salvage, flat, page) == Some(e)
    && AllPass(w, g, m, salvage, flat) && BlockPasses(w, g, m, salvage, flat, page)
  }

  lemma CountAppend(k: Kind, a: seq<Visit>, b: seq<Visit>, erased: byte)
    ensures Count(k, a + b, erased) == Count(k, a, erased) + Count(k, b, erased)
  {
    if b == [] {
      assert a + b == a;
    } else {
      assert (a + b)[..|a + b| - 1] == a + b[..|b| - 1];
      CountAppend(k, a, b[..|b| - 1], erased);
    }
  }

  lemma {:induction false} TargetsOf(m: Medium, flat: nat, n: nat, erased: byte)
    requires flat < |m.dispositions|
    ensures Count(Target, m.PagesOf(flat, n), erased) == if ExpectedErased(m.dispositions[flat]) then n else 0
  {
    if n > 0 {
      TargetsOf(m, flat, n - 1, erased);
      CountLast(Target, m.PagesOf(flat, n - 1), m.VisitOf(flat, n - 1), erased);
    }
  }

  /** One page more, everywhere. */
  lemma OneMorePage(visits: seq<Visit>, v: Visit, g: SweepGeometry, erased: byte, h: Metadata.Hash)
    requires g.Divisible()
    ensures Stream(visits + [v], h) == Stream(visits, h) + HashRecord(v, h)
    ensures Image(visits + [v], g.Stride()) == Image(visits, g.Stride()) + PageImage(v, g.Stride())
    ensures PageMap(visits + [v], g, erased, h) == PageMap(visits, g, erased, h) + [MapRecord(v, g, erased, h)]
  {
    assert (visits + [v])[..|visits|] == visits;
  }

  /** The state of a sweep after `visits`. */
  ghost predicate SoFar(
    visits: seq<Visit>, t: Tally, hashed: seq<byte>, image: seq<byte>, pageMap: seq<MapPage>,
    g: SweepGeometry, erased: byte, salvage: bool, h: Metadata.Hash)
  {
    && g.Divisible() && WholePages(visits, g.Stride()) && Countable(visits, erased)
    && t == Counts(visits, erased) && hashed == Stream(visits, h)
    && image == (if salvage then Image(visits, g.Stride()) else [])
    && pageMap == if salvage then PageMap(visits, g, erased, h) else []
  }

  lemma OneMoreSoFar(
    visits: seq<Visit>, v: Visit, t: Tally, hashed: seq<byte>, image: seq<byte>, pageMap: seq<MapPage>,
    g: SweepGeometry, erased: byte, salvage: bool, h: Metadata.Hash)
    requires SoFar(visits, t, hashed, image, pageMap, g, erased, salvage, h)
    requires v.outcome.Read? ==> |v.outcome.raw| == g.Stride()
    requires |visits| + 1 <= g.TotalPages() <= MAX_U64 && g.ImageBytes() <= MAX_U64
    ensures SoFar(visits + [v], Note(t, v, erased), hashed + HashRecord(v, h),
                  if salvage then image + PageImage(v, g.Stride()) else image,
                  if salvage then pageMap + [MapRecord(v, g, erased, h)] else pageMap, g, erased, salvage, h)
  {
    hide Note, Counts, HashRecord, PageImage, MapRecord, Stream, Image, PageMap, Countable;
    WholeIsCountable(visits + [v], erased, g);
    NoteCounts(visits, v, erased);
    OneMorePage(visits, v, g, erased, h);
  }

  method SweepPhysicalPages(
    g: SweepGeometry, m: Medium, erased: byte, image: Option<nat>, mapped: bool, w: Surroundings, h: Metadata.Hash)
    returns (r: Result<Report>)
    requires m.pages == g.pagesPerBlock
    ensures r.Ok? <==> Completes(w, g, m, image, mapped)
    ensures r.Ok? ==> Reports(r.value, m, g, erased, mapped, h)
    ensures r.Err? && Opens(w, g, m, image, mapped) ==>
              || (exists flat, page :: StopsAt(w, g, m, mapped, flat, page, r.error))
              || (AllPass(w, g, m, mapped, g.blocks) && w.flush == Some(r.error))
  {
    hide Note, NoteBlock, Counts, BlockCounts, HashRecord, PageImage, MapRecord, SoFar, Countable, Stream, Image,
      PageMap, TotalBlocks, SweepGeometry.AddressOf, PageStop, PageIndex, BlockPasses, Count, BlockReport,
      ExpectedErased;
    if !g.Valid(m.dispositions) || image.Some? != mapped {
      return Err(Invalid);
    }
    if image.Some? && image.value != 0 {
      return Err(Permission);
    }
    if mapped && w.opening.Some? {
      return Err(w.opening.value);
    }
    var tally := Tally(0, 0, 0, 0, 0, 0, 0, 0, 0, 0, 0, 0);
    var targetPages: u64, completed: u64 := 0, 0;
    var hashed: seq<byte>, picture: seq<byte>, pageMap: seq<MapPage> := [], [], [];
    var blocks: seq<BlockSummary> := [];
    NothingSoFar(g, erased, mapped, h);
    FirstIndex(m.pages);
    for flat := 0 to g.blocks
      invariant SoFar(m.BlocksUpTo(flat), tally, hashed, picture, pageMap, g, erased, mapped, h)
      invariant targetPages == Count(Target, m.BlocksUpTo(flat), erased)
      invariant BlocksReported(blocks, m, flat, g, erased)
      invariant completed == PageIndex(flat, 0, m.pages) && AllPass(w, g, m, mapped, flat)
    {
      BlockFits(m, flat, g);
      if ExpectedErased(m.dispositions[flat]) {
        targetPages := Plus(targetPages, g.pagesPerBlock);
      }
      var block: Result<BlockSummary>;
      block, tally, hashed, picture, pageMap, completed :=
        SweepBlock(g, m, flat, erased, mapped, w, h, tally, hashed, picture, pageMap, completed);
      if block.Err? {
        ghost var page :| StopsAt(w, g, m, mapped, flat, page, block.error);
        assert StopsAt(w, g, m, mapped, flat, page, block.error);
        return Err(block.error);
      }
      blocks := blocks + [block.value];
      TargetsOf(m, flat, m.pages, erased);
      CountAppend(Target, m.BlocksUpTo(flat), m.PagesOf(flat, m.pages), erased);
    }
    if mapped && w.flush.Some? {
      return Err(w.flush.value);
    }
    SoFarMeans(m.Visits(), tally, hashed, picture, pageMap, g, erased, mapped, h);
    return Ok(Report(g.blocks, g.TotalPages(), targetPages, tally, blocks, h.digest(hashed), picture, pageMap));
  }

  lemma FirstIndex(pages: nat)
    ensures PageIndex(0, 0, pages) == 0
  {
  }

  lemma NextBlockIndex(flat: nat, pages: nat)
    ensures PageIndex(flat, pages, pages) == PageIndex(flat + 1, 0, pages)
  {
    NextMultiple(flat, pages);
  }

  /** The page counter stays below the total, so it never saturates. */
  lemma IndexFits(flat: nat, blocks: nat, page: nat, pages: nat)
    requires flat < blocks && page < pages
    ensures PageIndex(flat, page, pages) < blocks * pages
    ensures PageIndex(flat, page + 1, pages) == PageIndex(flat, page, pages) + 1
  {
    DigitBound(flat, blocks, page, pages);
  }

  lemma NothingSoFar(g: SweepGeometry, erased: byte, salvage: bool, h: Metadata.Hash)
    requires g.Divisible()
    ensures SoFar([], Tally(0, 0, 0, 0, 0, 0, 0, 0, 0, 0, 0, 0), [], [], [], g, erased, salvage, h)
  {
  }

  lemma SoFarMeans(
    visits: seq<Visit>, t: Tally, hashed: seq<byte>, image: seq<byte>, pageMap: seq<MapPage>,
    g: SweepGeometry, erased: byte, salvage: bool, h: Metadata.Hash)
    requires SoFar(visits, t, hashed, image, pageMap, g, erased, salvage, h)
    ensures g.Divisible() && Countable(visits, erased) && t == Counts(visits, erased) && hashed == Stream(visits, h)
    ensures image == if salvage then Image(visits, g.Stride()) else []
    ensures pageMap == if salvage then PageMap(visits, g, erased, h) else []
  {
  }

  lemma BlockFits(m: Medium, flat: nat, g: SweepGeometry)
    requires g.Valid(m.dispositions) && m.pages == g.pagesPerBlock && flat < g.blocks
    ensures |m.BlocksUpTo(flat)| + m.pages <= g.TotalPages()
    ensures |m.BlocksUpTo(flat + 1)| <= g.TotalPages()
  {
    Monotone(flat + 1, g.blocks, m.pages);
    Distribute(flat + 1, flat, m.pages);
  }

  lemma OneMoreOfBlock(m: Medium, flat: nat, page: nat, g: SweepGeometry, erased: byte)
    requires flat < |m.dispositions| && page < m.pages <= g.TotalPages() <= MAX_U64 && g.ImageBytes() <= MAX_U64
    requires WholePages(m.PagesOf(flat, page), g.Stride())
    requires m.read(flat, page).Read? ==> |m.read(flat, page).raw| == g.Stride()
    ensures WholePages(m.PagesOf(flat, page + 1), g.Stride())
    ensures Countable(m.PagesOf(flat, page), erased) && Countable(m.PagesOf(flat, page + 1), erased)
    ensures NoteBlock(BlockCounts(m.PagesOf(flat, page), erased), m.VisitOf(flat, page), erased)
            == BlockCounts(m.PagesOf(flat, page + 1), erased)
  {
    hide NoteBlock, BlockCounts, Countable;
    WholeIsCountable(m.PagesOf(flat, page + 1), erased, g);
    NoteBlockCounts(m.PagesOf(flat, page), m.VisitOf(flat, page), erased);
  }

  /** The pages of one block. */
  method SweepBlock(
    g: SweepGeometry, m: Medium, flat: nat, erased: byte, salvage: bool, w: Surroundings, h: Metadata.Hash,
    tally0: Tally, hashed0: seq<byte>, image0: seq<byte>, map0: seq<MapPage>, completed0: u64)
    returns (
      r: Result<BlockSummary>, tally: Tally, hashed: seq<byte>, image: seq<byte>, pageMap: seq<MapPage>, completed: u64)
    requires g.Valid(m.dispositions) && m.pages == g.pagesPerBlock && flat < g.blocks
    requires SoFar(m.BlocksUpTo(flat), tally0, hashed0, image0, map0, g, erased, salvage, h)
    requires completed0 == PageIndex(flat, 0, m.pages) && AllPass(w, g, m, salvage, flat)
    ensures r.Ok? <==> BlockPasses(w, g, m, salvage, flat, m.pages)
    ensures r.Err? ==> exists page :: StopsAt(w, g, m, salvage, flat, page, r.error)
    ensures r.Ok? ==> SoFar(m.BlocksUpTo(flat + 1), tally, hashed, image, pageMap, g, erased, salvage, h)
    ensures r.Ok? ==> Countable(m.PagesOf(flat, m.pages), erased) && r.value == BlockReport(m, flat, g, erased)
    ensures r.Ok? ==> completed == PageIndex(flat + 1, 0, m.pages)
  {
    hide Note, NoteBlock, Counts, BlockCounts, HashRecord, PageImage, MapRecord, SoFar, Countable, Stream, Image,
      PageMap, PageIndex, SweepGeometry.AddressOf, AllPass, TotalBlocks, WholePages;
    tally, hashed, image, pageMap, completed := tally0, hashed0, image0, map0, completed0;
    var counts := BlockTally(0, 0, 0, 0, 0, 0, 0, 0, 0);
    ghost var before := m.BlocksUpTo(flat);
    BlockFits(m, flat, g);
    NothingCounted(erased);
    NoPages(g.Stride());
    assert before + m.PagesOf(flat, 0) == before;
    for page := 0 to m.pages
      invariant SoFar(before + m.PagesOf(flat, page), tally, hashed, image, pageMap, g, erased, salvage, h)
      invariant WholePages(m.PagesOf(flat, page), g.Stride())
      invariant Countable(m.PagesOf(flat, page), erased) && counts == BlockCounts(m.PagesOf(flat, page), erased)
      invariant completed == PageIndex(flat, page, m.pages) && BlockPasses(w, g, m, salvage, flat, page)
    {
      IndexFits(flat, g.blocks, page, m.pages);
      if w.interrupted(flat, page) {
        assert StopsAt(w, g, m, salvage, flat, page, Interrupted);
        return Err(Interrupted), tally, hashed, image, pageMap, completed;
      }
      var v := m.VisitOf(flat, page);
      if v.outcome.Read? && |v.outcome.raw| != g.Stride() {
        assert StopsAt(w, g, m, salvage, flat, page, Invalid);
        return Err(Invalid), tally, hashed, image, pageMap, completed;
      }
      OneMoreSoFar(before + m.PagesOf(flat, page), v, tally, hashed, image, pageMap, g, erased, salvage, h);
      assert before + m.PagesOf(flat, page) + [v] == before + m.PagesOf(flat, page + 1);
      OneMoreOfBlock(m, flat, page, g, erased);
      tally := Note(tally, v, erased);
      counts := NoteBlock(counts, v, erased);
      hashed := hashed + HashRecord(v, h);
      if salvage {
        var failure := w.write(flat, page);
        if failure.Some? {
          assert StopsAt(w, g, m, salvage, flat, page, failure.value);
          return Err(failure.value), tally, hashed, image, pageMap, completed;
        }
        image := image + PageImage(v, g.Stride());
        pageMap := pageMap + [MapRecord(v, g, erased, h)];
      }
      completed := Plus(completed, 1);
      if w.Announced(completed, g.TotalPages()) {
        var refusal := w.progress(completed);
        if refusal.Some? {
          assert StopsAt(w, g, m, salvage, flat, page, refusal.value);
          return Err(refusal.value), tally, hashed, image, pageMap, completed;
        }
      }
    }
    NextBlockIndex(flat, m.pages);
    r := Ok(BlockSummary(flat, g.AddressOf(flat, 0), m.dispositions[flat], m.pages, counts));
  }

  lemma NoPages(stride: nat)
    ensures WholePages([], stride)
  {
  }

  lemma NothingCounted(erased: byte)
    ensures Countable([], erased) && BlockCounts([], erased) == BlockTally(0, 0, 0, 0, 0, 0, 0, 0, 0)
  {
  }
}
