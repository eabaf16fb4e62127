/** The C4 grade, as the consumer of a physical sweep. */
module GradeC4 {
  import opened Wrappers
  import opened Bytes
  import opened Geometry
  import opened Sweep
  import opened SweepRun
  import opened SweepTheorems
  import Metadata

  datatype Grade = C0 | C4

  datatype Residual = NoneKnown | DocumentedExclusion | EraseFailed | UnknownScope

  datatype GradeResult = GradeResult(grade: Grade, qualified: bool, residual: Residual)

  /** Sweep counters as they reach the grade. */
  datatype SweepEvidence = SweepEvidence(
    pages: u64, readable: u64, unreadable: u64, eccUnknown: u64, uncorrectable: u64,
    targetPages: u64, targetReadable: u64, targetUnreadable: u64, targetEccUnknown: u64, targetUncorrectable: u64,
    targetNonErased: u64, excludedUnreadable: u64)

  datatype Evidence = Evidence(
    sweep: SweepEvidence, sweepComplete: bool, sweepDigestValid: bool,
    enumerationComplete: bool, blocksDeclared: u64, blocksClassified: u64, blocksEnumerated: u64,
    blocksErased: u64, blocksEraseFailed: u64,
    oldRbbEraseAttempted: bool, oldRbbEraseFailed: u64, oldRbbErased: u64, rbbCount: Option<u64>, fbbCount: Option<u64>,
    oldBbtCaptured: bool, oldBbtDigestValid: bool, oldBbtCopies: Option<u64>,
    fbbPreserved: bool, unknownReservation: u64, protectedArea: bool, bbtFtlRebuilt: bool, oldMappingInvalidated: bool,
    oldBbtGeneration: Option<u64>, newBbtGeneration: Option<u64>, newFtlGeneration: Option<u64>,
    weakIsolated: bool, capacityStable: bool, logicalReadsOk: bool, logicalBlankVerified: bool, signatureFree: bool,
    flushOk: bool, spareOk: bool, powerCycled: bool, ioErrors: u64, expectedCapacity: Option<u64>)

  /** `a + b == total`, without overflow. */
  predicate AddsUp(a: u64, b: u64, total: u64) { a + b <= MAX_U64 && a + b == total }

  /** The identities the grade re-checks before it trusts a sweep. */
  predicate SweepAccounted(s: SweepEvidence) {
    && s.pages > 0
    && AddsUp(s.readable, s.unreadable, s.pages)
    && s.targetPages <= s.pages
    && AddsUp(s.targetReadable, s.targetUnreadable, s.targetPages)
    && s.targetReadable <= s.readable
    && AddsUp(s.targetUnreadable, s.excludedUnreadable, s.unreadable)
    && s.eccUnknown <= s.readable && s.uncorrectable <= s.readable
    && s.targetEccUnknown <= s.targetReadable && s.targetEccUnknown <= s.eccUnknown
    && s.targetUncorrectable <= s.targetReadable && s.targetUncorrectable <= s.uncorrectable
    && s.targetNonErased <= s.targetReadable
  }

  predicate TargetPagesVerified(s: SweepEvidence) {
    && s.targetPages == s.targetReadable && s.targetUnreadable == 0 && s.targetEccUnknown == 0
    && s.targetUncorrectable == 0 && s.targetNonErased == 0
  }

  predicate GenerationsAccounted(e: Evidence) {
    && e.oldBbtGeneration.Some? && e.newBbtGeneration.Some? && e.newFtlGeneration.Some?
    && e.newBbtGeneration.value != e.oldBbtGeneration.value
  }

  predicate OldBbtAccounted(e: Evidence) {
    && e.oldBbtCaptured && e.fbbCount.Some? && e.rbbCount.Some?
    && e.oldBbtCopies.Some? && e.oldBbtCopies.value > 0 && e.oldBbtDigestValid
  }

  predicate OldRbbAccounted(e: Evidence) {
    e.rbbCount.Some? && AddsUp(e.oldRbbErased, e.oldRbbEraseFailed, e.rbbCount.value)
  }

  /** Evidence that does not even account for the scope. */
  predicate Unaccounted(e: Evidence) {
    || !e.enumerationComplete || e.blocksDeclared == 0 || e.blocksClassified != e.blocksDeclared
    || e.blocksEnumerated == 0 || e.sweep.targetPages == 0 || !e.sweepComplete
    || !SweepAccounted(e.sweep) || !e.sweepDigestValid || !e.bbtFtlRebuilt || !e.oldMappingInvalidated
    || !OldBbtAccounted(e) || !GenerationsAccounted(e) || e.expectedCapacity.None? || e.ioErrors > 0
    || !e.oldRbbEraseAttempted || !OldRbbAccounted(e) || !e.fbbPreserved || !e.weakIsolated
  }

  predicate Qualifies(e: Evidence) {
    && AddsUp(e.blocksErased, e.blocksEraseFailed, e.blocksEnumerated)
    && e.oldRbbEraseFailed == 0 && e.blocksEraseFailed == 0
    && e.capacityStable && e.spareOk && e.powerCycled && e.logicalReadsOk && e.logicalBlankVerified
    && e.signatureFree && e.flushOk
  }

  function PhysicalC4(e: Evidence): GradeResult {
    if Unaccounted(e) then GradeResult(C0, false, UnknownScope)
    else
      var verified := TargetPagesVerified(e.sweep);
      var qualified := Qualifies(e);
      var residual :=
        if e.unknownReservation > 0 then UnknownScope
        else if || e.oldRbbEraseFailed > 0 || e.blocksEraseFailed > 0 || e.sweep.targetUnreadable > 0
                || e.sweep.targetEccUnknown > 0 || e.sweep.targetUncorrectable > 0 || e.sweep.targetNonErased > 0
        then EraseFailed
        else if e.protectedArea then DocumentedExclusion
        else if qualified && verified then NoneKnown
        else EraseFailed;
      GradeResult(C4, qualified && verified, residual)
  }

  // ----- The grade in plain figures -----

  /** What C4 wants to know before it grades at all. */
  predicate Accounted(e: Evidence) {
    && e.enumerationComplete && e.blocksDeclared > 0 && e.blocksClassified == e.blocksDeclared && e.blocksEnumerated > 0
    && e.sweepComplete && e.sweepDigestValid
    && e.sweep.targetPages > 0 && e.sweep.targetPages <= e.sweep.pages
    && e.sweep.readable + e.sweep.unreadable == e.sweep.pages
    && e.sweep.targetReadable + e.sweep.targetUnreadable == e.sweep.targetPages
    && e.sweep.targetUnreadable + e.sweep.excludedUnreadable == e.sweep.unreadable
    && e.sweep.targetReadable <= e.sweep.readable
    && e.sweep.eccUnknown <= e.sweep.readable && e.sweep.uncorrectable <= e.sweep.readable
    && e.sweep.targetEccUnknown <= e.sweep.targetReadable && e.sweep.targetEccUnknown <= e.sweep.eccUnknown
    && e.sweep.targetUncorrectable <= e.sweep.targetReadable && e.sweep.targetUncorrectable <= e.sweep.uncorrectable
    && e.sweep.targetNonErased <= e.sweep.targetReadable
    && e.bbtFtlRebuilt && e.oldMappingInvalidated
    && e.oldBbtCaptured && e.oldBbtDigestValid && e.oldBbtCopies.GetOr(0) > 0
    && e.oldBbtGeneration.Some? && e.newBbtGeneration.Some? && e.newFtlGeneration.Some?
    && e.oldBbtGeneration != e.newBbtGeneration
    && e.expectedCapacity.Some? && e.ioErrors == 0
    && e.fbbCount.Some? && e.oldRbbEraseAttempted && e.rbbCount == Some(e.oldRbbErased + e.oldRbbEraseFailed)
    && e.fbbPreserved && e.weakIsolated
  }

  /** Everything enumerated was erased, old bad blocks included. */
  predicate AllErased(e: Evidence) {
    e.blocksErased == e.blocksEnumerated && e.blocksEraseFailed == 0 && e.oldRbbEraseFailed == 0
  }

  /** Every target page was read, correctable and blank. */
  predicate TargetsClean(s: SweepEvidence) {
    && s.targetReadable == s.targetPages
    && s.targetEccUnknown == 0 && s.targetUncorrectable == 0 && s.targetNonErased == 0
  }

  predicate WorksAfterPowerCycle(e: Evidence) {
    && e.powerCycled && e.capacityStable && e.spareOk && e.logicalReadsOk && e.logicalBlankVerified && e.signatureFree
    && e.flushOk
  }

  lemma AccountedIff(e: Evidence)
    ensures Unaccounted(e) <==> !Accounted(e)
  {
  }

  /** The whole grade, in the figures and facts of the evidence. */
  lemma GradeMeans(e: Evidence)
    ensures PhysicalC4(e).grade == C4 <==> Accounted(e)
    ensures PhysicalC4(e).qualified <==>
            Accounted(e) && AllErased(e) && TargetsClean(e.sweep) && WorksAfterPowerCycle(e)
  {
    hide Unaccounted;
    AccountedIff(e);
  }

  /** What is said to remain, in order of precedence. */
  lemma ResidualMeans(e: Evidence)
    ensures !Accounted(e) ==> PhysicalC4(e).residual == UnknownScope
    ensures Accounted(e) && e.unknownReservation > 0 ==> PhysicalC4(e).residual == UnknownScope
    ensures Accounted(e) && e.unknownReservation == 0 ==>
              var failed := || e.blocksEraseFailed > 0 || e.oldRbbEraseFailed > 0
                            || e.sweep.targetReadable < e.sweep.targetPages || e.sweep.targetEccUnknown > 0
                            || e.sweep.targetUncorrectable > 0 || e.sweep.targetNonErased > 0;
              && (PhysicalC4(e).residual == DocumentedExclusion <==> !failed && e.protectedArea)
              && (PhysicalC4(e).residual == NoneKnown <==>
                  !e.protectedArea && AllErased(e) && TargetsClean(e.sweep) && WorksAfterPowerCycle(e))
              && PhysicalC4(e).residual != UnknownScope
  {
    hide Unaccounted;
    AccountedIff(e);
  }

  // ----- A sweep's report as evidence -----

  function SweepEvidenceOf(r: Report): SweepEvidence
    requires r.totalPages <= MAX_U64
  {
    SweepEvidence(r.totalPages, r.tally.readable, r.tally.unreadable, r.tally.eccUnknown, r.tally.uncorrectable,
                  r.targetPages, r.tally.targetReadable, r.tally.targetUnreadable, r.tally.targetEccUnknown,
                  r.tally.targetUncorrectable, r.tally.targetNonErased, r.tally.excludedUnreadable)
  }

  /** A completed sweep always satisfies every identity the grade re-checks. */
  lemma CompletedSweepIsAccounted(r: Report, m: Medium, g: SweepGeometry, erased: byte, salvage: bool, h: Metadata.Hash)
    requires Reports(r, m, g, erased, salvage, h) && g.Valid(m.dispositions) && m.pages == g.pagesPerBlock
    ensures r.totalPages <= MAX_U64 && SweepAccounted(SweepEvidenceOf(r))
  {
    hide Count, BlocksReported, Stream, Image, PageMap, TotalBlocks, Countable;
    var visits := m.Visits();
    CountsSplit(visits, erased);
    CountsNest(visits, erased);
    PagesExist(g.blocks, g.pagesPerBlock);
  }

  lemma PagesExist(blocks: nat, pages: nat)
    requires blocks > 0 && pages > 0
    ensures blocks * pages > 0
  {
  }

  lemma TargetsCleanIff(
    e: Evidence, r: Report, m: Medium, g: SweepGeometry, erased: byte, salvage: bool, h: Metadata.Hash)
    requires Reports(r, m, g, erased, salvage, h) && r.totalPages <= MAX_U64 && e.sweep == SweepEvidenceOf(r)
    ensures Accounted(e) ==> (TargetsClean(e.sweep) <==> ScopeErased(m, erased))
  {
    hide Reports, ScopeErased;
    ErasedScopeVerifiedIff(r, m, g, erased, salvage, h);
  }

  /**
   * The grade and the sweep agree: with a completed sweep as evidence, C4 is qualified if and only if everything is
   * accounted for and erased, the medium works after the power cycle, and every page of every block that has to be
   * blank was read, correctable and blank.
   */
  lemma QualifiedIff(
    e: Evidence, r: Report, m: Medium, g: SweepGeometry, erased: byte, salvage: bool, h: Metadata.Hash)
    requires Reports(r, m, g, erased, salvage, h) && r.totalPages <= MAX_U64 && e.sweep == SweepEvidenceOf(r)
    ensures PhysicalC4(e).qualified <==>
            Accounted(e) && AllErased(e) && WorksAfterPowerCycle(e) && ScopeErased(m, erased)
  {
    hide Reports, Accounted, AllErased, TargetsClean, WorksAfterPowerCycle, ScopeErased, PhysicalC4;
    GradeMeans(e);
    TargetsCleanIff(e, r, m, g, erased, salvage, h);
  }

  /** Nothing known to remain is only ever reported when, besides, no block is unknown and no area protected. */
  lemma NoneKnownMeansErased(
    e: Evidence, r: Report, m: Medium, g: SweepGeometry, erased: byte, salvage: bool, h: Metadata.Hash)
    requires Reports(r, m, g, erased, salvage, h) && r.totalPages <= MAX_U64 && e.sweep == SweepEvidenceOf(r)
    ensures PhysicalC4(e).residual.NoneKnown? <==>
            && Accounted(e) && AllErased(e) && WorksAfterPowerCycle(e) && ScopeErased(m, erased)
            && e.unknownReservation == 0 && !e.protectedArea
  {
    hide Reports, Accounted, AllErased, TargetsClean, WorksAfterPowerCycle, ScopeErased, PhysicalC4;
    ResidualMeans(e);
    TargetsCleanIff(e, r, m, g, erased, salvage, h);
  }
}
