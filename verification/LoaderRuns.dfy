/**
 * Whole runs of a loader session: in step until an increment is missed, then nothing succeeds until the counter
 * wraps.
 */
module LoaderRuns {
  import opened Wrappers
  import opened Loader

  const WRAP: nat := 0x1_0000_0000

  /**
   * One call of the session: an operation, with whether the device executed it and what parsed response reached the
   * host, or a status read on its own.
   */
  datatype Step = Operation(executed: bool, received: Result<Response>) | StatusCheck(received: Result<Response>)

  function Next(c: Counters, s: Step): Counters {
    match s
    case Operation(executed, received) => if executed then c.AfterOperation(received) else c
    case StatusCheck(_) => c
  }

  function Outcome(c: Counters, s: Step): Result<Response> {
    match s
    case Operation(executed, received) => if executed then c.OperationResult(received) else Err(Io)
    case StatusCheck(received) => c.StatusResult(received)
  }

  /** A response that parses carries the device's counter. */
  predicate HonestStep(c: Counters, s: Step) {
    match s
    case Operation(executed, received) => executed && received.Ok? ==> received.value.sequence == Following(c.device)
    case StatusCheck(received) => received.Ok? ==> received.value.sequence == c.device
  }

  function After(c: Counters, run: seq<Step>): Counters {
    if run == [] then c else Next(After(c, run[..|run| - 1]), run[|run| - 1])
  }

  predicate HonestRun(c: Counters, run: seq<Step>) {
    run != [] ==> HonestRun(c, run[..|run| - 1]) && HonestStep(After(c, run[..|run| - 1]), run[|run| - 1])
  }

  /** Increments the device has made and the host has not. */
  function Missed(c: Counters): (n: nat)
    ensures n < WRAP
  {
    if c.device >= c.host then c.device - c.host else c.device + WRAP - c.host
  }

  predicate Counted(s: Step) { s.Operation? && s.executed }

  function Executed(run: seq<Step>): nat {
    if run == [] then 0 else Executed(run[..|run| - 1]) + if Counted(run[|run| - 1]) then 1 else 0
  }

  /** How one step moves the gap. */
  lemma MissedStep(c: Counters, s: Step)
    requires HonestStep(c, s)
    ensures Missed(Next(c, s)) ==
            if !Counted(s) then Missed(c)
            else if Missed(c) == 0 && s.received.Ok? then 0
            else if Missed(c) + 1 == WRAP then 0
            else Missed(c) + 1
  {
  }

  /**
   * In step, every operation whose response is accepted keeps the counters in step, whether it reports success or
   * not.
   */
  lemma AnsweredOperationKeepsStep(c: Counters, s: Step)
    requires c.InStep() && HonestStep(c, s) && (Counted(s) ==> s.received.Ok?)
    ensures Next(c, s).InStep()
    ensures s.Operation? && s.executed ==> Outcome(c, s) == RequireSuccess(s.received.value)
  {
  }

  /** The number a step expects: the next one after an operation, the current one on a plain status read. */
  function Due(c: Counters, s: Step): nat { if s.Operation? then (c.host + 1) % WRAP else c.host }

  /**
   * A step succeeds exactly when a response arrived with the number due, in service mode, neither busy nor failed;
   * otherwise its first flaw names the error.
   */
  lemma OutcomeIs(c: Counters, s: Step)
    ensures s.Operation? && !s.executed ==> Outcome(c, s) == Err(Io)
    ensures s.StatusCheck? || s.executed ==> Judged(Outcome(c, s), s.received, Due(c, s))
    ensures Outcome(c, s).Ok? <==> (s.StatusCheck? || s.executed) && Reassures(s.received, Due(c, s))
    ensures Outcome(c, s).Ok? ==> Outcome(c, s) == s.received
  {
  }

  /** Success is only ever reported in step. */
  lemma SuccessMeansInStep(c: Counters, s: Step)
    requires HonestStep(c, s) && Outcome(c, s).Ok?
    ensures c.InStep() && Next(c, s).InStep()
  {
  }

  lemma {:induction false} MissedRun(c: Counters, run: seq<Step>)
    requires HonestRun(c, run) && Missed(c) > 0 && Missed(c) + Executed(run) <= WRAP
    requires run != [] ==> Missed(c) + Executed(run[..|run| - 1]) < WRAP
    ensures Missed(After(c, run)) == (if Missed(c) + Executed(run) == WRAP then 0 else Missed(c) + Executed(run))
  {
    hide Missed, Next, HonestStep, Counted;
    if run != [] {
      var front := run[..|run| - 1];
      if front != [] {
        ExecutedGrows(front);
      }
      MissedRun(c, front);
      MissedStep(After(c, front), run[|run| - 1]);
    }
  }

  lemma ExecutedGrows(run: seq<Step>)
    requires run != []
    ensures Executed(run[..|run| - 1]) <= Executed(run)
  {
  }

  lemma {:induction false} PrefixOfRun(c: Counters, run: seq<Step>, i: nat)
    requires i <= |run| && HonestRun(c, run)
    ensures HonestRun(c, run[..i]) && Executed(run[..i]) <= Executed(run)
    ensures i < |run| ==> HonestStep(After(c, run[..i]), run[i])
  {
    hide HonestStep, Next;
    if i == |run| {
      assert run[..i] == run;
    } else {
      var front := run[..|run| - 1];
      assert front[..i] == run[..i];
      if i < |front| {
        PrefixOfRun(c, front, i);
        assert front[i] == run[i];
      } else {
        PrefixOfRun(c, front, i);
      }
    }
  }

  /**
   * Fail-stop: once an increment is missed, whatever is sent and whatever comes back, no call succeeds while the
   * missed and executed operations together stay below the 32-bit counter.
   */
  lemma NothingSucceedsOutOfStep(c: Counters, run: seq<Step>, i: nat)
    requires HonestRun(c, run) && Missed(c) > 0 && Missed(c) + Executed(run) < WRAP && i < |run|
    ensures Outcome(After(c, run[..i]), run[i]).Err?
  {
    hide Next, HonestStep, Counted, Outcome, Missed, Executed;
    PrefixOfRun(c, run, i);
    MissedRunBelow(c, run[..i]);
    if Outcome(After(c, run[..i]), run[i]).Ok? {
      SuccessMeansInStep(After(c, run[..i]), run[i]);
      InStepMeansNoneMissed(After(c, run[..i]));
    }
  }

  lemma MissedRunBelow(c: Counters, run: seq<Step>)
    requires HonestRun(c, run) && Missed(c) > 0 && Missed(c) + Executed(run) < WRAP
    ensures Missed(After(c, run)) == Missed(c) + Executed(run)
  {
    hide Missed, Next, HonestStep, Counted, HonestRun;
    if run != [] {
      ExecutedGrows(run);
    }
    MissedRun(c, run);
  }

  lemma InStepMeansNoneMissed(c: Counters)
    ensures c.InStep() <==> Missed(c) == 0
  {
  }

  /** The counters meet again exactly when the device has counted all the way round, and not before. */
  lemma InStepAgainIff(c: Counters, run: seq<Step>)
    requires HonestRun(c, run) && Missed(c) > 0 && Missed(c) + Executed(run) <= WRAP
    requires run != [] ==> Missed(c) + Executed(run[..|run| - 1]) < WRAP
    ensures After(c, run).InStep() <==> Missed(c) + Executed(run) == WRAP
  {
    hide Missed, Next, HonestStep, Counted, HonestRun, Executed;
    MissedRun(c, run);
    InStepMeansNoneMissed(After(c, run));
  }

  /** From a fresh connection, a run in which every executed operation is answered stays in step throughout. */
  lemma {:induction false} AnsweredRunStaysInStep(c: Counters, run: seq<Step>)
    requires c.InStep() && HonestRun(c, run)
    requires forall i :: 0 <= i < |run| && Counted(run[i]) ==> run[i].received.Ok?
    ensures After(c, run).InStep()
  {
    hide Next, HonestStep, Counted;
    if run != [] {
      var front := run[..|run| - 1];
      assert forall i :: 0 <= i < |front| ==> front[i] == run[i];
      AnsweredRunStaysInStep(c, front);
      AnsweredOperationKeepsStep(After(c, front), run[|run| - 1]);
    }
  }

  // ----- Runs of the session itself -----

  /** A call of the session, with what the transport makes of it. */
  datatype Call =
    | Reading(c: Command, f: Fate)
    | Writing(c: Command, confirmed: bool, executed: bool, f: Fate)
    | Checking(f: Fate)

  predicate CallValid(call: Call) {
    match call
    case Reading(c, _) => c.ReadNandId? || c.ReadOnfiParameters? || c.ReadPage?
    case Writing(c, confirmed, executed, _) =>
      (c.ConfigureGeometry? || c.EraseBlock? || c.ProgramPage?) && (confirmed ==> executed)
    case Checking(_) => true
  }

  function StepOf(call: Call): Step {
    match call
    case Reading(c, f) => Operation(!f.Unsent?, Received(f, c))
    case Writing(_, confirmed, executed, f) =>
      Operation(executed, if confirmed then Received(f, Command.ReadStatus) else Err(Io))
    case Checking(f) => StatusCheck(Received(f, Command.ReadStatus))
  }

  function StepsOf(calls: seq<Call>): (s: seq<Step>)
    ensures |s| == |calls|
  {
    seq(|calls|, i requires 0 <= i < |calls| => StepOf(calls[i]))
  }

  method Perform(session: Session, call: Call) returns (r: Result<Response>)
    requires CallValid(call) && HonestStep(session.Counts(), StepOf(call))
    modifies session, session.device
    ensures session.Counts() == Next(old(session.Counts()), StepOf(call))
    ensures r.Ok? <==> Outcome(old(session.Counts()), StepOf(call)).Ok?
    ensures r.Ok? ==> r == Outcome(old(session.Counts()), StepOf(call))
  {
    hide Parse;
    match call
    case Reading(c, f) =>
      r := session.ReadOperation(c, f);
    case Writing(c, confirmed, executed, f) =>
      r := session.WriteOperation(c, confirmed, executed, if confirmed then f else Unsent);
    case Checking(f) =>
      r := session.ReadStatus(false, f);
  }

  /** Performing calls one after another is the run of their steps; after a missed increment none of them succeeds. */
  method PerformAll(session: Session, calls: seq<Call>) returns (succeeded: nat)
    requires forall i :: 0 <= i < |calls| ==> CallValid(calls[i])
    requires HonestRun(session.Counts(), StepsOf(calls))
    modifies session, session.device
    ensures session.Counts() == After(old(session.Counts()), StepsOf(calls))
    ensures Missed(old(session.Counts())) > 0 && Missed(old(session.Counts())) + Executed(StepsOf(calls)) < WRAP
            ==> succeeded == 0
  {
    hide CallValid, HonestStep, Next, Outcome, StepOf, Executed, HonestRun, Missed;
    ghost var c, steps := session.Counts(), StepsOf(calls);
    succeeded := 0;
    for i := 0 to |calls|
      invariant session.Counts() == After(c, steps[..i])
      invariant Missed(c) > 0 && Missed(c) + Executed(steps) < WRAP ==> succeeded == 0
    {
      assert steps[i] == StepOf(calls[i]);
      PrefixOfRun(c, steps, i);
      if Missed(c) > 0 && Missed(c) + Executed(steps) < WRAP {
        NothingSucceedsOutOfStep(c, steps, i);
      }
      var r := Perform(session, calls[i]);
      if r.Ok? {
        succeeded := succeeded + 1;
      }
      assert steps[..i + 1][..i] == steps[..i];
    }
    assert steps[..|calls|] == steps;
  }
}
