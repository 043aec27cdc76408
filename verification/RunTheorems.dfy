/** What holds of every run: whatever the interleaving, and whenever the interrupt lands. */
module RunTheorems {
  import opened Wrappers
  import opened Interrupts
  import opened Outcomes
  import opened RunSteps

  /** The run after the first steps of a longer one. */
  lemma {:induction false} PrefixRuns(n: nat, fanout: nat, steps: seq<Step>, k: nat)
    requires Runs(n, fanout, steps) && k <= |steps|
    ensures Runs(n, fanout, steps[..k])
    decreases |steps|
  {
    if k == |steps| {
      assert steps[..k] == steps;
    } else {
      PrefixRuns(n, fanout, steps[..|steps| - 1], k);
      assert steps[..|steps| - 1][..k] == steps[..k];
    }
  }

  // ----- the window -----

  /** At most `fanout` Hosts hold a slot, and Hosts enter the window in selection order. */
  lemma {:induction false} WindowIsBounded(n: nat, fanout: nat, steps: seq<Step>)
    requires Runs(n, fanout, steps)
    ensures var s := After(n, fanout, steps);
            && InFlight(s.tasks) <= fanout
            && forall i :: 0 <= i < n ==> (s.tasks[i].phase.Waiting? <==> s.next <= i)
  {
    RunsKeepInv(n, fanout, steps);
  }

  predicate AllReported(s: State) {
    forall i :: 0 <= i < |s.tasks| ==> s.tasks[i].phase.Reported?
  }

  lemma {:induction false} SomeoneHoldsASlot(tasks: seq<Task>) returns (i: nat)
    requires InFlight(tasks) > 0
    ensures i < |tasks| && HoldsSlot(tasks[i])
  {
    i := |tasks| - 1;
    if !HoldsSlot(tasks[i]) {
      i := SomeoneHoldsASlot(tasks[..i]);
    }
  }

  lemma {:induction false} IdleMeansNoSlotHeld(tasks: seq<Task>)
    requires InFlight(tasks) == 0
    ensures forall i :: 0 <= i < |tasks| ==> !HoldsSlot(tasks[i])
  {
    if tasks != [] {
      IdleMeansNoSlotHeld(tasks[..|tasks| - 1]);
    }
  }

  /** Until every Host is reported some Host can move: no interrupt leaves the run stuck. */
  lemma SomeStepIsEnabled(s: State, fanout: nat) returns (step: Step)
    requires Inv(s, fanout) && fanout > 0 && !AllReported(s)
    ensures Enabled(s, step, fanout) && !step.Begin?
  {
    if InFlight(s.tasks) == 0 {
      IdleMeansNoSlotHeld(s.tasks);
      step := Pull;
    } else {
      var i := SomeoneHoldsASlot(s.tasks);
      step := match s.tasks[i].phase
        case Queued => StartCheck(i)
        case Starting(_) => SpawnFails(i)
        case Alive(_) => Deregister(i)
        case Leaving(_) => Judge(i, false, Exited(0))
        case Judged(_, _, status) => Finish(i, status)
        case _ => Report(i);
    }
  }

  // ----- how long a run is -----

  /** How many more steps one Host can take. */
  function StepsLeft(p: Phase): nat {
    match p
    case Waiting => 12
    case Queued => 11
    case Starting(conn) => if conn == 1 then 10 else 6
    case Alive(conn) => if conn == 1 then 9 else 5
    case Leaving(conn) => if conn == 1 then 8 else 4
    case Judged(conn, _, _) => if conn == 1 then 7 else 3
    case Finished(_) => 2
    case Reported(_) => 0
  }

  function AllStepsLeft(tasks: seq<Task>): nat {
    if tasks == [] then 0 else AllStepsLeft(tasks[..|tasks| - 1]) + StepsLeft(tasks[|tasks| - 1].phase)
  }

  function Rank(s: State): nat {
    AllStepsLeft(s.tasks) + if s.children.stopped then 0 else 1
  }

  lemma {:induction false} StepsLeftAfterMove(tasks: seq<Task>, i: nat, t: Task)
    requires i < |tasks|
    ensures AllStepsLeft(tasks[i := t]) + StepsLeft(tasks[i].phase) == AllStepsLeft(tasks) + StepsLeft(t.phase)
    decreases |tasks|
  {
    var last := |tasks| - 1;
    if i == last {
      assert tasks[i := t][..last] == tasks[..last];
    } else {
      StepsLeftAfterMove(tasks[..last], i, t);
      assert tasks[i := t][..last] == tasks[..last][i := t];
    }
  }

  lemma {:induction false} StepsLeftByPhase(a: seq<Task>, b: seq<Task>)
    requires |a| == |b| && forall i :: 0 <= i < |a| ==> a[i].phase == b[i].phase
    ensures AllStepsLeft(a) == AllStepsLeft(b)
    decreases |a|
  {
    if a != [] {
      StepsLeftByPhase(a[..|a| - 1], b[..|b| - 1]);
    }
  }

  /** A Host's own step moves it to a phase with fewer steps left. */
  lemma PhaseDescends(s: State, fanout: nat, step: Step)
    requires Enabled(s, step, fanout) && !step.Begin? && !step.Pull?
    requires TaskInv(s.tasks[step.i], step.i in s.children.running, step.i in s.children.killed, s.begun, s.clock)
    ensures var s' := Apply(s, step, fanout);
            && s'.tasks == s.tasks[step.i := s'.tasks[step.i]]
            && StepsLeft(s'.tasks[step.i].phase) < StepsLeft(s.tasks[step.i].phase)
            && s'.children.stopped == s.children.stopped
  {
  }

  /** A stop of a run already stopping changes nothing; every other step uses the run up. */
  lemma StepDescends(s: State, fanout: nat, step: Step)
    requires Inv(s, fanout) && Enabled(s, step, fanout)
    ensures if step.Begin? && s.children.stopped then Apply(s, step, fanout) == s
            else Rank(Apply(s, step, fanout)) < Rank(s)
  {
    var s' := Apply(s, step, fanout);
    if step.Begin? {
      StepsLeftByPhase(s.tasks, s'.tasks);
    } else if step.Pull? {
      StepsLeftAfterMove(s.tasks, s.next, s'.tasks[s.next]);
    } else {
      var i := step.i;
      assert TaskInv(s.tasks[i], i in s.children.running, i in s.children.killed, s.begun, s.clock);
      PhaseDescends(s, fanout, step);
      StepsLeftAfterMove(s.tasks, i, s'.tasks[i]);
    }
  }

  /** Every run can be carried on to one that reports every Host. */
  lemma {:induction false} RunCompletes(n: nat, fanout: nat, steps: seq<Step>) returns (whole: seq<Step>)
    requires fanout > 0 && Runs(n, fanout, steps)
    ensures steps <= whole && Runs(n, fanout, whole) && AllReported(After(n, fanout, whole))
    decreases Rank(After(n, fanout, steps))
  {
    var s := After(n, fanout, steps);
    RunsKeepInv(n, fanout, steps);
    if AllReported(s) {
      whole := steps;
    } else {
      var step := SomeStepIsEnabled(s, fanout);
      StepDescends(s, fanout, step);
      assert (steps + [step])[..|steps|] == steps;
      whole := RunCompletes(n, fanout, steps + [step]);
    }
  }

  // ----- what is reported -----

  lemma {:induction false} AllReportedCounts(tasks: seq<Task>)
    requires forall i :: 0 <= i < |tasks| ==> tasks[i].phase.Reported?
    ensures CountReported(tasks) == |tasks|
  {
    if tasks != [] {
      AllReportedCounts(tasks[..|tasks| - 1]);
    }
  }

  function ReportedStatuses(outcomes: seq<(nat, Status)>): seq<Status> {
    seq(|outcomes|, k requires 0 <= k < |outcomes| => outcomes[k].1)
  }

  /**
   A finished run reports each selected Host exactly once, as an outcome or as
   not started, so the summary's counts and those left out make up the selection.
   */
  lemma {:induction false} EveryHostReportedOnce(n: nat, fanout: nat, steps: seq<Step>)
    requires Runs(n, fanout, steps) && AllReported(After(n, fanout, steps))
    ensures var s := After(n, fanout, steps);
            && (forall i :: 0 <= i < n ==> ((exists st :: (i, st) in s.outcomes) <==> i !in s.notStarted))
            && (forall j, k :: 0 <= j < k < |s.outcomes| ==> s.outcomes[j].0 != s.outcomes[k].0)
            && (forall j, k :: 0 <= j < k < |s.notStarted| ==> s.notStarted[j] != s.notStarted[k])
    ensures var s := After(n, fanout, steps);
            var st := ReportedStatuses(s.outcomes);
            CountOf(st, Status.Ok) + CountOf(st, Failed) + CountOf(st, Status.Running) + CountOf(st, Status.Unreachable)
              + CountOf(st, Timeout) + CountOf(st, Cancelled) + |s.notStarted| == n
  {
    var s := After(n, fanout, steps);
    RunsKeepInv(n, fanout, steps);
    AllReportedCounts(s.tasks);
    CountsAddUp(ReportedStatuses(s.outcomes));
    forall i | 0 <= i < n
      ensures (exists st :: (i, st) in s.outcomes) <==> i !in s.notStarted
    {
      var result := s.tasks[i].phase.result;
      if result.Some? {
        assert (i, result.value) in s.outcomes;
      }
    }
  }

  /** A Host is left out of the outcomes only because the run was stopping. */
  lemma {:induction false} NotStartedMeansStopped(n: nat, fanout: nat, steps: seq<Step>)
    requires Runs(n, fanout, steps)
    ensures var s := After(n, fanout, steps); s.notStarted != [] ==> s.children.stopped
  {
    RunsKeepInv(n, fanout, steps);
    var s := After(n, fanout, steps);
    if s.notStarted != [] {
      var i := s.notStarted[0];
      assert TaskInv(s.tasks[i], i in s.children.running, i in s.children.killed, s.begun, s.clock);
    }
  }

  // ----- the interrupt -----

  /** Once the run is stopping, a Host whose start check is still to come never starts. */
  predicate NeverStarted(p: Phase) {
    p.Waiting? || p.Queued? || p == Finished(None) || p == Reported(None)
  }

  lemma {:induction false} NoStartAfterStop(n: nat, fanout: nat, steps: seq<Step>, k: nat, i: nat)
    requires Runs(n, fanout, steps) && k <= |steps| && Runs(n, fanout, steps[..k]) && i < n
    requires After(n, fanout, steps[..k]).children.stopped
    requires NeverStarted(After(n, fanout, steps[..k]).tasks[i].phase)
    ensures After(n, fanout, steps).children.stopped
    ensures NeverStarted(After(n, fanout, steps).tasks[i].phase)
    decreases |steps|
  {
    if k == |steps| {
      assert steps[..k] == steps;
    } else {
      var before := steps[..|steps| - 1];
      assert before[..k] == steps[..k];
      NoStartAfterStop(n, fanout, before, k, i);
      KilledOnlyGrow(After(n, fanout, before), fanout, steps[|steps| - 1]);
    }
  }

  lemma KilledOnlyGrow(s: State, fanout: nat, step: Step)
    requires Enabled(s, step, fanout)
    ensures s.children.killed <= Apply(s, step, fanout).children.killed
    ensures s.children.stopped ==> Apply(s, step, fanout).children.stopped
  {
  }

  lemma {:induction false} KilledStaysKilled(n: nat, fanout: nat, steps: seq<Step>, k: nat)
    requires Runs(n, fanout, steps) && k <= |steps| && Runs(n, fanout, steps[..k])
    ensures After(n, fanout, steps[..k]).children.killed <= After(n, fanout, steps).children.killed
    decreases |steps|
  {
    if k == |steps| {
      assert steps[..k] == steps;
    } else {
      var before := steps[..|steps| - 1];
      assert before[..k] == steps[..k];
      KilledStaysKilled(n, fanout, before, k);
      KilledOnlyGrow(After(n, fanout, before), fanout, steps[|steps| - 1]);
    }
  }

  /**
   A connection is judged killed exactly when the stop began before its child
   was deregistered, and is then `cancelled` whatever its exit or its limit.
   */
  lemma {:induction false} JudgedByTheStop(n: nat, fanout: nat, steps: seq<Step>, i: nat)
    requires Runs(n, fanout, steps) && i < n
    ensures var s := After(n, fanout, steps);
            var t := s.tasks[i];
            t.phase.Judged? ==>
              && (t.phase.killed <==> s.begun.Some? && s.begun.value < t.left)
              && (t.phase.killed ==> t.phase.status.Cancelled?)
  {
    RunsKeepInv(n, fanout, steps);
    var s := After(n, fanout, steps);
    assert TaskInv(s.tasks[i], i in s.children.running, i in s.children.killed, s.begun, s.clock);
  }

  /** Before the stop nobody is killed; from it on every child in flight is. */
  lemma {:induction false} StopCatchesAllInFlight(n: nat, fanout: nat, steps: seq<Step>)
    requires Runs(n, fanout, steps)
    ensures var c := After(n, fanout, steps).children;
            && (!c.stopped ==> c.killed == {})
            && (c.stopped ==> c.running.Keys <= c.killed)
  {
    RunsKeepInv(n, fanout, steps);
  }

  /** A Host killed at any point of a run is on its way to being reported `cancelled`. */
  lemma {:induction false} KilledEndsCancelled(n: nat, fanout: nat, steps: seq<Step>, k: nat, i: nat)
    requires Runs(n, fanout, steps) && k <= |steps| && Runs(n, fanout, steps[..k]) && i < n
    requires i in After(n, fanout, steps[..k]).children.killed
    ensures match After(n, fanout, steps).tasks[i].phase
            case Alive(_) => true
            case Leaving(_) => true
            case Judged(_, killed, status) => killed && status == Cancelled
            case Finished(result) => result == Some(Cancelled)
            case Reported(result) => result == Some(Cancelled)
            case _ => false
  {
    RunsKeepInv(n, fanout, steps);
    KilledStaysKilled(n, fanout, steps, k);
    var s := After(n, fanout, steps);
    assert TaskInv(s.tasks[i], i in s.children.running, i in s.children.killed, s.begun, s.clock);
  }

  /** The outcomes of a finished run whose stop caught any Host in flight come to the interrupted code. */
  lemma {:induction false} CaughtMeansInterrupted(n: nat, fanout: nat, steps: seq<Step>, k: nat, i: nat)
    requires Runs(n, fanout, steps) && AllReported(After(n, fanout, steps))
    requires k <= |steps| && Runs(n, fanout, steps[..k]) && i < n
    requires i in After(n, fanout, steps[..k]).children.killed
    ensures CodeFor(StatusSet(ReportedStatuses(After(n, fanout, steps).outcomes))) == EXIT_INTERRUPTED
  {
    RunsKeepInv(n, fanout, steps);
    KilledEndsCancelled(n, fanout, steps, k, i);
    var s := After(n, fanout, steps);
    assert (i, Cancelled) in s.outcomes;
    var j :| 0 <= j < |s.outcomes| && s.outcomes[j] == (i, Cancelled);
    assert ReportedStatuses(s.outcomes)[j] == Cancelled;
  }

  /** Exactly one caller owns the escalation of a stopped run, and none that of a run not stopped. */
  lemma {:induction false} OneOwner(n: nat, fanout: nat, steps: seq<Step>)
    requires Runs(n, fanout, steps)
    ensures var s := After(n, fanout, steps); s.owners == if s.children.stopped then 1 else 0
  {
    RunsKeepInv(n, fanout, steps);
  }

  /**
   A child caught by the stop is assigned one SIGTERM, by the owner's snapshot or
   by its own failed registration but never both; one that left before it, none.
   */
  lemma {:induction false} OneTermPerCaughtChild(n: nat, fanout: nat, steps: seq<Step>, i: nat)
    requires Runs(n, fanout, steps) && i < n
    ensures var s := After(n, fanout, steps);
            var t := s.tasks[i];
            && (t.phase.Alive? ==> t.terms == if s.children.stopped then 1 else 0)
            && (t.phase.Leaving? || t.phase.Judged? ==> t.terms == if StopCaught(s.begun, t) then 1 else 0)
            && t.terms <= 1
  {
    RunsKeepInv(n, fanout, steps);
    var s := After(n, fanout, steps);
    assert TaskInv(s.tasks[i], i in s.children.running, i in s.children.killed, s.begun, s.clock);
  }
}
