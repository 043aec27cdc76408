/** What a Host is reported as, told from how its last connection ended. */
module Reports {
  import opened Wrappers
  import opened Outcomes
  import opened RunSteps
  import opened RunTheorems

  /** How a connection ended: whether the limit ran out on it, and how waiting for it did. */
  datatype End = End(timedOut: bool, waited: Waited)

  /** How the Host's latest judged connection ended. */
  function LastEnd(steps: seq<Step>, i: nat): Option<End> {
    if steps == [] then None
    else
      var step := steps[|steps| - 1];
      if step.Judge? && step.i == i then Some(End(step.timedOut, step.waited))
      else LastEnd(steps[..|steps| - 1], i)
  }

  predicate EndedWell(end: End) {
    !end.timedOut && end.waited == Exited(0)
  }

  /** What a connection nobody stopped may be reported as. */
  predicate Deserves(end: End, st: Status) {
    if end.timedOut then st.Timeout?
    else match end.waited
      case Exited(code) =>
        if code == 0 then st == Status.Ok || st == Status.Running || st == Status.Unreachable
        else if code == 255 then st == Status.Unreachable
        else st.Failed?
      case Signalled => st.Cancelled?
      case Unreadable => st == Status.Unreachable
  }

  /** What is known of a Host that was never killed, wherever it is. */
  predicate Known(p: Phase, end: Option<End>) {
    match p
    case Starting(conn) => conn == 1 || (end.Some? && EndedWell(end.value))
    case Judged(_, killed, status) =>
      !killed && end.Some? && Deserves(end.value, status) && (status == Status.Ok <==> EndedWell(end.value))
    case Finished(Some(status)) => if end.None? then status == Status.Unreachable else Deserves(end.value, status)
    case Reported(Some(status)) => if end.None? then status == Status.Unreachable else Deserves(end.value, status)
    case _ => true
  }

  /** Nothing is judged before it has started. */
  predicate Fresh(p: Phase, end: Option<End>) {
    (p.Waiting? || p.Queued? || (p.Starting? && p.conn == 1) || (p.Alive? && p.conn == 1) || (p.Leaving? && p.conn == 1)
     || p == Finished(None) || p == Reported(None)) ==> end.None?
  }

  lemma {:induction false} WhatIsKnown(n: nat, fanout: nat, steps: seq<Step>, i: nat)
    requires Runs(n, fanout, steps) && i < n && i !in After(n, fanout, steps).children.killed
    ensures Known(After(n, fanout, steps).tasks[i].phase, LastEnd(steps, i))
    ensures Fresh(After(n, fanout, steps).tasks[i].phase, LastEnd(steps, i))
    decreases |steps|
  {
    if steps != [] {
      var before, step := steps[..|steps| - 1], steps[|steps| - 1];
      var s := After(n, fanout, before);
      KilledOnlyGrow(s, fanout, step);
      WhatIsKnown(n, fanout, before, i);
      RunsKeepInv(n, fanout, before);
      assert TaskInv(s.tasks[i], i in s.children.running, i in s.children.killed, s.begun, s.clock);
      StepIsKnown(s, fanout, step, i, LastEnd(before, i));
    }
  }

  lemma StepIsKnown(s: State, fanout: nat, step: Step, i: nat, end: Option<End>)
    requires Enabled(s, step, fanout) && i < |s.tasks| && i !in Apply(s, step, fanout).children.killed
    requires Known(s.tasks[i].phase, end) && Fresh(s.tasks[i].phase, end)
    requires TaskInv(s.tasks[i], i in s.children.running, i in s.children.killed, s.begun, s.clock)
    requires step.Pull? && i == s.next ==> s.tasks[i].phase.Waiting?
    ensures var p := Apply(s, step, fanout).tasks[i].phase;
            var end' := if step.Judge? && step.i == i then Some(End(step.timedOut, step.waited)) else end;
            Known(p, end') && Fresh(p, end')
  {
    KilledOnlyGrow(s, fanout, step);
  }

  /**
   A finished run reports a Host no stop caught as how its last connection ended
   deserves; without a connection to judge, as unreachable or not at all.
   */
  lemma {:induction false} ReportedAsItEnded(n: nat, fanout: nat, steps: seq<Step>, i: nat)
    requires Runs(n, fanout, steps) && AllReported(After(n, fanout, steps)) && i < n
    requires i !in After(n, fanout, steps).children.killed
    ensures var s, end := After(n, fanout, steps), LastEnd(steps, i);
            && (end.Some? ==> exists st :: (i, st) in s.outcomes && Deserves(end.value, st))
            && (end.None? ==> (i, Status.Unreachable) in s.outcomes || i in s.notStarted)
  {
    RunsKeepInv(n, fanout, steps);
    WhatIsKnown(n, fanout, steps, i);
    var s := After(n, fanout, steps);
    var result := s.tasks[i].phase.result;
    if result.Some? {
      assert (i, result.value) in s.outcomes;
    }
  }

  /** A command that failed is reported failed, whatever number other than 0 and 255 it exited with. */
  lemma {:induction false} FailuresAreReported(n: nat, fanout: nat, steps: seq<Step>, i: nat, code: int)
    requires Runs(n, fanout, steps) && AllReported(After(n, fanout, steps)) && i < n
    requires i !in After(n, fanout, steps).children.killed
    requires LastEnd(steps, i) == Some(End(false, Exited(code))) && code != 0 && code != 255
    ensures (i, Failed) in After(n, fanout, steps).outcomes
    ensures Failed in ReportedStatuses(After(n, fanout, steps).outcomes)
  {
    ReportedAsItEnded(n, fanout, steps, i);
    var outcomes := After(n, fanout, steps).outcomes;
    var st :| (i, st) in outcomes && Deserves(End(false, Exited(code)), st);
    var k :| 0 <= k < |outcomes| && outcomes[k] == (i, st);
    assert ReportedStatuses(outcomes)[k] == Failed;
  }
}
