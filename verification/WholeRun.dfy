/**
 The main task and the Hosts' tasks together: every settling is both a Host's
 last step and an event of the loop that collects it, and a prompt that ends the
 asking stops the Hosts.
 */
module WholeRuns {
  import opened Wrappers
  import opened Outcomes
  import opened Passwords
  import RunSteps
  import RunTheorems
  import opened Reports
  import opened Collection

  datatype Move<P> =
    | Works(step: RunSteps.Step)        // a Host's own step
    | Settles(i: nat, outcome: Outcome) // a Host's outcome is collected
    | Skips(i: nat)                     // a Host the start check held back
    | Asks(ask: Ask<P>)
    | AskersLeave
    | Ticks
    | Interrupts                        // Ctrl-C

  /** What the loop sees of a move. */
  function EventsOf<P>(m: Move<P>): seq<Event<P>> {
    match m
    case Works(_) => []
    case Settles(_, outcome) => [Event.Settled(outcome)]
    case Skips(_) => [NotStarted]
    case Asks(ask) => [Asking(ask)]
    case AskersLeave => [AskersGone]
    case Ticks => [Tick]
    case Interrupts => [CtrlC]
  }

  /** What it does to the Hosts. An ask that is served and not answered stops the run. */
  function StepsOf<P>(d: Desk<P>, m: Move<P>): seq<RunSteps.Step> {
    match m
    case Works(step) => [step]
    case Settles(i, _) => [RunSteps.Report(i)]
    case Skips(i) => [RunSteps.Report(i)]
    case Asks(ask) =>
      if d.open && !d.stopped && !Reply(After(d.served), ask).Given? then [RunSteps.Begin] else []
    case Interrupts => [RunSteps.Begin]
    case _ => []
  }

  predicate CanMove<P>(s: RunSteps.State, fanout: nat, m: Move<P>) {
    match m
    case Works(step) => !step.Report? && !step.Begin? && RunSteps.Enabled(s, step, fanout)
    case Settles(i, outcome) =>
      RunSteps.Enabled(s, RunSteps.Report(i), fanout) && s.tasks[i].phase.result == Some(outcome.status)
    case Skips(i) => RunSteps.Enabled(s, RunSteps.Report(i), fanout) && s.tasks[i].phase.result == None
    case _ => true
  }

  /** A run of both, as each side sees it. */
  datatype Run<P> = Run(hosts: RunSteps.State, steps: seq<RunSteps.Step>, events: seq<Event<P>>)

  /** The run these moves make, if each could be made where it was. */
  function Play<P>(n: nat, fanout: nat, prompting: bool, moves: seq<Move<P>>): Option<Run<P>> {
    if moves == [] then Some(Run(RunSteps.Init(n), [], []))
    else
      var m := moves[|moves| - 1];
      match Play(n, fanout, prompting, moves[..|moves| - 1])
      case None => None
      case Some(run) =>
        var d := DeskAfter(prompting, run.events);
        if CanMove(run.hosts, fanout, m)
        then Some(Run(Taken(run.hosts, d, fanout, m), run.steps + StepsOf(d, m), run.events + EventsOf(m)))
        else None
  }

  /** The Hosts and the loop agree on the stop, and on everything reported. */
  ghost predicate Agree<P>(s: RunSteps.State, d: Desk<P>, events: seq<Event<P>>) {
    && s.children.stopped == d.stopped
    && RunTheorems.ReportedStatuses(s.outcomes) == Statuses(OutcomesIn(events))
    && |s.notStarted| == NotStartedIn(events)
  }

  lemma OneStep(n: nat, fanout: nat, steps: seq<RunSteps.Step>, step: RunSteps.Step)
    requires RunSteps.Runs(n, fanout, steps) && RunSteps.Enabled(RunSteps.After(n, fanout, steps), step, fanout)
    ensures RunSteps.Runs(n, fanout, steps + [step])
    ensures RunSteps.After(n, fanout, steps + [step]) == RunSteps.Apply(RunSteps.After(n, fanout, steps), step, fanout)
  {
    assert (steps + [step])[..|steps|] == steps;
  }

  lemma OneEvent<P>(prompting: bool, events: seq<Event<P>>, e: Event<P>)
    ensures DeskAfter(prompting, events + [e]) == Next(DeskAfter(prompting, events), e)
    ensures OutcomesIn(events + [e]) == OutcomesIn(events) + if e.Settled? then [e.outcome] else []
    ensures NotStartedIn(events + [e]) == NotStartedIn(events) + if e.NotStarted? then 1 else 0
  {
    assert (events + [e])[..|events|] == events;
  }

  /** The Hosts after a move. */
  function Taken<P>(s: RunSteps.State, d: Desk<P>, fanout: nat, m: Move<P>): RunSteps.State
    requires CanMove(s, fanout, m)
  {
    var taken := StepsOf(d, m);
    if taken == [] then s else RunSteps.Apply(s, taken[0], fanout)
  }

  /** The desk after a move. */
  function Seen<P>(d: Desk<P>, m: Move<P>): Desk<P> {
    var seen := EventsOf(m);
    if seen == [] then d else Next(d, seen[0])
  }

  /** A run of both is a run of the Hosts and a run of the loop, and the two agree. */
  lemma {:induction false} BothAgree<P>(n: nat, fanout: nat, prompting: bool, moves: seq<Move<P>>)
    requires Play(n, fanout, prompting, moves).Some?
    ensures var run := Play(n, fanout, prompting, moves).value;
            && RunSteps.Runs(n, fanout, run.steps) && RunSteps.After(n, fanout, run.steps) == run.hosts
            && Agree(run.hosts, DeskAfter(prompting, run.events), run.events)
    decreases |moves|
  {
    if moves != [] {
      var before, m := moves[..|moves| - 1], moves[|moves| - 1];
      BothAgree(n, fanout, prompting, before);
      var run := Play(n, fanout, prompting, before).value;
      var d := DeskAfter(prompting, run.events);
      StepsAreTaken(n, fanout, run.steps, d, m);
      EventsAreSeen(prompting, run.events, m);
      TakenAgrees(run.hosts, d, run.events, fanout, m);
    }
  }

  lemma StepsAreTaken<P>(n: nat, fanout: nat, steps: seq<RunSteps.Step>, d: Desk<P>, m: Move<P>)
    requires RunSteps.Runs(n, fanout, steps) && CanMove(RunSteps.After(n, fanout, steps), fanout, m)
    ensures RunSteps.Runs(n, fanout, steps + StepsOf(d, m))
    ensures RunSteps.After(n, fanout, steps + StepsOf(d, m)) == Taken(RunSteps.After(n, fanout, steps), d, fanout, m)
  {
    var taken := StepsOf(d, m);
    if taken == [] {
      assert steps + taken == steps;
    } else {
      assert taken == [taken[0]];
      OneStep(n, fanout, steps, taken[0]);
    }
  }

  lemma EventsAreSeen<P>(prompting: bool, events: seq<Event<P>>, m: Move<P>)
    ensures DeskAfter(prompting, events + EventsOf(m)) == Seen(DeskAfter(prompting, events), m)
  {
    var seen := EventsOf(m);
    if seen == [] {
      assert events + seen == events;
    } else {
      assert seen == [seen[0]];
      OneEvent(prompting, events, seen[0]);
    }
  }

  lemma TakenAgrees<P>(s: RunSteps.State, d: Desk<P>, events: seq<Event<P>>, fanout: nat, m: Move<P>)
    requires Agree(s, d, events) && CanMove(s, fanout, m)
    ensures Agree(Taken(s, d, fanout, m), Seen(d, m), events + EventsOf(m))
  {
    match m {
      case Works(step) =>
        WorkReportsNothing(s, fanout, step);
        assert events + EventsOf(m) == events;
      case Settles(i, outcome) => SettlingAgrees(s, d, events, fanout, i, outcome);
      case Skips(i) => SkippingAgrees(s, d, events, fanout, i);
      case Asks(ask) => StoppingAgrees(s, d, events, fanout, Asking(ask));
      case Interrupts => StoppingAgrees(s, d, events, fanout, CtrlC);
      case AskersLeave => OneEvent(true, events, AskersGone);
      case Ticks => OneEvent(true, events, Tick);
    }
  }

  lemma SettlingAgrees<P>(s: RunSteps.State, d: Desk<P>, events: seq<Event<P>>, fanout: nat, i: nat, outcome: Outcome)
    requires Agree(s, d, events) && CanMove<P>(s, fanout, Settles(i, outcome))
    ensures var e := Event.Settled(outcome);
            Agree(RunSteps.Apply(s, RunSteps.Report(i), fanout), Next(d, e), events + [e])
  {
    ReportAdds(s, fanout, i);
    StatusesAdd(OutcomesIn(events), outcome);
    OneEvent(true, events, Event.Settled(outcome));
  }

  lemma SkippingAgrees<P>(s: RunSteps.State, d: Desk<P>, events: seq<Event<P>>, fanout: nat, i: nat)
    requires Agree(s, d, events) && CanMove<P>(s, fanout, Skips(i))
    ensures Agree(RunSteps.Apply(s, RunSteps.Report(i), fanout), Next(d, NotStarted), events + [NotStarted])
  {
    ReportAdds(s, fanout, i);
    OneEvent(true, events, NotStarted);
  }

  /** An ask or Ctrl-C: the Hosts are stopped by it exactly when the loop is. */
  lemma StoppingAgrees<P>(s: RunSteps.State, d: Desk<P>, events: seq<Event<P>>, fanout: nat, e: Event<P>)
    requires Agree(s, d, events) && (e.Asking? || e.CtrlC?)
    ensures var stops := e.CtrlC? || (d.open && !d.stopped && !Reply(After(d.served), e.ask).Given?);
            Agree(if stops then RunSteps.Apply(s, RunSteps.Begin, fanout) else s, Next(d, e), events + [e])
  {
    OneEvent(true, events, e);
  }

  lemma ReportAdds(s: RunSteps.State, fanout: nat, i: nat)
    requires RunSteps.Enabled(s, RunSteps.Report(i), fanout)
    ensures var s', result := RunSteps.Apply(s, RunSteps.Report(i), fanout), s.tasks[i].phase.result;
            && s'.children == s.children
            && RunTheorems.ReportedStatuses(s'.outcomes)
                 == RunTheorems.ReportedStatuses(s.outcomes) + (if result.Some? then [result.value] else [])
            && |s'.notStarted| == |s.notStarted| + if result.None? then 1 else 0
  {
  }

  lemma StatusesAdd(outcomes: seq<Outcome>, outcome: Outcome)
    ensures Statuses(outcomes + [outcome]) == Statuses(outcomes) + [outcome.status]
  {
  }

  lemma WorkReportsNothing(s: RunSteps.State, fanout: nat, step: RunSteps.Step)
    requires RunSteps.Enabled(s, step, fanout) && !step.Report? && !step.Begin?
    ensures var s' := RunSteps.Apply(s, step, fanout);
            s'.outcomes == s.outcomes && s'.notStarted == s.notStarted && s'.children.stopped == s.children.stopped
  {
  }

  /**
   The exit code of a finished run: its own failure, if it had one, though every
   Host it caught is cancelled; without one, interrupted exactly when some Host
   was cancelled, and so whenever the stop caught a Host in flight.
   */
  lemma {:induction false} CodeOfAFinishedRun<P>(n: nat, fanout: nat, prompting: bool, moves: seq<Move<P>>)
    requires Play(n, fanout, prompting, moves).Some?
    requires RunTheorems.AllReported(Play(n, fanout, prompting, moves).value.hosts)
    ensures var run := Play(n, fanout, prompting, moves).value;
            var d, statuses := DeskAfter(prompting, run.events), Statuses(OutcomesIn(run.events));
            var code := RunCode(d.fatal, statuses);
            && (code == EXIT_LOCAL <==> d.fatal.Some?)
            && (d.fatal.Some? ==> run.hosts.children.stopped)
            && (d.fatal.None? ==> (code == EXIT_INTERRUPTED <==> Cancelled in statuses))
            && (run.hosts.children.killed != {} ==> Cancelled in statuses)
            && |statuses| + NotStartedIn(run.events) == n
  {
    var run := Play(n, fanout, prompting, moves).value;
    var d := DeskAfter(prompting, run.events);
    BothAgree(n, fanout, prompting, moves);
    OnlyTheLastAskFails(prompting, run.events);
    CodeMeans(d.fatal, Statuses(OutcomesIn(run.events)));
    ReportedTotal(n, fanout, run.steps);
    if run.hosts.children.killed != {} {
      var i :| i in run.hosts.children.killed;
      KilledIsReported(n, fanout, run.steps, i);
    }
  }

  /**
   Without a failure of its own, and with nobody cancelled, a finished run's code
   has bit 2 exactly when some Host failed and bit 4 exactly when one was
   unreachable or timed out, and a command that failed is such a Host.
   */
  lemma {:induction false} FailuresReachTheCode<P>(n: nat, fanout: nat, prompting: bool, moves: seq<Move<P>>)
    requires Play(n, fanout, prompting, moves).Some?
    requires RunTheorems.AllReported(Play(n, fanout, prompting, moves).value.hosts)
    ensures var run := Play(n, fanout, prompting, moves).value;
            var d, statuses := DeskAfter(prompting, run.events), Statuses(OutcomesIn(run.events));
            var code := RunCode(d.fatal, statuses);
            d.fatal.None? && Cancelled !in statuses ==>
              && (code & EXIT_FAILED != 0 <==> Failed in statuses)
              && (code & EXIT_UNREACHABLE != 0 <==> Status.Unreachable in statuses || Timeout in statuses)
              && code & !(EXIT_FAILED | EXIT_UNREACHABLE) == 0
    ensures var run := Play(n, fanout, prompting, moves).value;
            forall i, end :: 0 <= i < n && LastEnd(run.steps, i) == Some(end) && i !in run.hosts.children.killed ==>
              exists st :: st in Statuses(OutcomesIn(run.events)) && Deserves(end, st)
  {
    var run := Play(n, fanout, prompting, moves).value;
    var d, statuses := DeskAfter(prompting, run.events), Statuses(OutcomesIn(run.events));
    BothAgree(n, fanout, prompting, moves);
    if d.fatal.None? && Cancelled !in statuses {
      BitsMean(d.fatal, statuses);
    }
    forall i, end | 0 <= i < n && LastEnd(run.steps, i) == Some(end) && i !in run.hosts.children.killed
      ensures exists st :: st in statuses && Deserves(end, st)
    {
      ReportedAsItEnded(n, fanout, run.steps, i);
      var st :| (i, st) in run.hosts.outcomes && Deserves(end, st);
      var k :| 0 <= k < |run.hosts.outcomes| && run.hosts.outcomes[k] == (i, st);
      assert RunTheorems.ReportedStatuses(run.hosts.outcomes)[k] == st;
    }
  }

  lemma BitsMean(fatal: Option<Fatal>, statuses: seq<Status>)
    requires fatal.None? && Cancelled !in statuses
    ensures var code := RunCode(fatal, statuses);
            && (code & EXIT_FAILED != 0 <==> Failed in statuses)
            && (code & EXIT_UNREACHABLE != 0 <==> Status.Unreachable in statuses || Timeout in statuses)
            && code & !(EXIT_FAILED | EXIT_UNREACHABLE) == 0
  {
    var found := StatusSet(statuses);
    assert Failed in found <==> Failed in statuses;
    assert Status.Unreachable in found <==> Status.Unreachable in statuses;
    assert Timeout in found <==> Timeout in statuses;
    assert Cancelled in found <==> Cancelled in statuses;
  }

  lemma CodeMeans(fatal: Option<Fatal>, statuses: seq<Status>)
    ensures RunCode(fatal, statuses) == EXIT_LOCAL <==> fatal.Some?
    ensures fatal.None? ==> (RunCode(fatal, statuses) == EXIT_INTERRUPTED <==> Cancelled in statuses)
  {
    assert Cancelled in StatusSet(statuses) <==> Cancelled in statuses;
  }

  lemma ReportedTotal(n: nat, fanout: nat, steps: seq<RunSteps.Step>)
    requires RunSteps.Runs(n, fanout, steps) && RunTheorems.AllReported(RunSteps.After(n, fanout, steps))
    ensures var s := RunSteps.After(n, fanout, steps);
            |RunTheorems.ReportedStatuses(s.outcomes)| + |s.notStarted| == n
  {
    RunSteps.RunsKeepInv(n, fanout, steps);
    RunTheorems.AllReportedCounts(RunSteps.After(n, fanout, steps).tasks);
  }

  lemma {:induction false} KilledAreHosts(n: nat, fanout: nat, steps: seq<RunSteps.Step>)
    requires RunSteps.Runs(n, fanout, steps)
    ensures forall i :: i in RunSteps.After(n, fanout, steps).children.killed ==> i < n
    decreases |steps|
  {
    if steps != [] {
      KilledAreHosts(n, fanout, steps[..|steps| - 1]);
      RunSteps.RunsKeepInv(n, fanout, steps[..|steps| - 1]);
    }
  }

  lemma KilledIsReported(n: nat, fanout: nat, steps: seq<RunSteps.Step>, i: nat)
    requires RunSteps.Runs(n, fanout, steps) && RunTheorems.AllReported(RunSteps.After(n, fanout, steps))
    requires i in RunSteps.After(n, fanout, steps).children.killed
    ensures Cancelled in RunTheorems.ReportedStatuses(RunSteps.After(n, fanout, steps).outcomes)
  {
    assert steps[..|steps|] == steps;
    KilledAreHosts(n, fanout, steps);
    RunTheorems.CaughtMeansInterrupted(n, fanout, steps, |steps|, i);
  }
}
