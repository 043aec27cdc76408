/**
 A whole run as a step system: the sliding window, each Host's ssh from its start
 check to its report, and an interrupt that may land between any two steps. A
 Host is its index in the selection; host names are distinct.
 */
module RunSteps {
  import opened Wrappers
  import opened Interrupts
  import opened Outcomes

  /** Where one Host is. `conn` counts its connections: a script makes two, one after the other. */
  datatype Phase =
    | Waiting                                          // not pulled into the window yet
    | Queued                                           // holds a slot; start check not made
    | Starting(conn: nat)                              // past the check; no child registered
    | Alive(conn: nat)                                 // child registered
    | Leaving(conn: nat)                               // child gone and deregistered; not judged
    | Judged(conn: nat, killed: bool, status: Status)
    | Finished(result: Option<Status>)                 // `None`: the start check stopped it
    | Reported(result: Option<Status>)                 // out of the window

  /**
   One Host. `left` is when its latest child was deregistered and `terms` how
   many interrupt-path SIGTERMs that child was assigned.
   */
  datatype Task = Task(phase: Phase, left: nat, terms: nat)

  /** `begun` is when the stop began, and `owners` how many callers were handed its children. */
  datatype State = State(
    tasks: seq<Task>,
    next: nat,
    children: Children<nat>,
    outcomes: seq<(nat, Status)>,
    notStarted: seq<nat>,
    clock: nat,
    begun: Option<nat>,
    owners: nat)

  datatype Step =
    | Pull
    | StartCheck(i: nat)
    | SpawnFails(i: nat)
    | Register(i: nat, pid: int)
    | Deregister(i: nat)
    | Judge(i: nat, timedOut: bool, waited: Waited)
    | Again(i: nat)
    | Finish(i: nat, status: Status)
    | Report(i: nat)
    | Begin

  function Init(n: nat): State {
    State(seq(n, _ => Task(Waiting, 0, 0)), 0, Fresh(), [], [], 0, None, 0)
  }

  // ----- the window -----

  predicate HoldsSlot(t: Task) {
    !t.phase.Waiting? && !t.phase.Reported?
  }

  function InFlight(tasks: seq<Task>): nat {
    if tasks == [] then 0
    else InFlight(tasks[..|tasks| - 1]) + if HoldsSlot(tasks[|tasks| - 1]) then 1 else 0
  }

  // ----- steps -----

  predicate Enabled(s: State, step: Step, fanout: nat) {
    match step
    case Pull => s.next < |s.tasks| && InFlight(s.tasks) < fanout
    case StartCheck(i) => i < |s.tasks| && s.tasks[i].phase.Queued?
    case SpawnFails(i) => i < |s.tasks| && s.tasks[i].phase.Starting?
    case Register(i, _) => i < |s.tasks| && s.tasks[i].phase.Starting?
    case Deregister(i) => i < |s.tasks| && s.tasks[i].phase.Alive?
    case Judge(i, _, _) => i < |s.tasks| && s.tasks[i].phase.Leaving?
    case Again(i) =>
      i < |s.tasks| && s.tasks[i].phase.Judged? && s.tasks[i].phase.conn == 1 && s.tasks[i].phase.status.Ok?
    case Finish(i, status) =>
      // A launch or a copy that ended well may still be read as running, or as one nothing came of.
      && i < |s.tasks| && s.tasks[i].phase.Judged?
      && (status == s.tasks[i].phase.status
          || (s.tasks[i].phase.status.Ok? && (status == Status.Running || status == Status.Unreachable)))
    case Report(i) => i < |s.tasks| && s.tasks[i].phase.Finished?
    case Begin => true
  }

  /** One Host moves on, and time with it. */
  function Move(s: State, i: nat, t: Task): State
    requires i < |s.tasks|
  {
    s.(tasks := s.tasks[i := t], clock := s.clock + 1)
  }

  function Apply(s: State, step: Step, fanout: nat): (s': State)
    requires Enabled(s, step, fanout)
    ensures |s'.tasks| == |s.tasks|
  {
    match step
    case Pull => Move(s, s.next, s.tasks[s.next].(phase := Queued)).(next := s.next + 1)
    case StartCheck(i) =>
      Move(s, i, s.tasks[i].(phase := if s.children.stopped then Finished(None) else Starting(1)))
    case SpawnFails(i) => Move(s, i, s.tasks[i].(phase := Finished(Some(Status.Unreachable))))
    case Register(i, pid) =>
      // A failed registration means the task sends the SIGTERM itself.
      Move(s, i, Task(Alive(s.tasks[i].phase.conn), s.tasks[i].left, if s.children.stopped then 1 else 0))
      .(children := Registered(s.children, i, pid))
    case Deregister(i) =>
      Move(s, i, s.tasks[i].(phase := Leaving(s.tasks[i].phase.conn), left := s.clock))
      .(children := Deregistered(s.children, i))
    case Judge(i, timedOut, waited) =>
      var killed := i in s.children.killed;
      Move(s, i, s.tasks[i].(phase := Judged(s.tasks[i].phase.conn, killed, StatusOf(killed, timedOut, waited))))
    case Again(i) => Move(s, i, s.tasks[i].(phase := Starting(2), terms := 0))
    case Finish(i, status) => Move(s, i, s.tasks[i].(phase := Finished(Some(status))))
    case Report(i) =>
      var result := s.tasks[i].phase.result;
      var moved := Move(s, i, s.tasks[i].(phase := Reported(result)));
      match result {
        case Some(status) => moved.(outcomes := s.outcomes + [(i, status)])
        case None => moved.(notStarted := s.notStarted + [i])
      }
    case Begin =>
      // The first caller owns the escalation, and signals every child in flight.
      if s.children.stopped then s
      else s.(children := Begun(s.children), begun := Some(s.clock), clock := s.clock + 1, owners := s.owners + 1,
              tasks := seq(|s.tasks|, k requires 0 <= k < |s.tasks| => Signalled(s.tasks[k], k in s.children.running)))
  }

  function Signalled(t: Task, inFlight: bool): Task {
    if inFlight then t.(terms := t.terms + 1) else t
  }

  /** A run of `n` Hosts: every step taken was enabled. */
  ghost predicate Runs(n: nat, fanout: nat, steps: seq<Step>)
    decreases |steps|, 0
  {
    steps == [] ||
    (Runs(n, fanout, steps[..|steps| - 1])
     && Enabled(After(n, fanout, steps[..|steps| - 1]), steps[|steps| - 1], fanout))
  }

  ghost function After(n: nat, fanout: nat, steps: seq<Step>): (s: State)
    requires Runs(n, fanout, steps)
    ensures |s.tasks| == n
    decreases |steps|, 1
  {
    if steps == [] then Init(n)
    else Apply(After(n, fanout, steps[..|steps| - 1]), steps[|steps| - 1], fanout)
  }

  // ----- the invariant -----

  /** The stop began before the Host's latest child was deregistered, or before it was registered. */
  predicate StopCaught(begun: Option<nat>, t: Task) {
    begun.Some? && begun.value < t.left
  }

  ghost predicate TaskInv(t: Task, running: bool, killed: bool, begun: Option<nat>, clock: nat) {
    && (running <==> t.phase.Alive?)
    && match t.phase
       case Waiting => !killed && t.terms == 0
       case Queued => !killed && t.terms == 0
       case Starting(conn) => !killed && t.terms == 0 && 1 <= conn <= 2
       case Alive(conn) =>
         && (killed <==> begun.Some?) && t.terms == (if killed then 1 else 0) && 1 <= conn <= 2
       case Leaving(conn) =>
         && t.left < clock && (killed <==> StopCaught(begun, t))
         && t.terms == (if killed then 1 else 0) && 1 <= conn <= 2
       case Judged(conn, k, status) =>
         && t.left < clock && (killed <==> StopCaught(begun, t)) && k == killed
         && t.terms == (if killed then 1 else 0) && 1 <= conn <= 2 && (killed ==> status.Cancelled?)
       case Finished(result) =>
         (killed ==> result == Some(Cancelled)) && (result.None? ==> begun.Some?) && t.terms <= 1
       case Reported(result) =>
         (killed ==> result == Some(Cancelled)) && (result.None? ==> begun.Some?) && t.terms <= 1
  }

  /** Every report came from the Host it names, and no Host reported twice. */
  ghost predicate ReportsInv(s: State) {
    && (forall k :: 0 <= k < |s.outcomes| ==>
          s.outcomes[k].0 < |s.tasks| && s.tasks[s.outcomes[k].0].phase == Reported(Some(s.outcomes[k].1)))
    && (forall k :: 0 <= k < |s.notStarted| ==>
          s.notStarted[k] < |s.tasks| && s.tasks[s.notStarted[k]].phase == Reported(None))
    && (forall j, k :: 0 <= j < k < |s.outcomes| ==> s.outcomes[j].0 != s.outcomes[k].0)
    && (forall j, k :: 0 <= j < k < |s.notStarted| ==> s.notStarted[j] != s.notStarted[k])
    && (forall i :: 0 <= i < |s.tasks| && s.tasks[i].phase.Reported? ==>
          var result := s.tasks[i].phase.result;
          if result.Some? then (i, result.value) in s.outcomes else i in s.notStarted)
    && CountReported(s.tasks) == |s.outcomes| + |s.notStarted|
  }

  function CountReported(tasks: seq<Task>): nat {
    if tasks == [] then 0
    else CountReported(tasks[..|tasks| - 1]) + if tasks[|tasks| - 1].phase.Reported? then 1 else 0
  }

  /** Hosts are pulled in order, at most `fanout` hold a slot, and the stop began at most once. */
  ghost predicate WindowInv(s: State, fanout: nat) {
    && s.next <= |s.tasks|
    && (forall i :: 0 <= i < |s.tasks| ==> (s.tasks[i].phase.Waiting? <==> s.next <= i))
    && InFlight(s.tasks) <= fanout
    && s.owners == (if s.children.stopped then 1 else 0)
  }

  ghost predicate TasksInv(s: State) {
    && Consistent(s.children)
    && (s.children.stopped <==> s.begun.Some?) && (s.begun.Some? ==> s.begun.value < s.clock)
    && (forall i :: 0 <= i < |s.tasks| ==>
          TaskInv(s.tasks[i], i in s.children.running, i in s.children.killed, s.begun, s.clock))
    && (forall i :: i in s.children.running ==> i < |s.tasks|)
  }

  ghost predicate Inv(s: State, fanout: nat) {
    WindowInv(s, fanout) && TasksInv(s) && ReportsInv(s)
  }

  // ----- counting -----

  lemma {:induction false} CountsAfterMove(tasks: seq<Task>, i: nat, t: Task)
    requires i < |tasks|
    ensures InFlight(tasks[i := t]) + (if HoldsSlot(tasks[i]) then 1 else 0)
         == InFlight(tasks) + (if HoldsSlot(t) then 1 else 0)
    ensures CountReported(tasks[i := t]) + (if tasks[i].phase.Reported? then 1 else 0)
         == CountReported(tasks) + (if t.phase.Reported? then 1 else 0)
    decreases |tasks|
  {
    var last := |tasks| - 1;
    if i == last {
      assert tasks[i := t][..last] == tasks[..last];
    } else {
      CountsAfterMove(tasks[..last], i, t);
      assert tasks[i := t][..last] == tasks[..last][i := t];
    }
  }

  lemma {:induction false} CountsByPhase(a: seq<Task>, b: seq<Task>)
    requires |a| == |b| && forall i :: 0 <= i < |a| ==> a[i].phase == b[i].phase
    ensures InFlight(a) == InFlight(b) && CountReported(a) == CountReported(b)
    decreases |a|
  {
    if a != [] {
      CountsByPhase(a[..|a| - 1], b[..|b| - 1]);
    }
  }

  lemma {:induction false} InitCounts(n: nat)
    ensures InFlight(Init(n).tasks) == 0 && CountReported(Init(n).tasks) == 0
  {
    if n > 0 {
      InitCounts(n - 1);
      assert Init(n).tasks[..n - 1] == Init(n - 1).tasks;
    }
  }

  // ----- every step keeps the invariant -----

  /** Every other Host is in flight, and killed, exactly as before. */
  ghost predicate OthersUntouched(s: State, s': State, i: nat) {
    && s'.children.stopped == s.children.stopped && Consistent(s'.children)
    && (forall k :: k != i ==> (k in s'.children.running <==> k in s.children.running))
    && (forall k :: k != i ==> (k in s'.children.killed <==> k in s.children.killed))
  }

  /** A Host's step keeps its own invariant and leaves every other Host's alone. */
  lemma MoveKeepsTasks(s: State, s': State, i: nat, t: Task)
    requires TasksInv(s) && i < |s.tasks|
    requires s'.tasks == s.tasks[i := t] && s'.clock == s.clock + 1 && s'.begun == s.begun
    requires OthersUntouched(s, s', i)
    requires TaskInv(t, i in s'.children.running, i in s'.children.killed, s'.begun, s'.clock)
    ensures TasksInv(s')
  {
    assert TaskInv(s.tasks[i], i in s.children.running, i in s.children.killed, s.begun, s.clock);
  }

  /** A Host that moves within the window, or into it, without reporting. */
  lemma MoveKeepsInv(s: State, fanout: nat, s': State, i: nat, t: Task)
    requires Inv(s, fanout) && i < |s.tasks|
    requires s' == Move(s, i, t).(children := s'.children)
    requires HoldsSlot(s.tasks[i]) && HoldsSlot(t)
    requires OthersUntouched(s, s', i)
    requires TaskInv(t, i in s'.children.running, i in s'.children.killed, s'.begun, s'.clock)
    ensures Inv(s', fanout)
  {
    CountsAfterMove(s.tasks, i, t);
    MoveKeepsTasks(s, s', i, t);
  }

  lemma PullKeepsInv(s: State, fanout: nat)
    requires Inv(s, fanout) && Enabled(s, Pull, fanout)
    ensures Inv(Apply(s, Pull, fanout), fanout)
  {
    var s' := Apply(s, Pull, fanout);
    CountsAfterMove(s.tasks, s.next, s'.tasks[s.next]);
    MoveKeepsTasks(s, s', s.next, s'.tasks[s.next]);
  }

  lemma ReportKeepsReports(s: State, fanout: nat, i: nat)
    requires ReportsInv(s) && Enabled(s, Report(i), fanout)
    ensures ReportsInv(Apply(s, Report(i), fanout))
  {
    if s.tasks[i].phase.result.Some? {
      OutcomeKeepsReports(s, fanout, i);
    } else {
      NotStartedKeepsReports(s, fanout, i);
    }
  }

  lemma OutcomeKeepsReports(s: State, fanout: nat, i: nat)
    requires ReportsInv(s) && Enabled(s, Report(i), fanout) && s.tasks[i].phase.result.Some?
    ensures ReportsInv(Apply(s, Report(i), fanout))
  {
    var s' := Apply(s, Report(i), fanout);
    CountsAfterMove(s.tasks, i, s'.tasks[i]);
    forall k | 0 <= k < |s.outcomes| ensures s.outcomes[k].0 != i {}
    assert s'.outcomes[|s.outcomes|].0 == i;
  }

  lemma NotStartedKeepsReports(s: State, fanout: nat, i: nat)
    requires ReportsInv(s) && Enabled(s, Report(i), fanout) && s.tasks[i].phase.result.None?
    ensures ReportsInv(Apply(s, Report(i), fanout))
  {
    var s' := Apply(s, Report(i), fanout);
    CountsAfterMove(s.tasks, i, s'.tasks[i]);
    forall k | 0 <= k < |s.notStarted| ensures s.notStarted[k] != i {}
    assert s'.notStarted[|s.notStarted|] == i;
  }

  lemma ReportKeepsInv(s: State, fanout: nat, i: nat)
    requires Inv(s, fanout) && Enabled(s, Report(i), fanout)
    ensures Inv(Apply(s, Report(i), fanout), fanout)
  {
    var s' := Apply(s, Report(i), fanout);
    ReportKeepsReports(s, fanout, i);
    CountsAfterMove(s.tasks, i, s'.tasks[i]);
    assert TaskInv(s.tasks[i], i in s.children.running, i in s.children.killed, s.begun, s.clock);
    MoveKeepsTasks(s, s', i, s'.tasks[i]);
  }

  lemma BeginKeepsInv(s: State, fanout: nat)
    requires Inv(s, fanout)
    ensures Inv(Apply(s, Begin, fanout), fanout)
  {
    var s' := Apply(s, Begin, fanout);
    CountsByPhase(s.tasks, s'.tasks);
    forall k | 0 <= k < |s'.tasks|
      ensures TaskInv(s'.tasks[k], k in s'.children.running, k in s'.children.killed, s'.begun, s'.clock)
    {
      assert TaskInv(s.tasks[k], k in s.children.running, k in s.children.killed, s.begun, s.clock);
    }
  }

  lemma RegisterKeepsInv(s: State, fanout: nat, i: nat, pid: int)
    requires Inv(s, fanout) && Enabled(s, Register(i, pid), fanout)
    ensures Inv(Apply(s, Register(i, pid), fanout), fanout)
  {
    var s' := Apply(s, Register(i, pid), fanout);
    ConsistencyKept(s.children, i, pid);
    MoveKeepsInv(s, fanout, s', i, s'.tasks[i]);
  }

  lemma DeregisterKeepsInv(s: State, fanout: nat, i: nat)
    requires Inv(s, fanout) && Enabled(s, Deregister(i), fanout)
    ensures Inv(Apply(s, Deregister(i), fanout), fanout)
  {
    var s' := Apply(s, Deregister(i), fanout);
    MoveKeepsInv(s, fanout, s', i, s'.tasks[i]);
  }

  /** The steps that leave the shared state alone. */
  lemma OwnStepKeepsInv(s: State, fanout: nat, step: Step)
    requires Inv(s, fanout) && Enabled(s, step, fanout)
    requires step.StartCheck? || step.SpawnFails? || step.Judge? || step.Again? || step.Finish?
    ensures Inv(Apply(s, step, fanout), fanout)
  {
    var s' := Apply(s, step, fanout);
    assert TaskInv(s.tasks[step.i], step.i in s.children.running, step.i in s.children.killed, s.begun, s.clock);
    MoveKeepsInv(s, fanout, s', step.i, s'.tasks[step.i]);
  }

  lemma StepKeepsInv(s: State, fanout: nat, step: Step)
    requires Inv(s, fanout) && Enabled(s, step, fanout)
    ensures Inv(Apply(s, step, fanout), fanout)
  {
    match step {
      case Pull => PullKeepsInv(s, fanout);
      case Register(i, pid) => RegisterKeepsInv(s, fanout, i, pid);
      case Deregister(i) => DeregisterKeepsInv(s, fanout, i);
      case Report(i) => ReportKeepsInv(s, fanout, i);
      case Begin => BeginKeepsInv(s, fanout);
      case _ => OwnStepKeepsInv(s, fanout, step);
    }
  }

  /** What every step keeps holds after every run. */
  lemma {:induction false} RunsKeepInv(n: nat, fanout: nat, steps: seq<Step>)
    requires Runs(n, fanout, steps)
    ensures Inv(After(n, fanout, steps), fanout)
    decreases |steps|
  {
    if steps == [] {
      InitCounts(n);
    } else {
      RunsKeepInv(n, fanout, steps[..|steps| - 1]);
      StepKeepsInv(After(n, fanout, steps[..|steps| - 1]), fanout, steps[|steps| - 1]);
    }
  }
}
