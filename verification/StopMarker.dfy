/**
 The marker a command is stopped by. On the Host a wrapper writes its pid to the
 marker, runs the command below itself and removes the marker; a stop reads the
 marker, removes it, and kills what it named. Steps of the two interleave freely.
 */
module StopMarkers {

  datatype Marker = Absent | Empty | Holds(pid: nat)

  /** How far the wrapper is. */
  datatype Phase = Forked | Created | Written | Running | Ended | Removed | Killed

  /** How far the stop is, and what it read. */
  datatype Stop = Idle | HasRead(found: Marker) | Cleared(found: Marker) | Done

  /** `filled` is whether the wrapper's pid ever reached the marker; `seen` whether it had when the stop read. */
  datatype State = State(marker: Marker, phase: Phase, stop: Stop, filled: bool, seen: bool)

  /** The write is two steps, creating the file and filling it, or fails. */
  datatype Step = Create | Fill | CannotWrite | Start | End | Remove | Read | Discard | Kill

  predicate Enabled(s: State, step: Step) {
    match step
    case Create => s.phase.Forked?
    case CannotWrite => s.phase.Forked?
    case Fill => s.phase.Created?
    case Start => s.phase.Written?
    case End => s.phase.Running?
    case Remove => s.phase.Ended?
    case Read => s.stop.Idle?
    case Discard => s.stop.HasRead?
    case Kill => s.stop.Cleared?
  }

  function Apply(own: nat, s: State, step: Step): State
    requires Enabled(s, step)
  {
    match step
    case Create => s.(phase := Created, marker := Empty)
    case CannotWrite => s.(phase := Written)
    // A marker that was removed since it was created takes what is written with it.
    case Fill => s.(phase := Written, filled := true, marker := if s.marker.Empty? then Holds(own) else s.marker)
    case Start => s.(phase := Running)
    case End => s.(phase := Ended)
    case Remove => s.(phase := Removed, marker := Absent)
    case Read => s.(stop := if s.marker.Absent? then Done else HasRead(s.marker), seen := s.filled)
    case Discard => s.(stop := Cleared(s.stop.found), marker := Absent)
    case Kill =>
      // The wrapper's own pid names the wrapper and everything below it, while it lives.
      s.(stop := Done, phase := if s.stop.found == Holds(own) && !s.phase.Removed? then Killed else s.phase)
  }

  // ----- every interleaving -----

  predicate Runs(own: nat, steps: seq<Step>)
    decreases |steps|, 0
  {
    steps == [] ||
    (Runs(own, steps[..|steps| - 1]) && Enabled(After(own, steps[..|steps| - 1]), steps[|steps| - 1]))
  }

  function After(own: nat, steps: seq<Step>): State
    requires Runs(own, steps)
    decreases |steps|, 1
  {
    if steps == [] then State(Absent, Forked, Idle, false, false)
    else Apply(own, After(own, steps[..|steps| - 1]), steps[|steps| - 1])
  }

  /** Nothing of the command runs, or ever will. */
  predicate Over(s: State) {
    s.phase.Ended? || s.phase.Removed? || s.phase.Killed?
  }

  function Found(s: State): Marker {
    match s.stop
    case HasRead(found) => found
    case Cleared(found) => found
    case _ => Absent
  }

  predicate WrapperInv(own: nat, s: State) {
    && (s.phase.Forked? ==> s.marker.Absent?)
    && (s.phase.Forked? || s.phase.Created? ==> !s.filled)
    && (s.phase.Removed? || s.phase.Killed? ==> s.marker.Absent?)
    && (s.marker.Empty? ==> s.phase.Created?)
    && (s.marker.Holds? ==> s.marker.pid == own && s.filled)
    && (s.phase.Killed? ==> s.stop.Done? && s.seen)
  }

  predicate StopInv(own: nat, s: State) {
    && (s.seen ==> s.filled)
    && (s.stop.Idle? ==> !s.seen)
    // Until a stop takes it the marker is there for as long as the command might be.
    && (s.stop.Idle? && s.phase.Created? ==> s.marker.Empty?)
    && (s.stop.Idle? && s.filled && !s.phase.Removed? ==> s.marker == Holds(own))
    && (s.stop.HasRead? || s.stop.Cleared? ==> !s.phase.Forked?)
    && (s.stop.HasRead? || s.stop.Cleared? ==> Found(s) == if s.seen then Holds(own) else Empty)
    && (s.stop.Cleared? ==> s.marker.Absent?)
    && (s.stop.Done? && s.seen ==> Over(s))
  }

  lemma StepKeepsInv(own: nat, s: State, step: Step)
    requires WrapperInv(own, s) && StopInv(own, s) && Enabled(s, step)
    ensures WrapperInv(own, Apply(own, s, step)) && StopInv(own, Apply(own, s, step))
  {
  }

  lemma {:induction false} RunsKeepInv(own: nat, steps: seq<Step>)
    requires Runs(own, steps)
    ensures WrapperInv(own, After(own, steps)) && StopInv(own, After(own, steps))
    decreases |steps|
  {
    if steps != [] {
      RunsKeepInv(own, steps[..|steps| - 1]);
      StepKeepsInv(own, After(own, steps[..|steps| - 1]), steps[|steps| - 1]);
    }
  }

  /**
   A stop that reads after the pid was written either finds no marker, and then
   the wrapper has removed it after the command's end, or finds the wrapper's own
   pid.
   */
  lemma {:induction false} LateReadIsTrue(own: nat, steps: seq<Step>)
    requires Runs(own, steps + [Read]) && Runs(own, steps) && After(own, steps).filled
    ensures var before, after := After(own, steps), After(own, steps + [Read]);
            if after.stop.Done? then before.marker.Absent? && before.phase.Removed?
            else after.stop == HasRead(Holds(own))
  {
    assert (steps + [Read])[..|steps|] == steps;
    RunsKeepInv(own, steps);
  }

  /** No other process's pid is ever read, and the wrapper is killed only by a stop that read its pid. */
  lemma {:induction false} OnlyTheWrapperIsKilled(own: nat, steps: seq<Step>)
    requires Runs(own, steps)
    ensures var s := After(own, steps);
            && (Found(s).Holds? ==> Found(s).pid == own)
            && (s.phase.Killed? ==> s.seen)
  {
    RunsKeepInv(own, steps);
  }

  /** Once the wrapper is gone, however it went, no marker is left behind. */
  lemma {:induction false} NoMarkerIsLeft(own: nat, steps: seq<Step>)
    requires Runs(own, steps)
    ensures var s := After(own, steps);
            s.phase.Removed? || s.phase.Killed? ==> s.marker.Absent?
  {
    RunsKeepInv(own, steps);
  }

  // ----- when a stop can be relied on -----

  /** However the run goes on from here, a stop that is done leaves nothing running. */
  ghost predicate Reliable(own: nat, steps: seq<Step>) {
    forall more :: Runs(own, steps + more) && After(own, steps + more).stop.Done? ==> Over(After(own, steps + more))
  }

  /** What the stop saw, and that the command is over, are never unsaid. */
  lemma {:induction false} NothingIsUnsaid(own: nat, steps: seq<Step>, more: seq<Step>)
    requires Runs(own, steps + more)
    ensures Runs(own, steps)
    ensures var s, s' := After(own, steps), After(own, steps + more);
            && (!s.stop.Idle? ==> !s'.stop.Idle? && s'.seen == s.seen)
            && (Over(s) ==> Over(s'))
    decreases |more|
  {
    if more == [] {
      assert steps + more == steps;
    } else {
      var n := |more| - 1;
      assert (steps + more)[..|steps + more| - 1] == steps + more[..n];
      NothingIsUnsaid(own, steps, more[..n]);
      assert (steps + more)[|steps + more| - 1] == more[n];
    }
  }

  lemma Extend(own: nat, steps: seq<Step>, step: Step)
    requires Runs(own, steps) && Enabled(After(own, steps), step)
    ensures Runs(own, steps + [step]) && After(own, steps + [step]) == Apply(own, After(own, steps), step)
  {
    assert (steps + [step])[..|steps|] == steps;
  }

  /** A stop that read too early is done while the command runs. */
  lemma {:induction false} EarlyReadMisses(own: nat, steps: seq<Step>) returns (more: seq<Step>)
    requires Runs(own, steps)
    requires var s := After(own, steps); !s.stop.Idle? && !s.seen && !Over(s)
    ensures Runs(own, steps + more)
    ensures var s := After(own, steps + more); s.stop.Done? && s.phase.Running?
    decreases var s := After(own, steps);
              (if s.stop.Done? then 0 else if s.stop.Cleared? then 1 else 2)
              + (if s.phase.Running? then 0 else if s.phase.Written? then 1 else if s.phase.Created? then 2 else 3)
  {
    var s := After(own, steps);
    RunsKeepInv(own, steps);
    if s.stop.Done? && s.phase.Running? {
      more := [];
      assert steps + more == steps;
    } else {
      var step := match s.stop
        case HasRead(_) => Discard
        case Cleared(_) => Kill
        case _ => if s.phase.Forked? then CannotWrite else if s.phase.Created? then Fill else Start;
      Extend(own, steps, step);
      var rest := EarlyReadMisses(own, steps + [step]);
      more := [step] + rest;
      assert steps + more == steps + [step] + rest;
    }
  }

  /** A stop that has read can be relied on from here exactly when it saw the pid, or the command is over. */
  lemma {:induction false} ReliableFromHere(own: nat, steps: seq<Step>)
    requires Runs(own, steps) && !After(own, steps).stop.Idle?
    ensures Reliable(own, steps) <==> After(own, steps).seen || Over(After(own, steps))
  {
    var s := After(own, steps);
    if s.seen || Over(s) {
      forall more | Runs(own, steps + more) && After(own, steps + more).stop.Done?
        ensures Over(After(own, steps + more))
      {
        NothingIsUnsaid(own, steps, more);
        RunsKeepInv(own, steps + more);
      }
    } else {
      var more := EarlyReadMisses(own, steps);
      assert !Over(After(own, steps + more));
    }
  }

  /**
   At the moment a stop reads it can be relied on exactly when the pid has been
   written by then, or the command is over by then.
   */
  lemma {:induction false} WhenAStopIsReliable(own: nat, steps: seq<Step>)
    requires Runs(own, steps) && Runs(own, steps + [Read])
    ensures Reliable(own, steps + [Read]) <==> After(own, steps).filled || Over(After(own, steps))
  {
    assert (steps + [Read])[..|steps|] == steps;
    ReliableFromHere(own, steps + [Read]);
  }

  /** A stop that reads the marker while it is empty removes it and kills nothing; the command then starts. */
  lemma {:induction false} AnEmptyReadMisses(own: nat)
    ensures var steps := [Create, Read, Discard, Kill, Fill, Start];
            Runs(own, steps) && After(own, steps).stop.Done? && After(own, steps).phase.Running?
    ensures Runs(own, [Create, Read]) && !Reliable(own, [Create, Read])
  {
    assert [] + [Create] == [Create] && [Create] + [Read] == [Create, Read];
    Extend(own, [], Create);
    Extend(own, [Create], Read);
    assert [Create, Read] + [Discard] == [Create, Read, Discard];
    Extend(own, [Create, Read], Discard);
    assert [Create, Read, Discard] + [Kill] == [Create, Read, Discard, Kill];
    Extend(own, [Create, Read, Discard], Kill);
    assert [Create, Read, Discard, Kill] + [Fill] == [Create, Read, Discard, Kill, Fill];
    Extend(own, [Create, Read, Discard, Kill], Fill);
    assert [Create, Read, Discard, Kill, Fill] + [Start] == [Create, Read, Discard, Kill, Fill, Start];
    Extend(own, [Create, Read, Discard, Kill, Fill], Start);
    assert [Create, Read] + [Discard, Kill, Fill, Start] == [Create, Read, Discard, Kill, Fill, Start];
  }
}
