/**
 Waiting on a condition another task makes true: register, check, then park. A
 notification wakes whoever is registered when it is sent and nobody later, so a
 check made before registering could miss the only one.
 */
module Wakeups {
  import opened Wrappers
  import opened Interrupts
  import opened PromptClocks

  /** Where the waiting task is. */
  datatype Pc = Idle | Registered | Parked | Done

  /**
   `busy` is who the condition is about: the Hosts with a child in flight, or the
   Hosts with an ask out. A task in `owing` has changed that and not yet
   notified. `woken` is whether a notification came since the waiter registered.
   */
  datatype State<!K> = State(busy: set<K>, owing: set<K>, pc: Pc, woken: bool)

  datatype Step<K> =
    | Start(k: K, notifies: bool)
    | End(k: K)
    | Notify(k: K)
    | Register
    | Check
    | Resume

  /** The waiter waits for one Host, or, with none named, for every Host. */
  predicate Waits<K(==)>(target: Option<K>, k: K) {
    target.None? || target.value == k
  }

  ghost predicate Holds<K(!new)>(target: Option<K>, busy: set<K>) {
    forall k :: k in busy ==> !Waits(target, k)
  }

  /** A Host's own task starts, ends and notifies in order, one change at a time. */
  ghost predicate Enabled<K(!new)>(s: State<K>, step: Step<K>) {
    match step
    case Start(k, _) => k !in s.busy && k !in s.owing
    case End(k) => k in s.busy && k !in s.owing
    case Notify(k) => k in s.owing
    case Register => s.pc.Idle?
    case Check => s.pc.Registered?
    case Resume => s.pc.Parked? && s.woken
  }

  ghost function Apply<K(!new)>(target: Option<K>, s: State<K>, step: Step<K>): State<K> {
    match step
    case Start(k, notifies) => s.(busy := s.busy + {k}, owing := if notifies then s.owing + {k} else s.owing)
    case End(k) => s.(busy := s.busy - {k}, owing := s.owing + {k})
    case Notify(k) => s.(owing := s.owing - {k}, woken := s.woken || s.pc.Registered? || s.pc.Parked?)
    case Register => s.(pc := Registered, woken := false)
    case Check => s.(pc := if Holds(target, s.busy) then Done else Parked)
    case Resume => s.(pc := Idle)
  }

  ghost predicate Runs<K(!new)>(target: Option<K>, busy: set<K>, steps: seq<Step<K>>)
    decreases |steps|, 0
  {
    steps == [] ||
    (Runs(target, busy, steps[..|steps| - 1])
     && Enabled(After(target, busy, steps[..|steps| - 1]), steps[|steps| - 1]))
  }

  ghost function After<K(!new)>(target: Option<K>, busy: set<K>, steps: seq<Step<K>>): State<K>
    requires Runs(target, busy, steps)
    decreases |steps|, 1
  {
    if steps == [] then State(busy, {}, Idle, false)
    else Apply(target, After(target, busy, steps[..|steps| - 1]), steps[|steps| - 1])
  }

  /** A parked waiter nobody has woken still waits for someone, or is owed a notification by someone it waited for. */
  ghost predicate NotForgotten<K(!new)>(target: Option<K>, s: State<K>) {
    s.pc.Parked? && !s.woken ==> exists k :: Waits(target, k) && (k in s.busy || k in s.owing)
  }

  lemma StepForgetsNobody<K(!new)>(target: Option<K>, s: State<K>, step: Step<K>)
    requires NotForgotten(target, s) && Enabled(s, step)
    ensures NotForgotten(target, Apply(target, s, step))
  {
    var s' := Apply(target, s, step);
    if s'.pc.Parked? && !s'.woken {
      if step.Check? {
        var k :| k in s.busy && Waits(target, k);
        assert k in s'.busy;
      } else {
        var k :| Waits(target, k) && (k in s.busy || k in s.owing);
        assert k in s'.busy || k in s'.owing;
      }
    }
  }

  lemma {:induction false} NobodyIsForgotten<K(!new)>(target: Option<K>, busy: set<K>, steps: seq<Step<K>>)
    requires Runs(target, busy, steps)
    ensures NotForgotten(target, After(target, busy, steps))
    decreases |steps|
  {
    if steps != [] {
      NobodyIsForgotten(target, busy, steps[..|steps| - 1]);
      StepForgetsNobody(target, After(target, busy, steps[..|steps| - 1]), steps[|steps| - 1]);
    }
  }

  /**
   No wakeup is lost: in every reachable state a parked waiter that nobody has
   woken, though its condition holds, is owed a notification by a task it waited
   for, and that notification wakes it.
   */
  lemma NoLostWakeup<K(!new)>(target: Option<K>, busy: set<K>, steps: seq<Step<K>>) returns (k: K)
    requires Runs(target, busy, steps)
    requires var s := After(target, busy, steps); s.pc.Parked? && !s.woken && Holds(target, s.busy)
    ensures var s := After(target, busy, steps);
            && Waits(target, k) && k in s.owing && Enabled(s, Notify(k))
            && Enabled(Apply(target, s, Notify(k)), Resume)
  {
    NobodyIsForgotten(target, busy, steps);
    var s := After(target, busy, steps);
    k :| Waits(target, k) && (k in s.busy || k in s.owing);
  }

  /** One more step of a run. */
  lemma Extend<K(!new)>(target: Option<K>, busy: set<K>, steps: seq<Step<K>>, step: Step<K>)
    requires Runs(target, busy, steps) && Enabled(After(target, busy, steps), step)
    ensures Runs(target, busy, steps + [step])
    ensures After(target, busy, steps + [step]) == Apply(target, After(target, busy, steps), step)
  {
    assert (steps + [step])[..|steps|] == steps;
  }

  /** How far the waiter is from done, once its condition holds. */
  function Distance(pc: Pc, woken: bool): nat {
    match pc
    case Done => 0
    case Registered => 1
    case Idle => 2
    case Parked => if woken then 3 else 4
  }

  /** Once the condition holds the notifications already owed are enough to get the waiter through. */
  lemma {:induction false} WaiterGetsThrough<K(!new)>(target: Option<K>, busy: set<K>, steps: seq<Step<K>>)
    returns (whole: seq<Step<K>>)
    requires Runs(target, busy, steps) && Holds(target, After(target, busy, steps).busy)
    ensures steps <= whole && Runs(target, busy, whole) && After(target, busy, whole).pc.Done?
    ensures forall i :: |steps| <= i < |whole| ==> !whole[i].Start? && !whole[i].End?
    decreases var s := After(target, busy, steps); Distance(s.pc, s.woken)
  {
    var s := After(target, busy, steps);
    if s.pc.Done? {
      whole := steps;
    } else {
      var step: Step<K> := Check;
      if s.pc.Idle? {
        step := Register;
      } else if s.pc.Parked? && s.woken {
        step := Resume;
      } else if s.pc.Parked? {
        var k := NoLostWakeup(target, busy, steps);
        step := Notify(k);
      }
      Extend(target, busy, steps, step);
      whole := WaiterGetsThrough(target, busy, steps + [step]);
    }
  }

  // ----- the two waits of the program -----

  /** `all_gone` waits for every Host: registering and deregistering a child start and end it. */
  lemma ChildrenAreBusy<K(!new)>(c: Children<K>, host: K, pid: int, s: State<K>)
    requires s.busy == c.running.Keys
    ensures Apply(None, s, Start(host, false)).busy == Interrupts.Registered(c, host, pid).running.Keys
    ensures Apply(None, s, End(host)).busy == Interrupts.Deregistered(c, host).running.Keys
    ensures Holds(None, s.busy) <==> c.running == map[]
  {
    assert c.running == map[] <==> c.running.Keys == {};
    if s.busy != {} {
      var k :| k in s.busy;
      assert Waits<K>(None, k);
    }
  }

  function AskingHosts(hosts: Clock): set<Host> {
    set h | h in hosts && Asking(hosts, h)
  }

  /** `wait_out_prompt` waits for one Host: its ask going out and coming back start and end it. */
  lemma AsksAreBusy(hosts: Clock, host: Host, h: Host, now: nat, s: State<Host>)
    requires s.busy == AskingHosts(hosts)
    ensures Apply(Some(host), s, Start(h, true)).busy == AskingHosts(Opened(hosts, h, now))
    ensures Apply(Some(host), s, End(h)).busy == AskingHosts(Closed(hosts, h, now))
    ensures Holds(Some(host), s.busy) <==> !Asking(hosts, host)
  {
    if Asking(hosts, host) {
      assert host in s.busy && Waits(Some(host), host);
    }
  }
}
