/** One connection, from its registration to its judgement, with every other task free to act in between. */
module Settling {
  import opened Wrappers
  import opened Interrupts
  import opened Outcomes

  /** What other tasks do to the state this one shares with them. */
  datatype Other<K> = Registers(host: K, pid: int) | Deregisters(host: K) | Begins

  predicate Leaves<K(==)>(others: seq<Other<K>>, host: K) {
    forall i :: 0 <= i < |others| ==> others[i].Begins? || others[i].host != host
  }

  /** The Host is in flight or not, and killed or not, as its own steps and the stop left it. */
  ghost predicate Stands<K(!new)>(c: Children<K>, host: K, inFlight: bool, killed: bool) {
    && Consistent(c)
    && (host in c.running <==> inFlight)
    && (host in c.killed <==> killed)
  }

  /** Lets the other tasks act. Names are distinct, so none of them speaks for this Host. */
  method LetOthers<K(!new)>(interrupt: Interrupt<K>, others: seq<Other<K>>, host: K)
    requires Leaves(others, host) && Consistent(interrupt.State())
    modifies interrupt
    ensures interrupt.stopped <==> old(interrupt.stopped) || Begins in others
    ensures Stands(interrupt.State(), host, host in old(interrupt.running),
                   host in old(interrupt.killed)
                   || (!old(interrupt.stopped) && interrupt.stopped && host in old(interrupt.running)))
  {
    for i := 0 to |others|
      invariant interrupt.stopped <==> old(interrupt.stopped) || Begins in others[..i]
      invariant Stands(interrupt.State(), host, host in old(interrupt.running),
                       host in old(interrupt.killed)
                       || (!old(interrupt.stopped) && interrupt.stopped && host in old(interrupt.running)))
    {
      ConsistencyKept(interrupt.State(), host, 0);
      match others[i] {
        case Registers(other, pid) =>
          ConsistencyKept(interrupt.State(), other, pid);
          var _ := interrupt.Register(other, pid);
        case Deregisters(other) =>
          ConsistencyKept(interrupt.State(), other, 0);
          interrupt.Deregister(other);
        case Begins =>
          var _ := interrupt.Begin();
      }
      assert others[..i + 1] == others[..i] + [others[i]];
    }
    assert others[..|others|] == others;
  }

  /**
   Settles one connection. `before`, `during` and `after` are what the other tasks
   do before the child is registered, while it is, and between that and the
   judgement. A child without a pid is never registered.
   */
  method Settle<K(!new)>(interrupt: Interrupt<K>, host: K, pid: int, waited: Waited, timedOut: bool,
                   before: seq<Other<K>>, during: seq<Other<K>>, after: seq<Other<K>>)
    returns (status: Status, killed: bool, ownTerm: bool)
    requires Consistent(interrupt.State()) && host !in interrupt.running && host !in interrupt.killed
    requires Leaves(before, host) && Leaves(during, host) && Leaves(after, host)
    modifies interrupt
    // Caught by a stop before it was deregistered, and only then.
    ensures killed <==> pid != 0 && (old(interrupt.stopped) || Begins in before || Begins in during)
    ensures ownTerm <==> pid != 0 && (old(interrupt.stopped) || Begins in before)
    ensures killed ==> status == Cancelled
    ensures !killed ==> status == StatusOf(false, timedOut, waited)
    ensures Stands(interrupt.State(), host, false, killed)
  {
    LetOthers(interrupt, before, host);
    ownTerm := false;
    if pid != 0 {
      ConsistencyKept(interrupt.State(), host, pid);
      var leave := interrupt.Register(host, pid);
      ownTerm := !leave;
    }
    LetOthers(interrupt, during, host);
    if pid != 0 {
      ConsistencyKept(interrupt.State(), host, pid);
      interrupt.Deregister(host);
    }
    LetOthers(interrupt, after, host);
    killed := interrupt.WasKilled(host);
    status := StatusOf(killed, timedOut, waited);
  }

  // ----- whose pid is handed over -----

  function AfterAll<K>(ops: seq<Other<K>>): Children<K> {
    if ops == [] then Fresh()
    else
      var c := AfterAll(ops[..|ops| - 1]);
      match ops[|ops| - 1]
      case Registers(host, pid) => Registered(c, host, pid)
      case Deregisters(host) => Deregistered(c, host)
      case Begins => Begun(c)
  }

  /** The pid a Host was last registered with, unless it was deregistered since. */
  function LatestPid<K(==)>(ops: seq<Other<K>>, host: K): Option<int> {
    if ops == [] then None
    else
      match ops[|ops| - 1]
      case Registers(h, pid) => if h == host then Some(pid) else LatestPid(ops[..|ops| - 1], host)
      case Deregisters(h) => if h == host then None else LatestPid(ops[..|ops| - 1], host)
      case Begins => LatestPid(ops[..|ops| - 1], host)
  }

  /**
   What is in flight, and so what the first stop is handed to terminate, is each
   Host with the pid it was last registered with; and the run is stopping exactly
   when a stop has begun.
   */
  lemma {:induction false} InFlightByItsPid<K>(ops: seq<Other<K>>, host: K)
    ensures var c := AfterAll(ops);
            && (host in c.running <==> LatestPid(ops, host).Some?)
            && (host in c.running ==> LatestPid(ops, host) == Some(c.running[host]))
            && (c.stopped <==> Begins in ops)
    decreases |ops|
  {
    if ops != [] {
      InFlightByItsPid(ops[..|ops| - 1], host);
      assert ops == ops[..|ops| - 1] + [ops[|ops| - 1]];
    }
  }
}
