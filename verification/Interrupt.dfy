/**
 The state an interrupt and the Hosts' tasks share: which ssh children are in
 flight, whether the run is stopping, and which Hosts it killed.
 */
module Interrupts {
  import opened Wrappers

  datatype Children<!K> = Children(stopped: bool, running: map<K, int>, killed: set<K>)

  function Fresh<K>(): Children<K> {
    Children(false, map[], {})
  }

  function Registered<K>(c: Children<K>, host: K, pid: int): Children<K> {
    c.(running := c.running[host := pid], killed := if c.stopped then c.killed + {host} else c.killed)
  }

  function Deregistered<K>(c: Children<K>, host: K): Children<K> {
    c.(running := c.running - {host})
  }

  function Begun<K>(c: Children<K>): Children<K> {
    if c.stopped then c else c.(stopped := true, killed := c.killed + c.running.Keys)
  }

  /** Before a stop nobody is killed; from the stop on, whoever is in flight is. */
  ghost predicate Consistent<K(!new)>(c: Children<K>) {
    && (!c.stopped ==> c.killed == {})
    && (c.stopped ==> c.running.Keys <= c.killed)
  }

  lemma ConsistencyKept<K(!new)>(c: Children<K>, host: K, pid: int)
    requires Consistent(c)
    ensures Consistent(Registered(c, host, pid))
    ensures Consistent(Deregistered(c, host))
    ensures Consistent(Begun(c)) && Begun(c).stopped
  {
  }

  class Interrupt<K(==)> {
    var stopped: bool
    var running: map<K, int>
    var killed: set<K>

    ghost function State(): Children<K>
      reads this
    {
      Children(stopped, running, killed)
    }

    constructor ()
      ensures State() == Fresh()
    {
      stopped, running, killed := false, map[], {};
    }

    /** Puts a child in flight; a refusal tells its own task to terminate it. */
    method Register(host: K, pid: int) returns (leave: bool)
      modifies this
      ensures State() == Registered(old(State()), host, pid)
      ensures leave == !old(stopped)
    {
      running := running[host := pid];
      if stopped {
        killed := killed + {host};
        leave := false;
      } else {
        leave := true;
      }
    }

    method Deregister(host: K)
      modifies this
      ensures State() == Deregistered(old(State()), host)
    {
      running := running - {host};
    }

    method WasKilled(host: K) returns (was: bool)
      ensures was <==> host in State().killed
    {
      was := host in killed;
    }

    /** Begins the stop. Whoever is first is handed what is in flight, and has it to terminate; nobody else is. */
    method Begin() returns (snapshot: Option<map<K, int>>)
      modifies this
      ensures State() == Begun(old(State()))
      ensures snapshot == if old(stopped) then None else Some(old(running))
    {
      if stopped {
        return None;
      }
      stopped := true;
      var left := running.Keys;
      // The marks are all made in this one step, before anyone is signalled.
      while left != {}
        invariant left <= running.Keys && running == old(running) && stopped
        invariant killed == old(killed) + (running.Keys - left)
        decreases left
      {
        var host :| host in left;
        killed := killed + {host};
        left := left - {host};
      }
      return Some(running);
    }
  }
}
