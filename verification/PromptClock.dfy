/**
 What each Host's password asks have cost it in time. Time is discrete,
 and whoever reads the clock passes in the instant it read.
 */
module PromptClocks {
  import opened Wrappers

  type Host = string

  /** `since` is set while an ask is out; `spent` is the cost of those that are over. */
  datatype Waiting = Waiting(since: Option<nat>, spent: nat)

  type Clock = map<Host, Waiting>

  /** The time since an instant; zero for one that is not in the past. */
  function Elapsed(since: nat, now: nat): nat {
    if since <= now then now - since else 0
  }

  function Total(waiting: Waiting, now: nat): nat {
    match waiting.since
    case Some(at) => waiting.spent + Elapsed(at, now)
    case None => waiting.spent
  }

  function SpentBy(hosts: Clock, host: Host, now: nat): nat {
    if host in hosts then Total(hosts[host], now) else 0
  }

  predicate Asking(hosts: Clock, host: Host) {
    host in hosts && hosts[host].since.Some?
  }

  function Opened(hosts: Clock, host: Host, now: nat): Clock {
    hosts[host := Waiting(Some(now), if host in hosts then hosts[host].spent else 0)]
  }

  function Closed(hosts: Clock, host: Host, now: nat): Clock {
    if Asking(hosts, host) then hosts[host := Waiting(None, Total(hosts[host], now))] else hosts
  }

  /** The clock every deadline of a run is read from. */
  class PromptClock {
    var hosts: Clock

    constructor ()
      ensures hosts == map[]
    {
      hosts := map[];
    }

    /** The ask goes out. */
    method AskingNow(host: Host, now: nat)
      modifies this
      ensures hosts == Opened(old(hosts), host, now)
    {
      var waiting := if host in hosts then hosts[host] else Waiting(None, 0);
      hosts := hosts[host := waiting.(since := Some(now))];
    }

    /** The ask comes back: what dropping its guard does. */
    method Release(host: Host, now: nat)
      modifies this
      ensures hosts == Closed(old(hosts), host, now)
    {
      if host in hosts {
        var waiting := hosts[host];
        match waiting.since {
          case Some(at) => hosts := hosts[host := Waiting(None, waiting.spent + Elapsed(at, now))];
          case None =>
        }
      }
    }
  }

  // ----- the clock over a whole run -----

  datatype ClockEvent = Tick | Open(host: Host) | Close(host: Host)

  function Apply(at: (nat, Clock), event: ClockEvent): (nat, Clock) {
    match event
    case Tick => (at.0 + 1, at.1)
    case Open(host) => (at.0, Opened(at.1, host, at.0))
    case Close(host) => (at.0, Closed(at.1, host, at.0))
  }

  /** The instant, and the clock, after a run of events. */
  function After(events: seq<ClockEvent>): (nat, Clock) {
    if events == [] then (0, map[]) else Apply(After(events[..|events| - 1]), events[|events| - 1])
  }

  /** Whether the Host's latest event is an ask going out. */
  function Out(events: seq<ClockEvent>, host: Host): bool {
    if events == [] then false
    else
      var e := events[|events| - 1];
      if e == Open(host) then true
      else if e == Close(host) then false
      else Out(events[..|events| - 1], host)
  }

  /** How many ticks passed while this Host's ask was out: what the clock should charge. */
  function TicksAsked(events: seq<ClockEvent>, host: Host): nat {
    if events == [] then 0
    else
      var before := events[..|events| - 1];
      TicksAsked(before, host) + if events[|events| - 1] == Tick && Out(before, host) then 1 else 0
  }

  /** One Host never has two asks out at once: its single stderr reader sees to it. */
  predicate OneAskAtATime(events: seq<ClockEvent>, host: Host) {
    events == [] ||
    (OneAskAtATime(events[..|events| - 1], host)
     && (events[|events| - 1] == Open(host) ==> !Out(events[..|events| - 1], host)))
  }

  lemma {:induction false} OutIsAsking(events: seq<ClockEvent>, host: Host)
    ensures Out(events, host) <==> Asking(After(events).1, host)
    ensures Asking(After(events).1, host) ==> After(events).1[host].since.value <= After(events).0
    decreases |events|
  {
    if events != [] {
      OutIsAsking(events[..|events| - 1], host);
    }
  }

  /** The clock charges each Host exactly the ticks its own ask was out, whatever any other Host did. */
  lemma {:induction false} SpentIsTicksAsked(events: seq<ClockEvent>, host: Host)
    requires OneAskAtATime(events, host)
    ensures var (now, hosts) := After(events);
            SpentBy(hosts, host, now) == TicksAsked(events, host)
    decreases |events|
  {
    if events != [] {
      var before := events[..|events| - 1];
      SpentIsTicksAsked(before, host);
      OutIsAsking(before, host);
    }
  }

  /** The run with every other Host's asks taken out. */
  function OwnEvents(events: seq<ClockEvent>, host: Host): seq<ClockEvent> {
    if events == [] then []
    else
      var e := events[|events| - 1];
      var own := OwnEvents(events[..|events| - 1], host);
      if e.Tick? || e.host == host then own + [e] else own
  }

  /** No other Host's ask moves what this Host is charged. */
  lemma {:induction false} OtherAsksCostNothing(events: seq<ClockEvent>, host: Host)
    ensures var (now, hosts) := After(events);
            var (now', hosts') := After(OwnEvents(events, host));
            now == now' && (host in hosts <==> host in hosts') && (host in hosts ==> hosts[host] == hosts'[host])
    decreases |events|
  {
    if events != [] {
      var e := events[|events| - 1];
      var own := OwnEvents(events[..|events| - 1], host);
      OtherAsksCostNothing(events[..|events| - 1], host);
      if e.Tick? || e.host == host {
        assert (own + [e])[..|own|] == own;
        assert After(own + [e]) == Apply(After(own), e);
      }
    }
  }

  /** Asking while an ask is out keeps the charge exactly when the first ask has cost nothing yet. */
  lemma SecondAskKeepsTheCharge(hosts: Clock, host: Host, now: nat)
    requires Asking(hosts, host) ==> hosts[host].since.value <= now
    ensures SpentBy(Opened(hosts, host, now), host, now) == SpentBy(hosts, host, now)
       <==> (Asking(hosts, host) ==> hosts[host].since == Some(now))
  {
    if Asking(hosts, host) {
      var at := hosts[host].since.value;
      assert SpentBy(hosts, host, now) == hosts[host].spent + (now - at);
    }
  }
}
