/**
 What a limit is decided on. The waiting task reads two clocks one after the
 other, and the time at prompts twice; events may fall between any two readings.
 A position in a run of clock events says how many of them a reading came after.
 */
module Readings {
  import opened Wrappers
  import opened PromptClocks

  // ----- a run, summed up for one Host -----

  /** The instant, the clock, whether the Host's ask is out, its ticks, and whether its asks came one at a time. */
  datatype Summary = Summary(now: nat, hosts: Clock, out: bool, asked: nat, inTurn: bool)

  function Added(s: Summary, e: ClockEvent, host: Host): Summary {
    match e
    case Tick => s.(now := s.now + 1, asked := if s.out then s.asked + 1 else s.asked)
    case Open(h) =>
      s.(hosts := Opened(s.hosts, h, s.now), out := s.out || h == host, inTurn := s.inTurn && !(s.out && h == host))
    case Close(h) => s.(hosts := Closed(s.hosts, h, s.now), out := s.out && h != host)
  }

  function Summed(events: seq<ClockEvent>, host: Host): Summary {
    if events == [] then Summary(0, map[], false, 0, true)
    else Added(Summed(events[..|events| - 1], host), events[|events| - 1], host)
  }

  lemma OneMoreSummed(events: seq<ClockEvent>, e: ClockEvent, host: Host)
    ensures events <= events + [e] && Summed(events + [e], host) == Added(Summed(events, host), e, host)
  {
    assert (events + [e])[..|events|] == events;
  }

  /** The sum is what each of the functions on runs says on its own. */
  lemma {:induction false} SummedIsEach(events: seq<ClockEvent>, host: Host)
    ensures var s := Summed(events, host);
            && After(events) == (s.now, s.hosts) && Out(events, host) == s.out && TicksAsked(events, host) == s.asked
            && (OneAskAtATime(events, host) <==> s.inTurn)
    decreases |events|
  {
    if events != [] {
      SummedIsEach(events[..|events| - 1], host);
    }
  }

  /** What the clock holds of the Host is what the sum says; with one ask at a time, the charge too. */
  lemma {:induction false} SummedIsSound(events: seq<ClockEvent>, host: Host)
    ensures var s := Summed(events, host);
            && (s.out <==> Asking(s.hosts, host)) && (s.out ==> s.hosts[host].since.value <= s.now)
            && (s.inTurn ==> SpentBy(s.hosts, host, s.now) == s.asked) && s.asked <= s.now
    decreases |events|
  {
    if events != [] {
      SummedIsSound(events[..|events| - 1], host);
    }
  }

  // ----- measurements -----

  /**
   One measurement: when the wait began, when the time already spent at prompts
   was read, when the Host was last seen without an ask, when its time at prompts
   was read again, and last of all when the elapsed time was.
   */
  datatype Instants = Instants(start: nat, before: nat, check: nat, spent: nat, read: nat)

  predicate InOrder(events: seq<ClockEvent>, at: Instants) {
    at.start <= at.before <= at.check <= at.spent <= at.read <= |events|
  }

  /** The run up to a position, summed up. */
  function At(events: seq<ClockEvent>, host: Host, k: nat): Summary
    requires k <= |events|
  {
    Summed(events[..k], host)
  }

  function SpentAt(events: seq<ClockEvent>, host: Host, k: nat): nat
    requires k <= |events|
  {
    SpentBy(At(events, host, k).hosts, host, At(events, host, k).now)
  }

  function Less(a: nat, b: nat): nat {
    if b <= a then a - b else 0
  }

  /** The used part of the limit, as it is computed from the readings. */
  function Reading(events: seq<ClockEvent>, host: Host, at: Instants): nat
    requires InOrder(events, at)
  {
    Less(Elapsed(At(events, host, at.start).now, At(events, host, at.read).now),
         Less(SpentAt(events, host, at.spent), SpentAt(events, host, at.before)))
  }

  /** The ticks of the Host's own ask between two positions. */
  function AskedBetween(events: seq<ClockEvent>, host: Host, i: nat, j: nat): int
    requires i <= j <= |events|
  {
    At(events, host, j).asked - At(events, host, i).asked
  }

  /** The ticks between two positions while the Host had no ask out: what a limit should be held against. */
  function OwnTicks(events: seq<ClockEvent>, host: Host, i: nat, j: nat): int
    requires i <= j <= |events|
  {
    At(events, host, j).now - At(events, host, i).now - AskedBetween(events, host, i, j)
  }

  /** The ticks of its own ask that fall between two readings meant to be one. */
  function Gaps(events: seq<ClockEvent>, host: Host, at: Instants): int
    requires InOrder(events, at)
  {
    AskedBetween(events, host, at.start, at.before) + AskedBetween(events, host, at.spent, at.read)
  }

  /**
   A decision that the limit has run out: a first measurement, a sleep for what it
   left of the limit if it left anything, and a second measurement that leaves
   nothing. Neither is begun while the Host's ask is out.
   */
  predicate TimesOut(events: seq<ClockEvent>, host: Host, limit: nat, first: Instants, last: Instants) {
    && InOrder(events, first) && InOrder(events, last)
    && first.start == last.start && first.before == last.before && first.read <= last.check && last.read == |events|
    && !At(events, host, first.check).out && !At(events, host, last.check).out
    && At(events, host, first.read).now + Less(limit, Reading(events, host, first)) <= At(events, host, last.check).now
    && limit <= Reading(events, host, last)
  }

  // ----- what a reading is -----

  /** A Host is charged no more ticks than pass. */
  lemma {:induction false} ChargedAtMostWhatPasses(events: seq<ClockEvent>, host: Host, i: nat, j: nat)
    requires i <= j <= |events|
    ensures 0 <= AskedBetween(events, host, i, j) <= At(events, host, j).now - At(events, host, i).now
    decreases j
  {
    if i < j {
      ChargedAtMostWhatPasses(events, host, i, j - 1);
      assert events[..j][..j - 1] == events[..j - 1];
    }
  }

  lemma SpentAtIsCharged(events: seq<ClockEvent>, host: Host, k: nat)
    requires k <= |events| && Summed(events, host).inTurn
    ensures SpentAt(events, host, k) == At(events, host, k).asked
  {
    InTurnBefore(events, host, k);
    SummedIsSound(events[..k], host);
  }

  lemma {:induction false} InTurnBefore(events: seq<ClockEvent>, host: Host, k: nat)
    requires k <= |events| && Summed(events, host).inTurn
    ensures At(events, host, k).inTurn
    decreases |events|
  {
    if k == |events| {
      assert events[..k] == events;
    } else {
      InTurnBefore(events[..|events| - 1], host, k);
      assert events[..|events| - 1][..k] == events[..k];
    }
  }

  /** Wherever the readings fall, what they make is the Host's own time and the ticks that fell in the gaps. */
  lemma {:induction false} ReadingIsOwnTimeAndGaps(events: seq<ClockEvent>, host: Host, at: Instants)
    requires InOrder(events, at) && Summed(events, host).inTurn
    ensures Reading(events, host, at) == OwnTicks(events, host, at.start, at.read) + Gaps(events, host, at)
    ensures OwnTicks(events, host, at.start, at.read) >= 0 && Gaps(events, host, at) >= 0
  {
    SpentAtIsCharged(events, host, at.before);
    SpentAtIsCharged(events, host, at.spent);
    ChargedAtMostWhatPasses(events, host, at.start, at.before);
    ChargedAtMostWhatPasses(events, host, at.before, at.spent);
    ChargedAtMostWhatPasses(events, host, at.spent, at.read);
  }

  /** What happens later does not change a measurement already made. */
  lemma ReadingStays(events: seq<ClockEvent>, more: seq<ClockEvent>, host: Host, at: Instants)
    requires InOrder(events, at) && events <= more
    ensures InOrder(more, at) && Reading(more, host, at) == Reading(events, host, at)
    ensures At(more, host, at.check) == At(events, host, at.check) && At(more, host, at.read) == At(events, host, at.read)
  {
    assert more[..at.start] == events[..at.start] && more[..at.before] == events[..at.before];
    assert more[..at.check] == events[..at.check];
    assert more[..at.spent] == events[..at.spent] && more[..at.read] == events[..at.read];
  }

  /** Two measurements, put together: the runs are the past when each step of the decision was taken. */
  lemma Decided(calm: seq<ClockEvent>, napped: seq<ClockEvent>, again: seq<ClockEvent>, events: seq<ClockEvent>,
                host: Host, limit: nat, first: Instants, last: Instants)
    requires calm <= napped <= again <= events && !Summed(calm, host).out && !Summed(again, host).out
    requires InOrder(napped, first) && first.check == |calm|
    requires InOrder(events, last) && last.check == |again| && last.read == |events|
    requires first.start == last.start && first.before == last.before
    requires At(napped, host, first.read).now + Less(limit, Reading(napped, host, first)) <= Summed(again, host).now
    requires limit <= Reading(events, host, last)
    ensures TimesOut(events, host, limit, first, last)
  {
    ReadingStays(napped, events, host, first);
    assert napped[..|calm|] == calm && events[..|again|] == again;
  }

  // ----- when a timeout is early -----

  /**
   A timeout falls short of the limit by no more than the gaps of the measurement
   that decided it, and is early exactly when that measurement overshoots the
   limit by less than they hold.
   */
  lemma {:induction false} WhenATimeoutIsEarly(events: seq<ClockEvent>, host: Host, limit: nat, first: Instants, last: Instants)
    requires Summed(events, host).inTurn && TimesOut(events, host, limit, first, last)
    ensures limit <= OwnTicks(events, host, last.start, |events|) + Gaps(events, host, last)
    ensures OwnTicks(events, host, last.start, |events|) < limit
       <==> Reading(events, host, last) - limit < Gaps(events, host, last)
  {
    ReadingIsOwnTimeAndGaps(events, host, last);
  }

  /** No ask of the Host goes out in this stretch. */
  predicate NoOpen(events: seq<ClockEvent>, host: Host, i: nat, j: nat)
    requires i <= j <= |events|
  {
    forall k :: i <= k < j ==> events[k] != Open(host)
  }

  lemma {:induction false} NoAskNoCharge(events: seq<ClockEvent>, host: Host, i: nat, j: nat)
    requires i <= j <= |events| && !At(events, host, i).out && NoOpen(events, host, i, j)
    ensures !At(events, host, j).out && AskedBetween(events, host, i, j) == 0
    decreases j
  {
    if i < j {
      NoAskNoCharge(events, host, i, j - 1);
      assert events[..j][..j - 1] == events[..j - 1];
    }
  }

  /**
   A timeout is never early for a Host that had no ask out when the wait began,
   unless one went out before the first reading or since it was last seen without.
   */
  lemma {:induction false} OnTimeWithoutAnAsk(events: seq<ClockEvent>, host: Host, limit: nat, first: Instants, last: Instants)
    requires Summed(events, host).inTurn && TimesOut(events, host, limit, first, last)
    requires !At(events, host, last.start).out
    requires NoOpen(events, host, last.start, last.before) && NoOpen(events, host, last.check, |events|)
    ensures Gaps(events, host, last) == 0 && limit <= OwnTicks(events, host, last.start, |events|)
  {
    NoAskNoCharge(events, host, last.start, last.before);
    NoAskNoCharge(events, host, last.check, last.spent);
    NoAskNoCharge(events, host, last.spent, last.read);
    WhenATimeoutIsEarly(events, host, limit, first, last);
  }

  // ----- whether one can be -----

  /** Running out of a limit, by whether prompts are left out of it. */
  predicate RunsOut(events: seq<ClockEvent>, host: Host, limit: nat, prompts: bool, first: Instants, last: Instants) {
    if prompts then TimesOut(events, host, limit, first, last)
    else last.start <= |events| && limit <= Summed(events, host).now - At(events, host, last.start).now
  }

  /** What a limit counts. */
  function Counted(events: seq<ClockEvent>, host: Host, prompts: bool, start: nat): int
    requires start <= |events|
  {
    if prompts then OwnTicks(events, host, start, |events|)
    else Summed(events, host).now - At(events, host, start).now
  }

  lemma CountedSince(was: seq<ClockEvent>, events: seq<ClockEvent>, host: Host, prompts: bool)
    requires was <= events
    ensures var s, t := Summed(was, host), Summed(events, host);
            Counted(events, host, prompts, |was|) == (t.now - s.now) - if prompts then t.asked - s.asked else 0
  {
    assert events[..|was|] == was && events[..|events|] == events;
  }

  /** The ticks a measurement may have charged wrongly. */
  function Slack(events: seq<ClockEvent>, host: Host, prompts: bool, at: Instants): int
    requires prompts ==> InOrder(events, at)
  {
    if prompts then Gaps(events, host, at) else 0
  }

  /** Whoever runs out of a limit has counted all of it but for the slack. */
  lemma ShortByTheSlack(events: seq<ClockEvent>, host: Host, limit: nat, prompts: bool, first: Instants, last: Instants)
    requires Summed(events, host).inTurn && RunsOut(events, host, limit, prompts, first, last)
    ensures limit <= Counted(events, host, prompts, last.start) + Slack(events, host, prompts, last)
  {
    if prompts {
      WhenATimeoutIsEarly(events, host, limit, first, last);
    }
  }

  /** Ticks with nothing else. */
  function Ticks(n: nat): seq<ClockEvent> {
    if n == 0 then [] else Ticks(n - 1) + [Tick]
  }

  lemma Reassociate(a: seq<ClockEvent>, b: seq<ClockEvent>, c: seq<ClockEvent>)
    ensures a + (b + c) == a + b + c
  {
  }

  lemma {:induction false} TicksAdd(events: seq<ClockEvent>, host: Host, n: nat)
    ensures |Ticks(n)| == n
    ensures var s := Summed(events, host);
            Summed(events + Ticks(n), host) == s.(now := s.now + n, asked := if s.out then s.asked + n else s.asked)
  {
    if n == 0 {
      assert events + Ticks(0) == events;
    } else {
      TicksAdd(events, host, n - 1);
      OneMoreSummed(events + Ticks(n - 1), Tick, host);
      Reassociate(events, Ticks(n - 1), [Tick]);
    }
  }

  /** After `events` an ask of `n` ticks goes out, and after that it comes back. */
  lemma OneAsk(events: seq<ClockEvent>, host: Host, n: nat)
    requires Summed(events, host).inTurn && !Summed(events, host).out
    ensures var waits := events + [Open(host)] + Ticks(n);
            var s, t := Summed(events, host), Summed(waits, host);
            && |Ticks(n)| == n && t.inTurn && t.out && t.now == s.now + n && t.asked == s.asked + n
    ensures var waits := events + [Open(host)] + Ticks(n);
            var t, u := Summed(waits, host), Summed(waits + [Close(host)], host);
            u.inTurn && !u.out && u.now == t.now && u.asked == t.asked
  {
    OneMoreSummed(events, Open(host), host);
    TicksAdd(events + [Open(host)], host, n);
    OneMoreSummed(events + [Open(host)] + Ticks(n), Close(host), host);
  }

  function Torn(host: Host, n: nat): seq<ClockEvent> {
    [] + [Open(host)] + Ticks(n) + [Close(host)]
  }

  /**
   An ask out for the whole limit between the start of a wait and its first
   reading: the Host times out on no time at all, whatever the limit.
   */
  lemma EarlyByTheFirstGap(host: Host, limit: nat)
    ensures var events, at := Torn(host, limit), Instants(0, 1 + limit, 2 + limit, 2 + limit, 2 + limit);
            && |events| == 2 + limit && Summed(events, host).inTurn && TimesOut(events, host, limit, at, at)
            && OwnTicks(events, host, at.start, |events|) == 0
  {
    OneAsk([], host, limit);
    var waits, events := [] + [Open(host)] + Ticks(limit), Torn(host, limit);
    assert events[..0] == [];
    assert events[..1 + limit] == waits;
    assert events[..2 + limit] == events;
    ReadingIsOwnTimeAndGaps(events, host, Instants(0, 1 + limit, 2 + limit, 2 + limit, 2 + limit));
  }

  function TornTwice(host: Host, n: nat): seq<ClockEvent> {
    Torn(host, n) + [Open(host)] + Ticks(n)
  }

  lemma WhatIsTornTwice(host: Host, n: nat)
    ensures var events := TornTwice(host, n);
            && |events| == 3 + 2 * n && Summed(events, host).inTurn
            && At(events, host, 0) == Summary(0, map[], false, 0, true)
            && At(events, host, 1 + n).now == n
            && At(events, host, 2 + n).now == n && At(events, host, 2 + n).asked == n && !At(events, host, 2 + n).out
            && At(events, host, 3 + 2 * n).now == 2 * n && At(events, host, 3 + 2 * n).asked == 2 * n
            && At(events, host, 1 + n).asked == n
  {
    OneAsk([], host, n);
    OneAsk(Torn(host, n), host, n);
    var events, waits, torn := TornTwice(host, n), [] + [Open(host)] + Ticks(n), Torn(host, n);
    Extends(waits, [Close(host)]);
    Extends(torn, [Open(host)]);
    Extends(torn + [Open(host)], Ticks(n));
    AtPrefix(events, [], host);
    AtPrefix(events, waits, host);
    AtPrefix(events, torn, host);
    AtPrefix(events, events, host);
  }

  lemma Extends(a: seq<ClockEvent>, b: seq<ClockEvent>)
    ensures a <= a + b
  {
  }

  lemma AtPrefix(events: seq<ClockEvent>, part: seq<ClockEvent>, host: Host)
    requires part <= events
    ensures At(events, host, |part|) == Summed(part, host)
  {
    assert events[..|part|] == part;
  }

  /** No ask out when the wait begins, but one torn by each measurement: the same, by the other gap. */
  lemma EarlyByTheLastGap(host: Host, limit: nat)
    ensures var events := TornTwice(host, limit);
            var first, last := Instants(0, 0, 0, 0, 1 + limit), Instants(0, 0, 2 + limit, 2 + limit, 3 + 2 * limit);
            && |events| == 3 + 2 * limit && Summed(events, host).inTurn && TimesOut(events, host, limit, first, last)
            && OwnTicks(events, host, 0, |events|) == 0
  {
    WhatIsTornTwice(host, limit);
    var events := TornTwice(host, limit);
    ReadingIsOwnTimeAndGaps(events, host, Instants(0, 0, 0, 0, 1 + limit));
    ReadingIsOwnTimeAndGaps(events, host, Instants(0, 0, 2 + limit, 2 + limit, 3 + 2 * limit));
  }

  /** A timeout with less counted than the limit, in some run a Host's asks allow. */
  ghost predicate EarlyRun(events: seq<ClockEvent>, host: Host, limit: nat, prompts: bool, first: Instants, last: Instants) {
    && Summed(events, host).inTurn && RunsOut(events, host, limit, prompts, first, last)
    && Counted(events, host, prompts, last.start) < limit
  }

  /** There is an early timeout exactly for a wait that leaves prompts out of a limit that is not zero. */
  lemma WhichWaitsCanTimeOutEarly(host: Host, limit: nat, prompts: bool)
    ensures (exists events, first, last :: EarlyRun(events, host, limit, prompts, first, last)) <==> prompts && limit > 0
  {
    if prompts && limit > 0 {
      EarlyByTheFirstGap(host, limit);
      var events := Torn(host, limit);
      var at := Instants(0, 1 + limit, 2 + limit, 2 + limit, 2 + limit);
      assert EarlyRun(events, host, limit, prompts, at, at);
    }
    if events, first, last :| EarlyRun(events, host, limit, prompts, first, last) {
      if prompts {
        ReadingIsOwnTimeAndGaps(events, host, last);
      }
    }
  }
}
