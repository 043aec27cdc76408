/**
 A Host's limit, and what is left out of it: the time its own password ask is out.

 The rest of the program is a schedule of events nobody controls. The waiting
 task lets any number of them happen between any two of its own steps. It is
 polled by the main task alone, so where it is parked it can do nothing while the
 main task serves an ask, whoever made it.
 */
module Deadlines {
  import opened Wrappers
  import opened PromptClocks
  import opened Readings

  /**
   What the rest of the program does. A change to an ask comes first and its
   wake-up later; in between, that Host's reader does nothing else. An ask that is
   being served is answered before it comes back.
   */
  datatype Event =
    | Passes
    | Opens(host: Host)
    | Closes(host: Host)
    | Notify(host: Host)
    | Serves(host: Host)
    | Answers
    | Exit

  /**
   What events change. `woken` is whether the waiting task was since it last
   registered, `owed` whose ask has changed without its wake-up having been sent,
   `parked` whether the waiting task is, and `serving` whose ask the main task is at.
   */
  datatype Rest = Rest(
    now: nat, exited: bool, woken: bool, owed: set<Host>, parked: bool, serving: Option<Host>, hosts: Clock)

  /** One event; one that cannot happen where it stands does nothing. */
  function Happens(r: Rest, e: Event): Rest {
    match e
    case Passes => r.(now := r.now + 1)
    case Opens(h) =>
      if Asking(r.hosts, h) || h in r.owed then r
      else r.(hosts := Opened(r.hosts, h, r.now), owed := r.owed + {h})
    case Closes(h) =>
      if !Asking(r.hosts, h) || h in r.owed || r.serving == Some(h) then r
      else r.(hosts := Closed(r.hosts, h, r.now), owed := r.owed + {h})
    case Notify(h) => if h in r.owed then r.(woken := true, owed := r.owed - {h}) else r
    case Serves(h) =>
      if r.parked && r.serving.None? && Asking(r.hosts, h) && h !in r.owed then r.(serving := Some(h)) else r
    case Answers => r.(serving := None)
    case Exit => r.(exited := true)
  }

  datatype Verdict =
    | Exited       // the child exited on its own
    | TimedOut     // the limit ran out
    | StillWaiting // the schedule ended first

  /** What a parked wait looks for: a wake-up, its child, or either and its timer; `heeds` is whether wake-ups matter to it. */
  datatype Watch = Nothing | ForWakeup | ForChild | ForAll(due: nat, heeds: bool)

  /**
   Ticks told apart: while the child ran; with it gone but nobody there to see;
   and any that passed while the wait was free to act and had something to act on.
   */
  datatype Tally = Tally(running: nat, unseen: nat, ignored: nat)

  function OneMore(t: Tally, exited: bool, ignored: bool): Tally {
    if ignored then t.(ignored := t.ignored + 1)
    else if exited then t.(unseen := t.unseen + 1)
    else t.(running := t.running + 1)
  }

  /** Which branch of the bounded wait was taken. */
  datatype Woke = ChildGone | Fired | Moved | Asleep

  class World {
    /** The Host whose child is waited for. */
    const host: Host
    const clock: PromptClock
    var now: nat
    var exited: bool
    var woken: bool
    var owed: set<Host>
    var parked: bool
    var serving: Option<Host>
    /** What happens next, as far as it is known. */
    var schedule: seq<Event>

    /** What the clock has been through so far. */
    ghost var past: seq<ClockEvent>
    /** How many times any ask has changed, and how many wake-ups were sent. */
    ghost var changes: nat
    ghost var notices: nat
    /** Whether the timer is being armed, and the ticks that have fallen while it was. */
    ghost var arming: bool
    ghost var lag: nat
    // The past, summed up for this Host.
    ghost var out: bool
    ghost var asked: nat
    /** What the wait is looking for, and how every tick so far falls: with its ask out, and without. */
    ghost var watch: Watch
    ghost var asking: Tally
    ghost var own: Tally
    /** How many times the main task turned to an ask. */
    ghost var serves: nat

    ghost predicate Valid()
      reads this, clock
    {
      && Summed(past, host) == Summary(now, clock.hosts, out, asked, true)
      && (out <==> Asking(clock.hosts, host))
      && SpentBy(clock.hosts, host, now) == asked && asked <= now
      && changes == notices + |owed|
      && (serving.Some? ==> parked && Asking(clock.hosts, serving.value))
      && now - asked == own.running + own.unseen + own.ignored
      && asked == asking.running + asking.unseen + asking.ignored
    }

    function State(): Rest
      reads this, clock
    {
      Rest(now, exited, woken, owed, parked, serving, clock.hosts)
    }

    /** The waiting task is at work, between two of its waits. */
    ghost predicate Working()
      reads this
    {
      !arming && !parked && watch.Nothing?
    }

    /** There is something the wait is looking for, and the main task is there to see it. */
    ghost predicate Ready()
      reads this
    {
      serving.None?
      && match watch
         case Nothing => false
         case ForWakeup => woken
         case ForChild => exited
         case ForAll(due, heeds) => exited || now >= due || (heeds && woken)
    }

    /** No tick passed over something that was ready. */
    twostate predicate Heeded()
      reads this
    {
      own.ignored == old(own.ignored) && asking.ignored == old(asking.ignored)
    }

    /** What a wait does, from the outside. */
    twostate predicate Waited()
      reads this, clock
    {
      Passed() && Heeded()
    }

    /** What passing time does, whether or not the waiting task registered again meanwhile. */
    twostate predicate Passed()
      reads this, clock
    {
      && old(past) <= past
      && old(now) <= now && old(asked) <= asked && asked - old(asked) <= now - old(now)
      && old(notices) <= notices && old(changes) <= changes && old(lag) <= lag && old(serves) <= serves
      && |schedule| <= |old(schedule)| && (notices > old(notices) ==> |schedule| < |old(schedule)|)
      && (notices == old(notices) ==> Unsent())
    }

    /** Without a wake-up sent a Host's ask changes at most once, and then owes one. */
    twostate predicate Unsent()
      reads this
    {
      && old(owed) <= owed
      && (host in old(owed) ==> out == old(out))
      && (out != old(out) ==> host in owed)
      && (!out && !old(out) ==> asked == old(asked))
    }

    /** What a stretch of events does while the waiting task does nothing. */
    twostate predicate Later()
      reads this, clock
    {
      && Passed()
      && parked == old(parked) && watch == old(watch) && arming == old(arming)
      && lag - old(lag) == (if arming then now - old(now) else 0)
      && (serving.Some? ==> old(serving).Some? || serves > old(serves))
      // Waking is what a notification does.
      && (woken <==> old(woken) || notices > old(notices))
    }

    constructor (host: Host, schedule: seq<Event>)
      ensures Valid() && Working() && this.host == host && this.schedule == schedule
      ensures now == 0 && !exited && past == [] && fresh(clock)
    {
      this.host := host;
      this.schedule := schedule;
      clock := new PromptClock();
      now, exited, woken, parked, serving := 0, false, false, false, None;
      past, owed, changes, notices, arming, lag, out, asked := [], {}, 0, 0, false, 0, false, 0;
      watch, asking, own, serves := Nothing, Tally(0, 0, 0), Tally(0, 0, 0), 0;
    }

    // ----- the rest of the program -----

    /** One event of the schedule. */
    method Step()
      requires Valid() && schedule != []
      modifies this, clock
      ensures Valid() && Later() && |schedule| < |old(schedule)|
      ensures State() == Happens(old(State()), old(schedule[0])) && (Heeded() || old(Ready()))
    {
      match schedule[0] {
        case Passes => TimePasses();
        case Opens(h) => AskOpens(h);
        case Closes(h) => AskCloses(h);
        case Notify(h) => AskIsTold(h);
        case Serves(h) => AskIsServed(h);
        case Answers => AskIsAnswered();
        case Exit => ChildExits();
      }
    }

    /** The same, told only by what the waiting task can rely on. */
    method Advance()
      requires Valid() && schedule != []
      modifies this, clock
      ensures Valid() && Later() && |schedule| < |old(schedule)| && (Heeded() || old(Ready()))
      ensures exited != old(exited) ==> now == old(now)
    {
      Step();
    }

    method TimePasses()
      requires Valid() && schedule != []
      modifies this
      ensures Valid() && Later() && |schedule| < |old(schedule)|
      ensures State() == Happens(old(State()), Passes) && (Heeded() || old(Ready()))
    {
      schedule := schedule[1..];
      TickCounted();
      lag := if arming then lag + 1 else lag;
    }

    method TickCounted()
      requires Valid()
      modifies this`past, this`now, this`asked, this`own, this`asking
      ensures Valid() && old(past) <= past && now == old(now) + 1 && (Heeded() || old(Ready()))
      ensures asked == if out then old(asked) + 1 else old(asked)
    {
      OneMoreSummed(past, Tick, host);
      SummedIsSound(past + [Tick], host);
      past := past + [Tick];
      if out {
        asking := OneMore(asking, exited, Ready());
      } else {
        own := OneMore(own, exited, Ready());
      }
      now := now + 1;
      asked := if out then asked + 1 else asked;
    }

    /** A Host asks through its one stderr reader, so never while an ask of its own is out or untold. */
    method AskOpens(h: Host)
      requires Valid() && schedule != []
      modifies this, clock
      ensures Valid() && Later() && |schedule| < |old(schedule)|
      ensures State() == Happens(old(State()), Opens(h)) && Heeded()
    {
      schedule := schedule[1..];
      if !Asking(clock.hosts, h) && h !in owed {
        AskGoesOut(h);
      }
    }

    method AskGoesOut(h: Host)
      requires Valid() && !Asking(clock.hosts, h) && h !in owed
      modifies clock, this`past, this`owed, this`changes, this`out
      ensures Valid() && old(past) <= past && changes == old(changes) + 1
      ensures clock.hosts == Opened(old(clock.hosts), h, now) && owed == old(owed) + {h}
      ensures out == (old(out) || h == host)
    {
      ghost var was := clock.hosts;
      clock.AskingNow(h, now);
      AskChanged(Open(h), was);
    }

    method AskCloses(h: Host)
      requires Valid() && schedule != []
      modifies this, clock
      ensures Valid() && Later() && |schedule| < |old(schedule)|
      ensures State() == Happens(old(State()), Closes(h)) && Heeded()
    {
      schedule := schedule[1..];
      if Asking(clock.hosts, h) && h !in owed && serving != Some(h) {
        AskComesBack(h);
      }
    }

    method AskComesBack(h: Host)
      requires Valid() && Asking(clock.hosts, h) && h !in owed && serving != Some(h)
      modifies clock, this`past, this`owed, this`changes, this`out
      ensures Valid() && Later()
      ensures State() == Happens(old(State()), Closes(h))
    {
      ghost var was := clock.hosts;
      clock.Release(h, now);
      AskChanged(Close(h), was);
    }

    /** The books of a change to an ask; the clock has it already, and held `was` before. */
    method AskChanged(e: ClockEvent, ghost was: Clock)
      requires !e.Tick? && e.host !in owed && (e == Open(host) ==> !out)
      requires Summed(past, host) == Summary(now, was, out, asked, true) && clock.hosts == Apply((now, was), e).1
      requires asked <= now && changes == notices + |owed|
      requires now - asked == own.running + own.unseen + own.ignored
      requires asked == asking.running + asking.unseen + asking.ignored
      requires serving.Some? ==> parked && Asking(clock.hosts, serving.value)
      modifies this`past, this`owed, this`changes, this`out
      ensures Valid() && old(past) <= past && owed == old(owed) + {e.host}
      ensures out == if e == Open(host) then true else if e == Close(host) then false else old(out)
      ensures changes == old(changes) + 1
    {
      OneMoreSummed(past, e, host);
      SummedIsSound(past + [e], host);
      past := past + [e];
      owed := owed + {e.host};
      changes := changes + 1;
      out := if e.host == host then e.Open? else out;
    }

    /** The wake-up of a change is sent, to whoever is registered. */
    method AskIsTold(h: Host)
      requires Valid() && schedule != []
      modifies this
      ensures Valid() && Later() && |schedule| < |old(schedule)|
      ensures State() == Happens(old(State()), Notify(h)) && Heeded()
    {
      schedule := schedule[1..];
      if h in owed {
        woken := true;
        notices := notices + 1;
        owed := owed - {h};
      }
    }

    /** The main task, with this one parked, turns to an ask. */
    method AskIsServed(h: Host)
      requires Valid() && schedule != []
      modifies this`schedule, this`serving, this`serves
      ensures Valid() && Later() && |schedule| < |old(schedule)|
      ensures State() == Happens(old(State()), Serves(h)) && Heeded()
    {
      schedule := schedule[1..];
      if parked && serving.None? && Asking(clock.hosts, h) && h !in owed {
        serving, serves := Some(h), serves + 1;
      }
    }

    method AskIsAnswered()
      requires Valid() && schedule != []
      modifies this`schedule, this`serving
      ensures Valid() && Later() && |schedule| < |old(schedule)|
      ensures State() == Happens(old(State()), Answers) && Heeded()
    {
      schedule := schedule[1..];
      serving := None;
    }

    method ChildExits()
      requires Valid() && schedule != []
      modifies this`schedule, this`exited
      ensures Valid() && Later() && |schedule| < |old(schedule)|
      ensures State() == Happens(old(State()), Exit) && Heeded()
    {
      schedule := schedule[1..];
      exited := true;
    }

    /** Any number of events, between two steps of the waiting task. */
    method Interfere()
      requires Valid() && watch.Nothing?
      modifies this, clock
      ensures Valid() && Later() && Heeded()
    {
      while schedule != []
        invariant Valid() && Later() && Heeded()
        decreases |schedule|
      {
        if * {
          break;
        }
        Advance();
      }
    }

    // ----- the waiting task -----

    /** Lets this Host's ask come back first: `false` is a wait the schedule did not end. */
    method WaitOutPrompt() returns (done: bool)
      requires Valid() && Working()
      modifies this, clock
      ensures Valid() && Waited() && !arming && lag == old(lag)
      ensures done ==> !out && Working()
      ensures !done ==> schedule == [] && (serving.Some? || out || host in owed)
    {
      while true
        invariant Valid() && Waited() && Working() && lag == old(lag)
        decreases |schedule|
      {
        // Registering comes before looking: what changes after the look then wakes the wait.
        woken := false;
        Interfere();
        if !Asking(clock.hosts, host) {
          return true;
        }
        var woke := Park();
        if !woke {
          return false;
        }
      }
    }

    /** Waits for a wake-up, and for the main task to come back to this one. */
    method Park() returns (woke: bool)
      requires Valid() && Working()
      modifies this, clock
      ensures Valid() && Waited() && !arming && lag == old(lag)
      ensures woke ==> Working() && (old(woken) || |schedule| < |old(schedule)|)
      ensures !woke ==> schedule == [] && (serving.Some? || (!old(woken) && notices == old(notices)))
    {
      parked, watch := true, ForWakeup;
      label parking:
      while (!woken || serving.Some?) && schedule != []
        invariant Valid() && Later@parking() && Heeded@parking()
        decreases |schedule|
      {
        Advance();
      }
      woke := woken && serving.None?;
      if woke {
        parked, watch := false, Nothing;
      }
    }

    /**
     How much of the limit is used: the time since `started`, less this Host's own
     waits since `before`. `s` and `b` are where those two were read.
     */
    method OwnTime(started: nat, before: nat, prompts: bool, ghost s: nat, ghost b: nat)
      returns (used: nat, ghost at: Instants, ghost charged: nat)
      requires Valid() && Working() && ReadAt(started, before, prompts, s, b)
      modifies this, clock
      ensures Valid() && Waited() && Working() && lag == old(lag) && ReadAt(started, before, prompts, s, b)
      ensures InOrder(past, at) && (at.start, at.before, at.check, at.read) == (s, b, |old(past)|, |past|)
      ensures prompts ==> used == Reading(past, host, at)
      ensures used == (now - started) - if prompts then charged - before else 0
      ensures old(asked) <= charged <= asked && charged - old(asked) <= now - old(now)
    {
      Interfere();
      var waiting := if prompts then Less(SpentBy(clock.hosts, host, now), before) else 0;
      charged := asked;
      ghost var read := past;
      Interfere();
      used := Less(Elapsed(started, now), waiting);
      at := Instants(s, b, |old(past)|, |read|, |past|);
      assert past[..s] == old(past)[..s] && past[..b] == old(past)[..b];
      assert past[..|read|] == read && past[..|past|] == past;
    }

    /** Two readings already made, and where. */
    ghost predicate ReadAt(started: nat, before: nat, prompts: bool, s: nat, b: nat)
      reads this
    {
      && s <= b <= |past| && started <= now && At(past, host, s).now == started
      && (prompts ==> SpentAt(past, host, b) == before && before <= asked && asked - before <= now - started)
    }

    /** Sets a timer for `remaining` from the moment it is armed. */
    method Arm(remaining: nat) returns (deadline: nat)
      requires Valid() && Working()
      modifies this, clock
      ensures Valid() && Waited() && Working()
      ensures now - old(now) == lag - old(lag) && deadline == now + remaining
    {
      arming := true;
      Interfere();
      deadline := now + remaining;
      arming := false;
    }

    /** Sleeps for `remaining`, unless the child exits or, with prompts, some ask changes. */
    method Select(remaining: nat, prompts: bool) returns (woke: Woke)
      requires Valid() && Working()
      modifies this, clock
      ensures Valid() && Waited() && !arming
      ensures !woke.Asleep? ==> Working()
      ensures woke.ChildGone? ==> exited
      ensures woke.Fired? ==> now >= old(now) + remaining
      ensures woke.Moved? ==> prompts && notices > old(notices)
      ensures woke.Asleep? ==>
                schedule == []
                && (serving.Some? || (!exited && now < old(now) + (lag - old(lag)) + remaining))
    {
      var deadline := Arm(remaining);
      // A wake-up sent before the wait below registers is missed.
      Interfere();
      woke := Sleep(deadline, prompts);
    }

    /** Parked until something is ready, and the main task there to see it. */
    method Sleep(deadline: nat, prompts: bool) returns (woke: Woke)
      requires Valid() && Working()
      modifies this, clock
      ensures Valid() && Waited() && !arming && lag == old(lag)
      ensures !woke.Asleep? ==> Working()
      ensures woke.ChildGone? ==> exited
      ensures woke.Fired? ==> now >= deadline
      // A child gone before its limit is noticed, unless an ask was served meanwhile.
      ensures woke.Fired? && exited ==> old(now) >= deadline || serves > old(serves)
      ensures woke.Moved? ==> prompts && notices > old(notices)
      ensures woke.Asleep? ==> schedule == [] && (serving.Some? || (!exited && now < deadline))
    {
      woken, parked, watch := false, true, ForAll(deadline, prompts);
      woke := Look(deadline, prompts);
      if !woke.Asleep? {
        parked, watch := false, Nothing;
      }
    }

    /** Whatever is ready is looked at, except while an ask is served; of the branches that are ready any may be taken. */
    method Look(deadline: nat, prompts: bool) returns (woke: Woke)
      requires Valid() && !arming && parked && serving.None? && !woken && watch == ForAll(deadline, prompts)
      modifies this, clock
      ensures Valid() && Later() && Heeded()
      ensures !woke.Asleep? ==> serving.None?
      ensures woke.ChildGone? ==> exited
      ensures woke.Fired? ==> now >= deadline
      ensures woke.Fired? && exited ==> old(now) >= deadline || serves > old(serves)
      ensures woke.Moved? ==> prompts && notices > old(notices)
      ensures woke.Asleep? ==> schedule == [] && (serving.Some? || (!exited && now < deadline))
    {
      while true
        invariant Valid() && Later() && Heeded()
        invariant exited && now >= deadline ==> old(now) >= deadline || serves > old(serves)
        decreases |schedule|
      {
        if {
          case exited && serving.None? => return ChildGone;
          case now >= deadline && serving.None? => return Fired;
          case prompts && woken && serving.None? => return Moved;
          case schedule != [] && (serving.Some? || (!exited && now < deadline && !(prompts && woken))) => Advance();
          case schedule == [] && (serving.Some? || (!exited && now < deadline && !(prompts && woken))) => return Asleep;
        }
      }
    }

    /**
     Waits for the child, at most `limit` of its own time. `rounds` counts the
     turns of the loop; `first` and `last` are the measurements a timeout was
     decided on.
     */
    method WaitBounded(limit: Option<nat>, prompts: bool)
      returns (verdict: Verdict, ghost rounds: nat, ghost first: Instants, ghost last: Instants)
      requires Valid() && Working()
      modifies this, clock
      ensures Valid() && Waited() && !arming
      ensures verdict.Exited? ==> exited
      // Never early, but for what the gaps of the last measurement hold.
      ensures verdict.TimedOut? ==> limit.Some?
      ensures verdict.TimedOut? ==>
                && RunsOut(past, host, limit.value, prompts, first, last) && last.start == |old(past)|
                && limit.value <= Counted(past, host, prompts, last.start) + Slack(past, host, prompts, last)
      // A child that has gone is seen to have gone: the limit was used while it ran, or while nobody could see it had.
      ensures verdict.TimedOut? ==>
                limit.value <= (own.running - old(own.running)) + (own.unseen - old(own.unseen))
                               + (if prompts then Gaps(past, host, last)
                                  else (asking.running - old(asking.running)) + (asking.unseen - old(asking.unseen)))
      ensures !verdict.StillWaiting? ==> Working()
      // Late only for an ask: whoever still waits is at its own prompt, has time left, or is held by one being served.
      ensures verdict.StillWaiting? ==>
                schedule == [] &&
                (|| serving.Some?
                 || (prompts && (out || host in owed))
                 || (!exited && (limit.Some? ==>
                      (now - old(now)) - (if prompts then asked - old(asked) else 0)
                        < limit.value + (lag - old(lag)))))
      ensures verdict.StillWaiting? && limit.Some? && !(prompts && (out || host in owed))
              && limit.value + (lag - old(lag)) <= (now - old(now)) - (if prompts then asked - old(asked) else 0) ==>
                serving.Some? && Asking(clock.hosts, serving.value)
      // Every turn but the last took a wake-up, and each is sent for one change of an ask.
      ensures rounds <= 1 + if prompts then notices - old(notices) else 0
      ensures notices - old(notices) <= (changes - old(changes)) + |old(owed)|
    {
      rounds, first, last := 0, Instants(0, 0, 0, 0, 0), Instants(0, 0, 0, 0, 0);
      if limit.None? {
        verdict := WaitForExit();
        return;
      }
      var limit := limit.value;
      var started, before;
      ghost var s, b;
      started, before, s, b := Start(prompts);
      while true
        invariant Valid() && Waited() && Working() && started == old(now) && s == |old(past)|
        invariant ReadAt(started, before, prompts, s, b)
        invariant prompts ==> old(asked) <= before
        invariant rounds <= if prompts then notices - old(notices) else 0
        decreases |schedule|
      {
        rounds := rounds + 1;
        var ended;
        ended, first, last := Turn(limit, started, before, prompts, s, b);
        if ended.Some? {
          verdict := ended.value;
          if verdict.TimedOut? {
            ShortByTheSlack(past, host, limit, prompts, first, last);
            CountedSince(old(past), past, host, prompts);
          }
          return;
        }
      }
    }

    /** The readings a wait begins with, and where they were made. */
    method Start(prompts: bool) returns (started: nat, before: nat, ghost s: nat, ghost b: nat)
      requires Valid() && Working()
      modifies this, clock
      ensures Valid() && Waited() && Working() && ReadAt(started, before, prompts, s, b)
      ensures started == old(now) && s == |old(past)| && (prompts ==> old(asked) <= before)
    {
      started, s := now, |past|;
      Interfere();
      // The base from which prompts count: what earlier waits cost is left out on both sides.
      before, b := if prompts then SpentBy(clock.hosts, host, now) else 0, |past|;
      assert past[..s] == old(past) && past[..b] == past;
    }

    /** One turn of the wait: how it ended, or nothing when it goes round again. */
    method Turn(limit: nat, started: nat, before: nat, prompts: bool, ghost s: nat, ghost b: nat)
      returns (ended: Option<Verdict>, ghost first: Instants, ghost last: Instants)
      requires Valid() && Working() && ReadAt(started, before, prompts, s, b)
      modifies this, clock
      ensures Valid() && Waited() && !arming && ReadAt(started, before, prompts, s, b)
      ensures ended.None? ==> prompts && notices > old(notices)
      ensures ended != Some(StillWaiting) ==> Working()
      ensures ended == Some(Exited) ==> exited
      ensures ended == Some(TimedOut) ==> RunsOut(past, host, limit, prompts, first, last) && last.start == s
      ensures ended == Some(StillWaiting) ==>
                schedule == [] &&
                (|| serving.Some?
                 || (prompts && (out || host in owed))
                 || (!exited && (now - started) - (if prompts then asked - before else 0) < limit + (lag - old(lag))))
    {
      first, last := Instants(0, 0, 0, 0, 0), Instants(0, 0, 0, 0, 0);
      var quiet := Quiet(prompts, started, before, s, b);
      if !quiet {
        return Some(StillWaiting), first, last;
      }
      ended, first, last := Act(limit, started, before, prompts, s, b);
    }

    /** The rest of a turn, once the Host's own ask is not out. */
    method Act(limit: nat, started: nat, before: nat, prompts: bool, ghost s: nat, ghost b: nat)
      returns (ended: Option<Verdict>, ghost first: Instants, ghost last: Instants)
      requires Valid() && Working() && ReadAt(started, before, prompts, s, b) && (prompts ==> !out)
      modifies this, clock
      ensures Valid() && Waited() && !arming && ReadAt(started, before, prompts, s, b)
      ensures ended.None? ==> prompts && notices > old(notices)
      ensures ended != Some(StillWaiting) ==> Working()
      ensures ended == Some(Exited) ==> exited
      ensures ended == Some(TimedOut) ==> RunsOut(past, host, limit, prompts, first, last) && last.start == s
      ensures ended == Some(StillWaiting) ==>
                schedule == [] &&
                (|| serving.Some?
                 || (prompts && (out || host in owed))
                 || (!exited && (now - started) - (if prompts then asked - before else 0) < limit + (lag - old(lag))))
    {
      last := Instants(0, 0, 0, 0, 0);
      ghost var calm, n, a := past, notices, asked;
      var woke;
      ghost var charged, measured;
      woke, first, charged, measured := Nap(limit, started, before, prompts, s, b);
      match woke {
        case ChildGone => return Some(Exited), first, last;
        case Asleep => return Some(StillWaiting), first, last;
        case Moved => return None, first, last;
        case Fired => ended, last := Decide(limit, started, before, prompts, s, b, calm, measured, first, charged, n, a);
      }
    }

    /**
     A sleep cannot tell the Host's time from an ask's, so the clocks decide again.
     The ghosts are what the turn knew without an ask, and once it had measured.
     */
    method Decide(limit: nat, started: nat, before: nat, prompts: bool, ghost s: nat, ghost b: nat,
                  ghost calm: seq<ClockEvent>, ghost measured: seq<ClockEvent>, ghost first: Instants,
                  ghost charged: nat, ghost n: nat, ghost a: nat)
      returns (ended: Option<Verdict>, ghost last: Instants)
      requires Valid() && Working() && ReadAt(started, before, prompts, s, b)
      requires calm <= measured <= past && InOrder(measured, first)
      requires (first.start, first.before, first.check) == (s, b, |calm|)
      requires prompts ==>
                 !Summed(calm, host).out && At(measured, host, first.read).now + Less(limit, Reading(measured, host, first)) <= now
      requires limit <= (now - started) - if prompts then charged - before else 0
      requires prompts ==> QuietSince(n, a) && a <= charged <= asked
      modifies this, clock
      ensures Valid() && Waited() && !arming && ReadAt(started, before, prompts, s, b)
      ensures ended.None? ==> prompts && notices > n
      ensures ended != Some(StillWaiting) ==> Working()
      ensures ended == Some(TimedOut) ==> RunsOut(past, host, limit, prompts, first, last) && last.start == s
      ensures ended == Some(StillWaiting) ==> schedule == [] && prompts && (serving.Some? || out || host in owed)
      ensures ended != Some(Exited)
    {
      last := first;
      var quiet := Quiet(prompts, started, before, s, b);
      if !quiet {
        return Some(StillWaiting), last;
      }
      assert prompts ==> QuietSince(n, a);
      ghost var again := past;
      var used;
      ghost var charged';
      used, last, charged' := OwnTime(started, before, prompts, s, b);
      if used < limit {
        return None, last;
      }
      ended := Some(TimedOut);
      if prompts {
        Decided(calm, measured, again, past, host, limit, first, last);
      }
    }

    /** Measures, and sleeps for what is left of the limit; nothing left is a sleep that is over. */
    method Nap(limit: nat, started: nat, before: nat, prompts: bool, ghost s: nat, ghost b: nat)
      returns (woke: Woke, ghost first: Instants, ghost charged: nat, ghost measured: seq<ClockEvent>)
      requires Valid() && Working() && ReadAt(started, before, prompts, s, b)
      modifies this, clock
      ensures Valid() && Waited() && !arming && ReadAt(started, before, prompts, s, b)
      ensures old(past) <= measured <= past
      ensures InOrder(measured, first) && (first.start, first.before, first.check) == (s, b, |old(past)|)
      ensures woke.ChildGone? ==> exited
      ensures woke.Moved? ==> prompts && notices > old(notices)
      ensures !woke.Asleep? ==> Working()
      ensures woke.Asleep? ==>
                schedule == []
                && (|| serving.Some?
                    || (!exited
                        && (now - started) - (if prompts then asked - before else 0) < limit + (lag - old(lag))))
      ensures woke.Fired? && prompts ==>
                At(measured, host, first.read).now + Less(limit, Reading(measured, host, first)) <= now
      ensures woke.Fired? ==> limit <= (now - started) - if prompts then charged - before else 0
      ensures !old(out) ==> QuietSince(old(notices), old(asked))
      ensures old(asked) <= charged <= asked
    {
      var used;
      used, first, charged := OwnTime(started, before, prompts, s, b);
      measured := past;
      assert past[..|past|] == past;
      woke := Fired;
      if used < limit {
        woke := Select(limit - used, prompts);
        assert past[..s] == measured[..s] && past[..b] == measured[..b];
      }
    }

    /** Since a moment without an ask: unless a wake-up was sent, one ask at most has gone out and is out still. */
    ghost predicate QuietSince(n: nat, a: nat)
      reads this
    {
      notices >= n && (notices == n ==> if out then host in owed else asked == a)
    }

    /** Never waits through an ask of its own; `false` when the schedule ends at one. */
    method Quiet(prompts: bool, ghost started: nat, ghost before: nat, ghost s: nat, ghost b: nat) returns (quiet: bool)
      requires Valid() && Working() && ReadAt(started, before, prompts, s, b)
      modifies this, clock
      ensures Valid() && Waited() && !arming && lag == old(lag) && ReadAt(started, before, prompts, s, b)
      ensures quiet ==> Working() && (prompts ==> !out)
      ensures !quiet ==> prompts && schedule == [] && (serving.Some? || out || host in owed)
    {
      quiet := true;
      if prompts {
        ghost var was := past;
        quiet := WaitOutPrompt();
        assert past[..s] == was[..s] && past[..b] == was[..b];
      }
    }

    /** With no limit, only the child ends the wait. */
    method WaitForExit() returns (verdict: Verdict)
      requires Valid() && Working()
      modifies this, clock
      ensures Valid() && Waited() && !arming
      ensures verdict == if exited && serving.None? then Exited else StillWaiting
      ensures verdict.StillWaiting? ==> schedule == []
      ensures verdict.Exited? ==> Working()
    {
      parked, watch := true, ForChild;
      label waiting:
      while (!exited || serving.Some?) && schedule != []
        invariant Valid() && !arming && Later@waiting() && Heeded@waiting()
        decreases |schedule|
      {
        Advance();
      }
      verdict := StillWaiting;
      if exited && serving.None? {
        parked, watch := false, Nothing;
        verdict := Exited;
      }
    }

    /**
     A script's two connections under one limit: the copy, which cannot ask, and
     the run, which has what the copy left. `handed` is when the rest was worked
     out, `began` when the run step's wait began, and `base` and `idle` what asks
     had cost and the timers lagged by then.
     */
    method RunScript(limit: Option<nat>, prompts: bool, copyIsGood: bool)
      returns (verdict: Verdict, ran: bool, ghost left: Option<nat>, ghost first: Instants, ghost last: Instants,
               ghost handed: nat, ghost began: nat, ghost base: nat, ghost idle: nat)
      requires Valid() && Working()
      modifies this, clock
      ensures Valid() && !arming && old(past) <= past && Heeded()
      ensures ran ==> copyIsGood && old(now) <= handed <= began <= now
      ensures verdict.Exited? ==> exited && (ran || !copyIsGood)
      // Never early.
      ensures verdict.TimedOut? ==>
                && limit.Some? && left.Some? && |old(past)| <= last.start
                && RunsOut(past, host, left.value, ran && prompts, first, last)
                && limit.value <= (At(past, host, last.start).now - old(now)) + left.value
                && limit.value <= (At(past, host, last.start).now - old(now))
                                  + Counted(past, host, ran && prompts, last.start)
                                  + Slack(past, host, ran && prompts, last)
      // Never late: not in the copy, nor over the copy and the run together.
      ensures verdict.StillWaiting? && !ran ==>
                serving.Some?
                || (!exited && (limit.Some? ==> now - old(now) < limit.value + (lag - old(lag))))
      ensures verdict.StillWaiting? && ran ==>
                || serving.Some?
                || (prompts && (out || host in owed))
                || (!exited && (limit.Some? ==>
                     (now - old(now)) - (if prompts then asked - base else 0)
                       < Most(limit.value, handed - old(now)) + (began - handed) + (lag - idle)))
    {
      var started := now;
      ghost var was, rounds := past, 0;
      ran, left, handed, began, base, idle := false, limit, now, now, asked, lag;
      verdict, rounds, first, last := WaitBounded(limit, false);
      assert past[..|was|] == was;
      if verdict.Exited? && copyIsGood {
        Interfere();
        var rest := match limit
          case Some(l) => Some(Less(l, Elapsed(started, now)))
          case None => None;
        handed := now;
        Interfere();
        ran, left := true, rest;
        began, base, idle := now, asked, lag;
        exited := false;
        ghost var copied := past;
        verdict, rounds, first, last := WaitBounded(rest, prompts);
        assert past[..|copied|] == copied;
      }
    }
  }

  function Most(a: nat, b: int): int {
    if a < b then b else a
  }

  // ----- who can hold a wait -----

  function HappenAll(r: Rest, events: seq<Event>): Rest
    decreases |events|
  {
    if events == [] then r else HappenAll(Happens(r, events[0]), events[1..])
  }

  /** What any run of events comes to, counted: the child is gone if it was or if it exited, and time has passed tick by tick. */
  lemma {:induction false} WhatEventsComeTo(r: Rest, events: seq<Event>)
    ensures HappenAll(r, events).exited <==> r.exited || Exit in events
    ensures HappenAll(r, events).now == r.now + multiset(events)[Passes]
    decreases |events|
  {
    if events != [] {
      WhatEventsComeTo(Happens(r, events[0]), events[1..]);
      assert events == [events[0]] + events[1..];
    }
  }

  /** Whatever else happens, a wait held by an ask being served is held until that ask is answered, and then no longer. */
  lemma {:induction false} HeldUntilAnswered(r: Rest, events: seq<Event>)
    requires r.serving.Some? && Answers !in events
    ensures HappenAll(r, events).serving == r.serving
    ensures Happens(HappenAll(r, events), Answers).serving.None?
    decreases |events|
  {
    if events != [] {
      HeldUntilAnswered(Happens(r, events[0]), events[1..]);
    }
  }

  function Times(n: nat): seq<Event> {
    if n == 0 then [] else [Passes] + Times(n - 1)
  }

  lemma {:induction false} TimeGoesBy(r: Rest, n: nat)
    ensures HappenAll(r, Times(n)) == r.(now := r.now + n)
    decreases n
  {
    if n > 0 {
      TimeGoesBy(Happens(r, Passes), n - 1);
      FirstHappens(r, Passes, Times(n - 1));
    }
  }

  lemma FirstHappens(r: Rest, e: Event, more: seq<Event>)
    ensures HappenAll(r, [e] + more) == HappenAll(Happens(r, e), more)
  {
    assert ([e] + more)[1..] == more;
  }

  /** A wait parked as it begins, before anything has happened. */
  const PARKED: Rest := Rest(0, false, false, {}, true, None, map[])

  /**
   For every limit: a Host that asked for nothing has used all of it and is still
   waiting, held by another Host's ask.
   */
  lemma HeldPastAnyLimit(host: Host, other: Host, limit: nat)
    requires host != other
    ensures var r := HappenAll(PARKED, [Opens(other)] + ([Notify(other)] + ([Serves(other)] + Times(limit))));
            && r.parked && r.serving == Some(other) && !r.exited
            && r.now - SpentBy(r.hosts, host, r.now) == limit
            && !Asking(r.hosts, host) && host !in r.owed
  {
    var a := Happens(PARKED, Opens(other));
    var b := Happens(a, Notify(other));
    var c := Happens(b, Serves(other));
    FirstHappens(PARKED, Opens(other), [Notify(other)] + ([Serves(other)] + Times(limit)));
    FirstHappens(a, Notify(other), [Serves(other)] + Times(limit));
    FirstHappens(b, Serves(other), Times(limit));
    assert other in a.owed && a.owed - {other} == {} && Asking(b.hosts, other);
    TimeGoesBy(c, limit);
  }
}
