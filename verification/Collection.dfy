/**
 The main task of a run: it collects the Hosts as they settle, answers the ones
 that ask for a password, and decides the exit code.
 */
module Collection {
  import opened Wrappers
  import opened Outcomes
  import Interrupts
  import opened Passwords

  /**
   What the main task is woken by, in the order it is. `CtrlC` is the user's
   interrupt, which another task handles at any moment.
   */
  datatype Event<P> =
    | Settled(outcome: Outcome)
    | NotStarted
    | Asking(ask: Ask<P>)
    | AskersGone
    | Tick
    | CtrlC

  /**
   What the events so far come to: whether asks are still taken, the ones that
   were served, whether the run is stopping, and why it could not carry on.
   */
  datatype Desk<P> = Desk(open: bool, served: seq<Ask<P>>, stopped: bool, fatal: Option<Fatal>)

  function Next<P>(d: Desk<P>, event: Event<P>): Desk<P> {
    match event
    case CtrlC => d.(stopped := true)
    case AskersGone => d.(open := false)
    case Asking(ask) =>
      if !d.open then d
      else if d.stopped then d.(open := false)
      else Attended(d, ask)
    case _ => d
  }

  function Attended<P>(d: Desk<P>, ask: Ask<P>): Desk<P> {
    var served := d.served + [ask];
    match Reply(After(d.served), ask)
    case Given(_) => d.(served := served)
    case Refused => Desk(false, served, true, After(served).fatal)
    case Stopped => Desk(false, served, true, None)
  }

  function DeskAfter<P>(prompting: bool, events: seq<Event<P>>): Desk<P> {
    if events == [] then Desk(prompting, [], false, None)
    else Next(DeskAfter(prompting, events[..|events| - 1]), events[|events| - 1])
  }

  function OutcomesIn<P>(events: seq<Event<P>>): seq<Outcome> {
    if events == [] then []
    else
      var e := events[|events| - 1];
      OutcomesIn(events[..|events| - 1]) + if e.Settled? then [e.outcome] else []
  }

  function NotStartedIn<P>(events: seq<Event<P>>): nat {
    if events == [] then 0
    else NotStartedIn(events[..|events| - 1]) + if events[|events| - 1].NotStarted? then 1 else 0
  }

  /** How serving an ask left the run: ready for the next, or done with asking and perhaps failed. */
  datatype Served = On | Done(reason: Option<Fatal>)

  /** Serves one ask. A run that cannot go on asking is stopped before the Host is told. */
  method Serve<P, K>(privilege: Privilege<P>, interrupt: Interrupts.Interrupt<K>, ask: Ask<P>)
    returns (password: Option<P>, asking: Served)
    modifies privilege, interrupt
    ensures privilege.Contents() == Passwords.Served(old(privilege.Contents()), ask)
    ensures var answer := Reply(old(privilege.Contents()), ask);
            && password == (if answer.Given? then Some(answer.password) else None)
            && asking == (match answer
                          case Given(_) => On
                          case Refused => Done(privilege.fatal)
                          case Stopped => Done(None))
    ensures interrupt.State() == if asking.On? then old(interrupt.State()) else Interrupts.Begun(old(interrupt.State()))
  {
    var answer := privilege.GetAnswer(ask.host, ask.own, ask.typed);
    match answer {
      case Given(value) => password, asking := Some(value), On;
      case Refused => password, asking := None, Done(privilege.fatal);
      case Stopped => password, asking := None, Done(None);
    }
    if asking.Done? {
      var _ := interrupt.Begin();
    }
  }

  function RunCode(fatal: Option<Fatal>, statuses: seq<Status>): bv8 {
    if fatal.Some? then EXIT_LOCAL else CodeFor(StatusSet(statuses))
  }

  /** Collects a run. The exit code is the run's own failure if it had one, and its Hosts' otherwise. */
  method Collect<P, K(!new)>(privilege: Privilege<P>, interrupt: Interrupts.Interrupt<K>, prompting: bool, events: seq<Event<P>>)
    returns (outcomes: seq<Outcome>, notStarted: nat, fatal: Option<Fatal>, code: bv8)
    requires privilege.Contents() == After([]) && interrupt.State() == Interrupts.Fresh()
    modifies privilege, interrupt
    ensures outcomes == OutcomesIn(events) && notStarted == NotStartedIn(events)
    ensures fatal == DeskAfter(prompting, events).fatal
    ensures code == RunCode(fatal, Statuses(OutcomesIn(events)))
    ensures privilege.Contents() == After(DeskAfter(prompting, events).served)
    ensures interrupt.State().stopped == DeskAfter(prompting, events).stopped
  {
    outcomes, notStarted, fatal := [], 0, None;
    var open := prompting;
    for i := 0 to |events|
      invariant outcomes == OutcomesIn(events[..i]) && notStarted == NotStartedIn(events[..i])
      invariant DeskAfter(prompting, events[..i]) == Desk(open, DeskAfter(prompting, events[..i]).served, interrupt.stopped, fatal)
      invariant privilege.Contents() == After(DeskAfter(prompting, events[..i]).served)
    {
      var d := DeskAfter(prompting, events[..i]);
      assert events[..i + 1][..i] == events[..i];
      match events[i] {
        case Settled(outcome) => outcomes := outcomes + [outcome];
        case NotStarted => notStarted := notStarted + 1;
        case Asking(ask) =>
          // With the channel closed no ask can arrive.
          if open {
            if interrupt.stopped {
              open := false;
            } else {
              assert (d.served + [ask])[..|d.served|] == d.served;
              var _, asking := Serve(privilege, interrupt, ask);
              if asking.Done? {
                open := false;
                fatal := asking.reason;
              }
            }
          }
        case AskersGone => open := false;
        case Tick =>
        case CtrlC => var _ := interrupt.Begin();
      }
    }
    assert events[..|events|] == events;
    if fatal.Some? {
      code := EXIT_LOCAL;
    } else {
      code := ExitCode(Statuses(outcomes));
    }
  }

  // ----- what a run's events come to -----

  ghost predicate DeskInv<P>(d: Desk<P>) {
    && (d.open ==> d.fatal.None?)
    && (forall k :: 0 <= k < |d.served| - 1 ==> ReplyTo(d.served, k).Given?)
    && (d.open ==> d.served != [] ==> ReplyTo(d.served, |d.served| - 1).Given?)
    && (d.fatal.Some? <==> d.served != [] && ReplyTo(d.served, |d.served| - 1).Refused?)
    && (d.served != [] && !ReplyTo(d.served, |d.served| - 1).Given? ==> d.stopped)
  }

  lemma EarlierReplies<P>(served: seq<Ask<P>>, ask: Ask<P>)
    ensures forall k :: 0 <= k < |served| ==> ReplyTo(served + [ask], k) == ReplyTo(served, k)
    ensures ReplyTo(served + [ask], |served|) == Reply(After(served), ask)
  {
    var more := served + [ask];
    assert more[..|served|] == served;
    forall k | 0 <= k < |served|
      ensures ReplyTo(more, k) == ReplyTo(served, k)
    {
      assert more[..k] == served[..k];
    }
  }

  lemma NextKeepsInv<P>(d: Desk<P>, event: Event<P>)
    requires DeskInv(d)
    ensures DeskInv(Next(d, event))
  {
    if event.Asking? && d.open && !d.stopped {
      AttendedKeepsInv(d, event.ask);
    }
  }

  lemma AttendedKeepsInv<P>(d: Desk<P>, ask: Ask<P>)
    requires DeskInv(d) && d.open
    ensures DeskInv(Attended(d, ask))
  {
    EarlierReplies(d.served, ask);
    if Reply(After(d.served), ask).Refused? {
      RefusedHasAReason(d.served, ask);
    }
  }

  lemma RefusedHasAReason<P>(served: seq<Ask<P>>, ask: Ask<P>)
    requires Reply(After(served), ask).Refused?
    ensures After(served + [ask]).fatal.Some?
  {
    assert (served + [ask])[..|served|] == served;
  }

  /**
   A run's own failure is a prompt that was refused, and it is the last ask the
   run serves: every earlier one was given a password.
   */
  lemma {:induction false} OnlyTheLastAskFails<P>(prompting: bool, events: seq<Event<P>>)
    ensures DeskInv(DeskAfter(prompting, events))
    decreases |events|
  {
    if events != [] {
      OnlyTheLastAskFails(prompting, events[..|events| - 1]);
      NextKeepsInv(DeskAfter(prompting, events[..|events| - 1]), events[|events| - 1]);
    }
  }

  /** From the stop on nobody is served, and what the run fails with does not change. */
  lemma {:induction false} StopServesNobody<P>(prompting: bool, events: seq<Event<P>>, n: nat)
    requires n <= |events| && DeskAfter(prompting, events[..n]).stopped
    ensures var stop, end := DeskAfter(prompting, events[..n]), DeskAfter(prompting, events);
            end.stopped && end.served == stop.served && end.fatal == stop.fatal
    decreases |events|
  {
    if n == |events| {
      assert events[..n] == events;
    } else {
      var before := events[..|events| - 1];
      assert before[..n] == events[..n];
      StopServesNobody(prompting, before, n);
    }
  }

  lemma {:induction false} GivenMeansAnswered<P>(asks: seq<Ask<P>>)
    requires forall k :: 0 <= k < |asks| ==> ReplyTo(asks, k).Given?
    ensures Unanswered(asks) == 0
    decreases |asks|
  {
    if asks != [] {
      var n := |asks| - 1;
      forall k | 0 <= k < n
        ensures ReplyTo(asks[..n], k).Given?
      {
        assert ReplyTo(asks, k).Given?;
        PrefixReply(asks, n, k);
      }
      GivenMeansAnswered(asks[..n]);
      AskIsAnswered(asks, n);
      assert ReplyTo(asks, n).Given?;
    }
  }

  /** In every run the shared password is prompted for at most once more than Hosts asked again. */
  lemma OnePromptPerRun<P>(prompting: bool, events: seq<Event<P>>)
    ensures var served := DeskAfter(prompting, events).served;
            SharedPrompts(served) <= 1 + Repeats(served)
  {
    var served := DeskAfter(prompting, events).served;
    OnlyTheLastAskFails(prompting, events);
    OnePromptServesAll(served);
    if served != [] {
      var n := |served| - 1;
      forall k | 0 <= k < n
        ensures ReplyTo(served[..n], k).Given?
      {
        assert ReplyTo(served, k).Given?;
        PrefixReply(served, n, k);
      }
      GivenMeansAnswered(served[..n]);
    }
  }

  /** The asks among the events, in order. */
  function AsksIn<P>(events: seq<Event<P>>): seq<Ask<P>> {
    if events == [] then []
    else
      var e := events[|events| - 1];
      AsksIn(events[..|events| - 1]) + if e.Asking? then [e.ask] else []
  }

  ghost predicate AllGiven<P>(asks: seq<Ask<P>>) {
    forall k :: 0 <= k < |asks| ==> ReplyTo(asks, k).Given?
  }

  /**
   Who is served: asks in the order they come, from the first, until one is not
   given a password, comes after the stop, or finds its askers gone.
   */
  lemma {:induction false} AsksAreServedInOrder<P>(prompting: bool, events: seq<Event<P>>)
    ensures var d := DeskAfter(prompting, events);
            && d.served <= AsksIn(events)
            && (d.open <==> prompting && AskersGone !in events && d.served == AsksIn(events) && AllGiven(d.served))
            && (d.stopped <==> CtrlC in events || !AllGiven(d.served))
    decreases |events|
  {
    if events != [] {
      var before, e := events[..|events| - 1], events[|events| - 1];
      AsksAreServedInOrder(prompting, before);
      OnlyTheLastAskFails(prompting, before);
      assert events == before + [e];
      NextIsServed(DeskAfter(prompting, before), e, AsksIn(before));
    }
  }

  lemma NextIsServed<P>(d: Desk<P>, e: Event<P>, asks: seq<Ask<P>>)
    requires d.served <= asks && (d.open ==> d.served == asks && AllGiven(d.served))
    ensures var d', more := Next(d, e), asks + if e.Asking? then [e.ask] else [];
            && d'.served <= more
            && (d'.open <==> d.open && !e.AskersGone? && d'.served == more && AllGiven(d'.served))
            && (d'.stopped <==> d.stopped || e.CtrlC? || (AllGiven(d.served) && !AllGiven(d'.served)))
            && (!AllGiven(d.served) ==> d'.served == d.served || d.open)
  {
    if e.Asking? && d.open && !d.stopped {
      EarlierReplies(d.served, e.ask);
      var more := d.served + [e.ask];
      assert ReplyTo(more, |d.served|) == Reply(After(d.served), e.ask);
    }
  }
}
