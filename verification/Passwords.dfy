/**
 The passwords of a run: one that every Host shares, and one for each Host that
 is marked to have its own. sudo asks again only after a rejection, so what a
 Host had once is of no more use to it.
 */
module Passwords {
  import opened Wrappers

  type Host = string

  /** What the person at the terminal did, or why there was nobody to do it. */
  datatype Typed<P> = Password(value: P) | Interrupted | Empty | NoTerminal(why: string) | Lost(why: string)

  datatype Answer<P> = Given(password: P) | Refused | Stopped

  datatype Fatal = EmptyPassword | NeedsTerminal(why: string) | CouldNotAsk(why: string)

  /** What is known of a Host with its own password: the one last typed for it, and whether it went out. */
  datatype Unique<P> = Unique(password: Option<P>, tried: bool)

  datatype Store<P> = Store(shared: Option<P>, given: set<Host>, unique: map<Host, Unique<P>>, fatal: Option<Fatal>)

  // ----- one ask -----

  /** What can be handed over without asking anyone. */
  function Untried<P>(s: Store<P>, host: Host, own: bool): Option<P> {
    if own then
      if host in s.unique && !s.unique[host].tried then s.unique[host].password else None
    else if host in s.given then None
    else s.shared
  }

  /** The store once that password has been handed over; a Host's own entry is made by looking for it. */
  function Taken<P>(s: Store<P>, host: Host, own: bool): Store<P> {
    var found := Untried(s, host, own).Some?;
    if own then
      var entry := if host in s.unique then s.unique[host] else Unique(None, false);
      s.(unique := s.unique[host := entry.(tried := entry.tried || found)])
    else if found then s.(given := s.given + {host})
    else s
  }

  function Remembered<P>(s: Store<P>, host: Host, own: bool, password: P): Store<P> {
    if own then s.(unique := s.unique[host := Unique(Some(password), true)])
    else s.(shared := Some(password), given := {host})
  }

  function Failed<P>(s: Store<P>, reason: Fatal): Store<P> {
    s.(fatal := if s.fatal.None? then Some(reason) else s.fatal)
  }

  function Reason<P>(typed: Typed<P>): Option<Fatal> {
    match typed
    case Empty => Some(EmptyPassword)
    case NoTerminal(why) => Some(NeedsTerminal(why))
    case Lost(why) => Some(CouldNotAsk(why))
    case _ => None
  }

  /** An ask: who makes it, whether `own` or shared, and what a prompt would bring if it came to one. */
  datatype Ask<P> = Ask(host: Host, own: bool, typed: Typed<P>)

  predicate Prompts<P>(s: Store<P>, ask: Ask<P>) {
    Untried(s, ask.host, ask.own).None?
  }

  function Reply<P>(s: Store<P>, ask: Ask<P>): Answer<P> {
    match Untried(s, ask.host, ask.own)
    case Some(password) => Given(password)
    case None =>
      match ask.typed
      case Password(value) => Given(value)
      case Interrupted => Stopped
      case _ => Refused
  }

  function Served<P>(s: Store<P>, ask: Ask<P>): Store<P> {
    var taken := Taken(s, ask.host, ask.own);
    if !Prompts(s, ask) then taken
    else if ask.typed.Password? then Remembered(taken, ask.host, ask.own, ask.typed.value)
    else if Reason(ask.typed).Some? then Failed(taken, Reason(ask.typed).value)
    else taken
  }

  /** The password a stop may use. */
  function PasswordFor<P>(s: Store<P>, host: Host, own: bool): Option<P> {
    if !own then s.shared
    else if host in s.unique then s.unique[host].password
    else None
  }

  class Privilege<P(==)> {
    var shared: Option<P>
    var given: set<Host>
    var unique: map<Host, Unique<P>>
    var fatal: Option<Fatal>

    function Contents(): Store<P>
      reads this
    {
      Store(shared, given, unique, fatal)
    }

    constructor ()
      ensures Contents() == Store(None, {}, map[], None)
    {
      shared, given, unique, fatal := None, {}, map[], None;
    }

    method TakeUntried(host: Host, own: bool) returns (password: Option<P>)
      modifies this
      ensures password == Untried(old(Contents()), host, own)
      ensures Contents() == Taken(old(Contents()), host, own)
    {
      if own {
        if host !in unique {
          unique := unique[host := Unique(None, false)];
        }
        var entry := unique[host];
        if entry.tried {
          return None;
        }
        password := entry.password;
        if password.Some? {
          unique := unique[host := entry.(tried := true)];
        }
      } else {
        if host in given {
          return None;
        }
        password := shared;
        if password.Some? {
          given := given + {host};
        }
      }
    }

    method Remember(host: Host, own: bool, password: P)
      modifies this
      ensures Contents() == Remembered(old(Contents()), host, own, password)
    {
      if own {
        unique := unique[host := Unique(Some(password), true)];
      } else {
        shared := Some(password);
        given := {};
        given := given + {host};
      }
    }

    method Fail(reason: Fatal)
      modifies this
      ensures Contents() == Failed(old(Contents()), reason)
    {
      if fatal.None? {
        fatal := Some(reason);
      }
    }

    /** The password a Host's command is given; `typed` is what a prompt would bring. */
    method GetAnswer(host: Host, own: bool, typed: Typed<P>) returns (answer: Answer<P>)
      modifies this
      ensures answer == Reply(old(Contents()), Ask(host, own, typed))
      ensures Contents() == Served(old(Contents()), Ask(host, own, typed))
    {
      var untried := TakeUntried(host, own);
      if untried.Some? {
        return Given(untried.value);
      }
      match typed
      case Password(value) =>
        Remember(host, own, value);
        return Given(value);
      case Interrupted =>
        return Stopped;
      case Empty =>
        Fail(EmptyPassword);
        return Refused;
      case NoTerminal(why) =>
        Fail(NeedsTerminal(why));
        return Refused;
      case Lost(why) =>
        Fail(CouldNotAsk(why));
        return Refused;
    }
  }

  // ----- every ask of a run -----

  function After<P>(asks: seq<Ask<P>>): Store<P> {
    if asks == [] then Store(None, {}, map[], None)
    else Served(After(asks[..|asks| - 1]), asks[|asks| - 1])
  }

  /** The store the `k`th ask finds. */
  function Before<P>(asks: seq<Ask<P>>, k: nat): Store<P>
    requires k <= |asks|
  {
    After(asks[..k])
  }

  function ReplyTo<P>(asks: seq<Ask<P>>, k: nat): Answer<P>
    requires k < |asks|
  {
    Reply(Before(asks, k), asks[k])
  }

  predicate Prompted<P>(asks: seq<Ask<P>>, k: nat)
    requires k < |asks|
  {
    Prompts(Before(asks, k), asks[k])
  }

  // ----- telling apart passwords that read the same -----

  /** A password, and the number of the ask it was typed at: the program keeps only the text. */
  datatype Secret = Secret(text: string, serial: nat)

  ghost predicate Numbered(asks: seq<Ask<Secret>>) {
    forall k :: 0 <= k < |asks| && asks[k].typed.Password? ==> asks[k].typed.value.serial == k
  }

  function Map<P, Q>(f: P -> Q, o: Option<P>): Option<Q> {
    match o
    case None => None
    case Some(p) => Some(f(p))
  }

  function MapTyped<P, Q>(f: P -> Q, t: Typed<P>): Typed<Q> {
    match t
    case Password(value) => Password(f(value))
    case Interrupted => Interrupted
    case Empty => Empty
    case NoTerminal(why) => NoTerminal(why)
    case Lost(why) => Lost(why)
  }

  function MapAnswer<P, Q>(f: P -> Q, a: Answer<P>): Answer<Q> {
    match a
    case Given(password) => Given(f(password))
    case Refused => Refused
    case Stopped => Stopped
  }

  function MapStore<P, Q>(f: P -> Q, s: Store<P>): Store<Q> {
    Store(Map(f, s.shared), s.given,
          map h | h in s.unique :: Unique(Map(f, s.unique[h].password), s.unique[h].tried), s.fatal)
  }

  function MapAsk<P, Q>(f: P -> Q, a: Ask<P>): Ask<Q> {
    Ask(a.host, a.own, MapTyped(f, a.typed))
  }

  function MapAsks<P, Q>(f: P -> Q, asks: seq<Ask<P>>): seq<Ask<Q>> {
    seq(|asks|, i requires 0 <= i < |asks| => MapAsk(f, asks[i]))
  }

  /**
   Who is prompted, and which typed password each Host is given, does not depend
   on what the passwords are: numbering them changes nothing.
   */
  lemma {:induction false} BlindToPasswords<P, Q>(f: P -> Q, asks: seq<Ask<P>>)
    ensures After(MapAsks(f, asks)) == MapStore(f, After(asks))
    ensures forall k :: 0 <= k < |asks| ==>
              && ReplyTo(MapAsks(f, asks), k) == MapAnswer(f, ReplyTo(asks, k))
              && (Prompted(MapAsks(f, asks), k) <==> Prompted(asks, k))
    decreases |asks|
  {
    if asks != [] {
      var n := |asks| - 1;
      var before, mapped := asks[..n], MapAsks(f, asks);
      BlindToPasswords(f, before);
      assert mapped[..n] == MapAsks(f, before);
      BlindStep(f, After(before), asks[n]);
      forall k | 0 <= k < n
        ensures ReplyTo(mapped, k) == MapAnswer(f, ReplyTo(asks, k)) && (Prompted(mapped, k) <==> Prompted(asks, k))
      {
        PrefixReply(asks, n, k);
        PrefixReply(mapped, n, k);
      }
    }
  }

  /** An ask is answered by the asks before it alone. */
  lemma PrefixReply<P>(asks: seq<Ask<P>>, n: nat, k: nat)
    requires k < n <= |asks|
    ensures ReplyTo(asks[..n], k) == ReplyTo(asks, k)
    ensures Prompted(asks[..n], k) <==> Prompted(asks, k)
  {
    assert asks[..n][..k] == asks[..k];
  }

  lemma BlindStep<P, Q>(f: P -> Q, s: Store<P>, ask: Ask<P>)
    ensures Served(MapStore(f, s), MapAsk(f, ask)) == MapStore(f, Served(s, ask))
    ensures Reply(MapStore(f, s), MapAsk(f, ask)) == MapAnswer(f, Reply(s, ask))
    ensures Prompts(MapStore(f, s), MapAsk(f, ask)) <==> Prompts(s, ask)
  {
    BlindTaken(f, s, ask.host, ask.own);
    if ask.typed.Password? {
      BlindRemembered(f, Taken(s, ask.host, ask.own), ask.host, ask.own, ask.typed.value);
    }
  }

  lemma BlindRemembered<P, Q>(f: P -> Q, s: Store<P>, host: Host, own: bool, password: P)
    ensures Remembered(MapStore(f, s), host, own, f(password)) == MapStore(f, Remembered(s, host, own, password))
  {
  }

  lemma BlindTaken<P, Q>(f: P -> Q, s: Store<P>, host: Host, own: bool)
    ensures Untried(MapStore(f, s), host, own) == Map(f, Untried(s, host, own))
    ensures Taken(MapStore(f, s), host, own) == MapStore(f, Taken(s, host, own))
  {
  }

  function TextOf(s: Secret): string {
    s.text
  }

  /** A run's asks, each typed password numbered by its ask. */
  function Tagged(asks: seq<Ask<string>>): seq<Ask<Secret>> {
    seq(|asks|, i requires 0 <= i < |asks| => MapAsk((text: string) => Secret(text, i), asks[i]))
  }

  /** Every run of asks is a numbered one with the numbers rubbed out, answered alike. */
  lemma EveryRunCanBeNumbered(asks: seq<Ask<string>>)
    ensures Numbered(Tagged(asks)) && |Tagged(asks)| == |asks|
    ensures forall k :: 0 <= k < |asks| ==>
              && ReplyTo(asks, k) == MapAnswer(TextOf, ReplyTo(Tagged(asks), k))
              && (Prompted(asks, k) <==> Prompted(Tagged(asks), k))
  {
    BlindToPasswords(TextOf, Tagged(asks));
    assert MapAsks(TextOf, Tagged(asks)) == asks;
  }

  // ----- what the store knows about the run so far -----

  /** The number of the latest ask that brought the run a shared password. */
  function Newest<P>(asks: seq<Ask<P>>): Option<nat> {
    if asks == [] then None
    else
      var n := |asks| - 1;
      if !asks[n].own && Prompted(asks, n) && asks[n].typed.Password? then Some(n) else Newest(asks[..n])
  }

  /** The number of the latest ask at which this Host typed a password of its own. */
  function NewestOf<P>(asks: seq<Ask<P>>, host: Host): Option<nat> {
    if asks == [] then None
    else
      var n := |asks| - 1;
      if asks[n].own && asks[n].host == host && asks[n].typed.Password? then Some(n) else NewestOf(asks[..n], host)
  }

  /** The Hosts that asked for the shared password at ask `since` or later. */
  function Askers<P>(asks: seq<Ask<P>>, since: nat): set<Host> {
    set i | since <= i < |asks| && !asks[i].own :: asks[i].host
  }

  /** The store, told from the asks alone. */
  ghost predicate Tells<P>(asks: seq<Ask<P>>, s: Store<P>) {
    && (match Newest(asks)
        case None => s.shared == None && s.given == {}
        case Some(j) =>
          && j < |asks| && !asks[j].own && asks[j].typed.Password?
          && s.shared == Some(asks[j].typed.value) && s.given == Askers(asks, j))
    && forall h :: OwnTells(asks, s, h)
  }

  ghost predicate OwnTells<P>(asks: seq<Ask<P>>, s: Store<P>, h: Host) {
    && (h in s.unique ==> (s.unique[h].tried <==> s.unique[h].password.Some?))
    && (match NewestOf(asks, h)
        case None => h in s.unique ==> s.unique[h].password == None
        case Some(j) =>
          && j < |asks| && asks[j].own && asks[j].host == h && asks[j].typed.Password?
          && h in s.unique && s.unique[h].password == Some(asks[j].typed.value))
  }

  lemma {:induction false} StoreTells<P>(asks: seq<Ask<P>>)
    ensures Tells(asks, After(asks))
    decreases |asks|
  {
    if asks != [] {
      var n := |asks| - 1;
      var before := asks[..n];
      StoreTells(before);
      if asks[n].own {
        OwnAskTells(asks);
      } else {
        SharedAskTells(asks);
      }
      forall h
        ensures OwnTells(asks, After(asks), h)
      {
        assert OwnTells(before, After(before), h);
        HostTells(asks, h);
      }
    }
  }

  lemma OwnAskTells<P>(asks: seq<Ask<P>>)
    requires asks != [] && asks[|asks| - 1].own && Tells(asks[..|asks| - 1], After(asks[..|asks| - 1]))
    ensures Newest(asks) == Newest(asks[..|asks| - 1])
    ensures After(asks).shared == After(asks[..|asks| - 1]).shared && After(asks).given == After(asks[..|asks| - 1]).given
    ensures forall j: nat :: Askers(asks, j) == Askers(asks[..|asks| - 1], j)
  {
    var n := |asks| - 1;
    forall j: nat
      ensures Askers(asks, j) == Askers(asks[..n], j)
    {
      AskersStay(asks, j);
    }
  }

  lemma AskersStay<P>(asks: seq<Ask<P>>, j: nat)
    requires asks != [] && asks[|asks| - 1].own
    ensures Askers(asks, j) == Askers(asks[..|asks| - 1], j)
  {
    var n := |asks| - 1;
    forall h | h in Askers(asks, j)
      ensures h in Askers(asks[..n], j)
    {
      var i :| j <= i < |asks| && !asks[i].own && asks[i].host == h;
      assert asks[..n][i] == asks[i];
    }
  }

  lemma SharedAskTells<P>(asks: seq<Ask<P>>)
    requires asks != [] && !asks[|asks| - 1].own && Tells(asks[..|asks| - 1], After(asks[..|asks| - 1]))
    ensures match Newest(asks)
            case None => After(asks).shared == None && After(asks).given == {}
            case Some(j) =>
              && j < |asks| && !asks[j].own && asks[j].typed.Password?
              && After(asks).shared == Some(asks[j].typed.value) && After(asks).given == Askers(asks, j)
  {
    var n := |asks| - 1;
    var before := asks[..n];
    AskersGrow(asks);
    if Newest(asks) == Some(n) {
      assert Askers(before, n) == {};
    }
  }

  lemma AskersGrow<P>(asks: seq<Ask<P>>)
    requires asks != [] && !asks[|asks| - 1].own
    ensures forall j: nat :: j < |asks| ==> Askers(asks, j) == Askers(asks[..|asks| - 1], j) + {asks[|asks| - 1].host}
  {
    var n := |asks| - 1;
    forall j: nat | j < |asks|
      ensures Askers(asks, j) == Askers(asks[..n], j) + {asks[n].host}
    {
      forall h | h in Askers(asks, j)
        ensures h in Askers(asks[..n], j) + {asks[n].host}
      {
        var i :| j <= i < |asks| && !asks[i].own && asks[i].host == h;
        assert i < n ==> asks[..n][i] == asks[i];
      }
      forall h | h in Askers(asks[..n], j) + {asks[n].host}
        ensures h in Askers(asks, j)
      {
        if h in Askers(asks[..n], j) {
          var i :| j <= i < n && !asks[..n][i].own && asks[..n][i].host == h;
          assert asks[i] == asks[..n][i];
        }
      }
    }
  }

  lemma HostTells<P>(asks: seq<Ask<P>>, h: Host)
    requires asks != [] && OwnTells(asks[..|asks| - 1], After(asks[..|asks| - 1]), h)
    ensures OwnTells(asks, After(asks), h)
  {
    var n := |asks| - 1;
    var s := After(asks[..n]);
    if asks[n].own && asks[n].host == h {
      OwnAskPrompts(s, asks[n]);
      OwnAskTellsHost(asks, s, After(asks));
    } else {
      OthersStay(s, asks[n], h);
      OtherAskTellsHost(asks, s, After(asks), h);
    }
  }

  lemma OwnAskTellsHost<P>(asks: seq<Ask<P>>, s: Store<P>, s': Store<P>)
    requires asks != [] && asks[|asks| - 1].own
    requires var ask := asks[|asks| - 1];
             && OwnTells(asks[..|asks| - 1], s, ask.host) && ask.host in s'.unique
             && s'.unique[ask.host] == if ask.typed.Password? then Unique(Some(ask.typed.value), true)
                                       else if ask.host in s.unique then s.unique[ask.host] else Unique(None, false)
    ensures OwnTells(asks, s', asks[|asks| - 1].host)
  {
  }

  lemma OtherAskTellsHost<P>(asks: seq<Ask<P>>, s: Store<P>, s': Store<P>, h: Host)
    requires asks != [] && !(asks[|asks| - 1].own && asks[|asks| - 1].host == h)
    requires OwnTells(asks[..|asks| - 1], s, h)
    requires h in s'.unique <==> h in s.unique
    requires h in s.unique ==> s'.unique[h] == s.unique[h]
    ensures OwnTells(asks, s', h)
  {
  }

  lemma OwnAskPrompts<P>(s: Store<P>, ask: Ask<P>)
    requires ask.own && (ask.host in s.unique ==> (s.unique[ask.host].tried <==> s.unique[ask.host].password.Some?))
    ensures Prompts(s, ask) && ask.host in Served(s, ask).unique
    ensures Served(s, ask).unique[ask.host]
         == if ask.typed.Password? then Unique(Some(ask.typed.value), true)
            else if ask.host in s.unique then s.unique[ask.host] else Unique(None, false)
  {
  }

  lemma OthersStay<P>(s: Store<P>, ask: Ask<P>, h: Host)
    requires !(ask.own && ask.host == h)
    ensures h in Served(s, ask).unique <==> h in s.unique
    ensures h in s.unique ==> Served(s, ask).unique[h] == s.unique[h]
  {
  }

  // ----- what a run's asks bring -----

  /**
   Every ask, told from the asks before it. A Host that has its own password is
   always prompted for. A Host that shares one is prompted for when there is none
   yet, or when the Host has asked since it was typed; otherwise it is given it.
   */
  lemma AskIsAnswered<P>(asks: seq<Ask<P>>, k: nat)
    requires k < |asks|
    ensures var ask, newest := asks[k], Newest(asks[..k]);
            && (Prompted(asks, k) <==> ask.own || newest.None? || ask.host in Askers(asks[..k], newest.value))
            && (Prompted(asks, k) ==> (ReplyTo(asks, k).Given? <==> ask.typed.Password?))
            && (Prompted(asks, k) ==> (ReplyTo(asks, k).Stopped? <==> ask.typed.Interrupted?))
            && (Prompted(asks, k) ==>
                  (ReplyTo(asks, k).Refused? <==> ask.typed.Empty? || ask.typed.NoTerminal? || ask.typed.Lost?))
            && (Prompted(asks, k) && ask.typed.Password? ==> ReplyTo(asks, k) == Given(ask.typed.value))
            && (!Prompted(asks, k) ==>
                  newest.value < k && !asks[newest.value].own && asks[newest.value].typed.Password?
                  && ReplyTo(asks, k) == Given(asks[newest.value].typed.value))
  {
    StoreTells(asks[..k]);
    assert OwnTells(asks[..k], After(asks[..k]), asks[k].host);
  }

  /** Which ask a Host's password was typed at, by what the Host is. */
  lemma GivenIsNewest(asks: seq<Ask<Secret>>, k: nat)
    requires Numbered(asks) && k < |asks| && ReplyTo(asks, k).Given?
    ensures var secret := ReplyTo(asks, k).password;
            && secret.serial <= k
            && asks[secret.serial].typed == Password(secret)
            && asks[secret.serial].own == asks[k].own
            && (asks[k].own ==> secret.serial == k)
            && (!asks[k].own ==> Newest(asks[..k + 1]) == Some(secret.serial))
  {
    AskIsAnswered(asks, k);
    assert asks[..k + 1][..k] == asks[..k];
    assert Prompted(asks[..k + 1], k) <==> Prompted(asks, k);
  }

  /** A Host that is given a password twice is given a newer one the second time. */
  lemma NeverTheSameTwice(asks: seq<Ask<Secret>>, i: nat, k: nat)
    requires Numbered(asks) && i < k < |asks|
    requires asks[i].host == asks[k].host && asks[i].own == asks[k].own
    requires ReplyTo(asks, i).Given? && ReplyTo(asks, k).Given?
    ensures ReplyTo(asks, i).password.serial < ReplyTo(asks, k).password.serial
  {
    GivenIsNewest(asks, i);
    AskIsAnswered(asks, k);
    if !Prompted(asks, k) {
      assert asks[..k][i] == asks[i];
    }
  }

  // ----- how often the user is asked -----

  /** How many asks for the shared password came to a prompt. */
  function SharedPrompts<P>(asks: seq<Ask<P>>): nat {
    if asks == [] then 0
    else
      var n := |asks| - 1;
      SharedPrompts(asks[..n]) + if !asks[n].own && Prompted(asks, n) then 1 else 0
  }

  /** How many of them, while the run had no shared password, brought none. */
  function Unanswered<P>(asks: seq<Ask<P>>): nat {
    if asks == [] then 0
    else
      var n := |asks| - 1;
      Unanswered(asks[..n]) + if !asks[n].own && Newest(asks[..n]).None? && !asks[n].typed.Password? then 1 else 0
  }

  /** How many asks for it were made by a Host that had already asked. */
  function Repeats<P>(asks: seq<Ask<P>>): nat {
    if asks == [] then 0
    else
      var n := |asks| - 1;
      Repeats(asks[..n]) + if !asks[n].own && asks[n].host in Askers(asks[..n], 0) then 1 else 0
  }

  /** One prompt serves every Host, but for those that ask again and for first prompts that brought nothing. */
  lemma {:induction false} OnePromptServesAll<P>(asks: seq<Ask<P>>)
    ensures SharedPrompts(asks) <= (if Newest(asks).Some? then 1 else 0) + Repeats(asks) + Unanswered(asks)
    decreases |asks|
  {
    if asks != [] {
      var n := |asks| - 1;
      OnePromptServesAll(asks[..n]);
      AskIsAnswered(asks, n);
      var newest := Newest(asks[..n]);
      if newest.Some? && asks[n].host in Askers(asks[..n], newest.value) {
        var i :| newest.value <= i < n && !asks[..n][i].own && asks[..n][i].host == asks[n].host;
        assert asks[n].host in Askers(asks[..n], 0);
      }
    }
  }

  // ----- why a run ends -----

  /** Ask `k` came to a prompt that fails the run, for this reason. */
  predicate Fails<P>(asks: seq<Ask<P>>, k: nat, reason: Fatal)
    requires k < |asks|
  {
    Prompted(asks, k) && Reason(asks[k].typed) == Some(reason)
  }

  /** The run's failure is the first one. */
  lemma {:induction false} FirstFailureIsKept<P>(asks: seq<Ask<P>>, k: nat, reason: Fatal)
    requires k < |asks| && Fails(asks, k, reason)
    requires forall i, r :: 0 <= i < k ==> !Fails(asks, i, r)
    ensures After(asks).fatal == Some(reason)
    decreases |asks|
  {
    var n := |asks| - 1;
    if k < n {
      EarlierFails(asks, n);
      FirstFailureIsKept(asks[..n], k, reason);
    } else {
      EarlierFails(asks, n);
      NoFailure(asks[..n]);
    }
  }

  /** A prompt fails the run exactly when nothing was typed, nobody could be asked, or the asking broke, and says which. */
  lemma WhichPromptsFail<P>(asks: seq<Ask<P>>, k: nat, reason: Fatal)
    requires k < |asks|
    ensures Fails(asks, k, reason) <==>
              Prompted(asks, k)
              && (|| (asks[k].typed.Empty? && reason == EmptyPassword)
                  || (asks[k].typed.NoTerminal? && reason == NeedsTerminal(asks[k].typed.why))
                  || (asks[k].typed.Lost? && reason == CouldNotAsk(asks[k].typed.why)))
    ensures (exists r :: Fails(asks, k, r)) <==> ReplyTo(asks, k).Refused?
  {
    AskIsAnswered(asks, k);
    if ReplyTo(asks, k).Refused? {
      assert Fails(asks, k, Reason(asks[k].typed).value);
    }
  }

  lemma EarlierFails<P>(asks: seq<Ask<P>>, n: nat)
    requires n <= |asks|
    ensures forall i, r :: 0 <= i < n ==> (Fails(asks[..n], i, r) <==> Fails(asks, i, r))
  {
    forall i, r | 0 <= i < n
      ensures Fails(asks[..n], i, r) <==> Fails(asks, i, r)
    {
      assert asks[..n][..i] == asks[..i];
    }
  }

  /** A run none of whose prompts failed has no failure to report. */
  lemma {:induction false} NoFailure<P>(asks: seq<Ask<P>>)
    requires forall i, r :: 0 <= i < |asks| ==> !Fails(asks, i, r)
    ensures After(asks).fatal == None
    decreases |asks|
  {
    if asks != [] {
      var n := |asks| - 1;
      EarlierFails(asks, n);
      NoFailure(asks[..n]);
      if Prompted(asks, n) && Reason(asks[n].typed).Some? {
        assert Fails(asks, n, Reason(asks[n].typed).value);
      }
    }
  }

  // ----- what a stop may use -----

  /** The password this Host was last given. */
  function LastGiven<P>(asks: seq<Ask<P>>, host: Host, own: bool): Option<P> {
    if asks == [] then None
    else
      var n := |asks| - 1;
      if asks[n].host == host && asks[n].own == own && ReplyTo(asks, n).Given? then Some(ReplyTo(asks, n).password)
      else LastGiven(asks[..n], host, own)
  }

  /**
   A stop uses the password its Host was last given, except when the run has a
   shared one newer than any this Host has had: then it uses that.
   */
  lemma StopUsesWhatTheHostWasGiven(asks: seq<Ask<Secret>>, host: Host, own: bool)
    requires Numbered(asks)
    ensures PasswordFor(After(asks), host, own) == LastGiven(asks, host, own)
       <==> (own || After(asks).shared.None? || host in After(asks).given)
    decreases |asks|
  {
    StoreTells(asks);
    assert OwnTells(asks, After(asks), host);
    if own {
      OwnLastGiven(asks, host);
    } else {
      SharedLastGiven(asks, host);
    }
  }

  /** One Host's ask is enough for a stop of another, which never asked, to be handed the password. */
  lemma AStopMayUseMore(host: Host, other: Host, secret: Secret)
    requires host != other && secret.serial == 0
    ensures var asks := [Ask(other, false, Password(secret))];
            && Numbered(asks)
            && LastGiven(asks, host, false) == None && PasswordFor(After(asks), host, false) == Some(secret)
  {
    var asks := [Ask(other, false, Password(secret))];
    assert asks[..0] == [];
    assert After(asks) == Served(After(asks[..0]), asks[0]);
  }

  lemma {:induction false} OwnLastGiven<P>(asks: seq<Ask<P>>, host: Host)
    ensures LastGiven(asks, host, true) == PasswordFor(After(asks), host, true)
    decreases |asks|
  {
    if asks != [] {
      OwnLastGiven(asks[..|asks| - 1], host);
      StoreTells(asks[..|asks| - 1]);
      assert OwnTells(asks[..|asks| - 1], After(asks[..|asks| - 1]), host);
      AskIsAnswered(asks, |asks| - 1);
    }
  }

  lemma {:induction false} SharedLastGiven(asks: seq<Ask<Secret>>, host: Host)
    requires Numbered(asks)
    ensures var s, last := After(asks), LastGiven(asks, host, false);
            && (last.Some? ==> last.value.serial < |asks|)
            && (last == s.shared <==> (s.shared.None? || host in s.given))
    decreases |asks|
  {
    if asks != [] {
      var n := |asks| - 1;
      var before := asks[..n];
      SharedLastGiven(before, host);
      StoreTells(before);
      AskIsAnswered(asks, n);
    }
  }
}
