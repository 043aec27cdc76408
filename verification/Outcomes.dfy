/** How one Host ended, and what a run exits with. */
module Outcomes {
  import opened Wrappers

  datatype Status = Ok | Failed | Running | Unreachable | Timeout | Cancelled

  const EXIT_OK: bv8 := 0
  const EXIT_LOCAL: bv8 := 1
  const EXIT_FAILED: bv8 := 2
  const EXIT_UNREACHABLE: bv8 := 4
  const EXIT_INTERRUPTED: bv8 := 99

  /** How waiting for a child ended: an exit status, a signal's death, or a status that cannot be read. */
  datatype Waited = Exited(code: int) | Signalled | Unreadable

  function FromExitCode(code: int): Status {
    if code == 0 then Ok else if code == 255 then Unreachable else Failed
  }

  /** What rshx read from one Host's ssh. */
  datatype Settled = Settled(
    waited: Waited, timedOut: bool, killed: bool,
    stdout: seq<char>, stderr: seq<char>, stdoutTruncated: bool, stderrTruncated: bool)

  datatype Outcome = Outcome(
    host: string, status: Status, exitCode: Option<int>,
    stdout: seq<char>, stderr: seq<char>, stdoutTruncated: bool, stderrTruncated: bool)

  function StatusOf(killed: bool, timedOut: bool, waited: Waited): Status {
    if killed then Cancelled
    else if timedOut then Timeout
    else match waited
      case Exited(code) => FromExitCode(code)
      case Signalled => Cancelled
      case Unreadable => Unreachable
  }

  /** The outcome of an attached command; `lost` is the note that stands in for an unreadable status. */
  function OutcomeOf(host: string, s: Settled, lost: seq<char>): Outcome {
    var code := if s.waited.Exited? && !s.killed && !s.timedOut then Some(s.waited.code) else None;
    Outcome(host, StatusOf(s.killed, s.timedOut, s.waited), code,
            s.stdout, if s.waited.Unreadable? then lost else s.stderr, s.stdoutTruncated, s.stderrTruncated)
  }

  function Statuses(outcomes: seq<Outcome>): seq<Status> {
    seq(|outcomes|, i requires 0 <= i < |outcomes| => outcomes[i].status)
  }

  /** What the exit code says, by the statuses alone. */
  function CodeFor(statuses: set<Status>): bv8 {
    if Cancelled in statuses then EXIT_INTERRUPTED
    else (if Failed in statuses then 2 else 0) + (if Unreachable in statuses || Timeout in statuses then 4 else 0)
  }

  function StatusSet(statuses: seq<Status>): set<Status> {
    set i | 0 <= i < |statuses| :: statuses[i]
  }

  /** The run's exit code. */
  method ExitCode(statuses: seq<Status>) returns (code: bv8)
    ensures code == EXIT_INTERRUPTED <==> Cancelled in statuses
    ensures Cancelled !in statuses ==>
              && (code & EXIT_FAILED != 0 <==> Failed in statuses)
              && (code & EXIT_UNREACHABLE != 0 <==> Unreachable in statuses || Timeout in statuses)
              && code & !(EXIT_FAILED | EXIT_UNREACHABLE) == 0
    ensures code == CodeFor(StatusSet(statuses))
  {
    if Cancelled in statuses {
      return EXIT_INTERRUPTED;
    }
    code := EXIT_OK;
    for i := 0 to |statuses|
      invariant code == CodeFor(StatusSet(statuses[..i]))
    {
      assert StatusSet(statuses[..i + 1]) == StatusSet(statuses[..i]) + {statuses[i]};
      match statuses[i]
      case Failed => code := code | EXIT_FAILED;
      case Unreachable => code := code | EXIT_UNREACHABLE;
      case Timeout => code := code | EXIT_UNREACHABLE;
      case Ok =>
      case Running =>
      case Cancelled =>
    }
    assert statuses[..|statuses|] == statuses;
  }

  /** The exit code does not depend on the order Hosts settled in, nor on how many did the same. */
  lemma ExitCodeIgnoresOrder(a: seq<Status>, b: seq<Status>)
    requires multiset(a) == multiset(b)
    ensures CodeFor(StatusSet(a)) == CodeFor(StatusSet(b))
  {
    forall s ensures s in StatusSet(a) <==> s in StatusSet(b) {
      assert s in a <==> s in multiset(a);
      assert s in b <==> s in multiset(b);
    }
    assert StatusSet(a) == StatusSet(b);
  }

  /** Two Hosts' settlings that differ at most in what was printed, and how much of it was kept. */
  ghost predicate SameEnd(a: Settled, b: Settled) {
    a.waited == b.waited && a.timedOut == b.timedOut && a.killed == b.killed
  }

  /** What the Hosts printed does not change an attached run's exit code. */
  lemma ExitCodeIgnoresOutput(hosts: seq<string>, a: seq<Settled>, b: seq<Settled>, lost: seq<char>)
    requires |hosts| == |a| == |b| && forall i :: 0 <= i < |a| ==> SameEnd(a[i], b[i])
    ensures var outA := seq(|a|, i requires 0 <= i < |a| => OutcomeOf(hosts[i], a[i], lost));
            var outB := seq(|b|, i requires 0 <= i < |b| => OutcomeOf(hosts[i], b[i], lost));
            CodeFor(StatusSet(Statuses(outA))) == CodeFor(StatusSet(Statuses(outB)))
  {
    var outA := seq(|a|, i requires 0 <= i < |a| => OutcomeOf(hosts[i], a[i], lost));
    var outB := seq(|b|, i requires 0 <= i < |b| => OutcomeOf(hosts[i], b[i], lost));
    assert Statuses(outA) == Statuses(outB);
  }

  /**
   A Host has an exit code exactly when its command ended on its own and said one,
   and then the code says the status; what it printed is kept as it was, but for
   the note where its status could not be read.
   */
  lemma OutcomesKeepTheirEnd(host: string, s: Settled, lost: seq<char>)
    ensures var o := OutcomeOf(host, s, lost);
            && (o.exitCode.Some? <==> s.waited.Exited? && !s.killed && !s.timedOut)
            && (o.exitCode.Some? ==> o.exitCode.value == s.waited.code)
            && (o.exitCode == Some(0) <==> o.status == Ok)
            && (o.status == Failed <==> o.exitCode.Some? && o.exitCode.value != 0 && o.exitCode.value != 255)
            && (o.status == Timeout <==> s.timedOut && !s.killed)
            && (o.exitCode.None? && !s.timedOut && !s.killed ==>
                  o.status == if s.waited == Signalled then Cancelled else Unreachable)
            && (s.killed ==> o.status == Cancelled) && o.status != Running
            && o.host == host && o.stdout == s.stdout && (s.waited != Unreadable ==> o.stderr == s.stderr)
            && o.stdoutTruncated == s.stdoutTruncated && o.stderrTruncated == s.stderrTruncated
  {
  }

  function CountOf(statuses: seq<Status>, s: Status): nat {
    if statuses == [] then 0
    else CountOf(statuses[..|statuses| - 1], s) + if statuses[|statuses| - 1] == s then 1 else 0
  }

  /** The summary's six counts leave no outcome out and count none twice. */
  lemma {:induction false} CountsAddUp(statuses: seq<Status>)
    ensures CountOf(statuses, Ok) + CountOf(statuses, Failed) + CountOf(statuses, Running)
          + CountOf(statuses, Unreachable) + CountOf(statuses, Timeout) + CountOf(statuses, Cancelled) == |statuses|
  {
    if statuses != [] {
      CountsAddUp(statuses[..|statuses| - 1]);
    }
  }
}
