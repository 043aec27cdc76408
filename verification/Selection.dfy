/** Which Hosts a run touches, given the groups named on the command line. */
module Selection {
  import opened Wrappers
  import opened HostPatterns
  import opened HostFiles
  import opened GroupResolution

  ghost predicate Named(file: HostFile, group: string) {
    group == ALL || Resolves(file.groups, LeafOfFile(Names(file.hosts)), [], group)
  }

  /** The Hosts one named group stands for. */
  ghost function WantedBy(file: HostFile, group: string): set<string> {
    if group == ALL then Names(file.hosts)
    else Members(file.groups, LeafOfFile(Names(file.hosts)), Names(file.hosts), group)
  }

  ghost function Wanted(file: HostFile, groups: set<string>): set<string> {
    set h | h in Names(file.hosts) && exists g :: g in groups && h in WantedBy(file, g)
  }

  function Keep(hosts: seq<Host>, wanted: set<string>): seq<Host> {
    if hosts == [] then []
    else
      var last := hosts[|hosts| - 1];
      var kept := Keep(hosts[..|hosts| - 1], wanted);
      if last.name in wanted then kept + [last] else kept
  }

  /** The selection, which depends only on which groups are named. */
  ghost function Chosen(file: HostFile, groups: set<string>): seq<Host> {
    if groups == {} then file.hosts else Keep(file.hosts, Wanted(file, groups))
  }

  ghost function SetOf(groups: seq<string>): set<string> {
    set k | 0 <= k < |groups| :: groups[k]
  }

  ghost predicate AllNamed(file: HostFile, groups: seq<string>) {
    forall k :: 0 <= k < |groups| ==> Named(file, groups[k])
  }

  method SelectedNames(file: HostFile, groups: seq<string>) returns (r: Result<set<string>, GroupError>)
    requires ALL !in file.groups
    ensures r.Success? <==> AllNamed(file, groups)
    ensures r.Success? ==> r.value == Wanted(file, SetOf(groups))
    ensures r.Failure? ==> TrueOfGroups(file.groups, LeafOfFile(Names(file.hosts)), r.error)
  {
    var selected: set<string> := {};
    var i := 0;
    while i < |groups|
      invariant 0 <= i <= |groups| && AllNamed(file, groups[..i])
      invariant selected == Wanted(file, SetOf(groups[..i]))
    {
      var walk := new GroupWalk(file);
      var names := walk.ExpandGroup(groups[i]);
      if names.Failure? {
        return Failure(names.error);
      }
      OneMoreGroup(file, groups, i);
      selected := selected + names.value;
      i := i + 1;
    }
    assert groups[..i] == groups;
    return Success(selected);
  }

  lemma OneMoreGroup(file: HostFile, groups: seq<string>, i: nat)
    requires i < |groups|
    ensures Wanted(file, SetOf(groups[..i + 1])) == Wanted(file, SetOf(groups[..i])) + WantedBy(file, groups[i])
  {
    var now, next := SetOf(groups[..i]), SetOf(groups[..i + 1]);
    assert next == now + {groups[i]} by {
      forall k | 0 <= k < i ensures groups[..i + 1][k] == groups[..i][k] {}
      assert groups[..i + 1][i] == groups[i];
      forall g | g in now ensures g in next {
        var k :| 0 <= k < i && groups[..i][k] == g;
        assert groups[..i + 1][k] == g;
      }
    }
    assert groups[i] in next;
  }

  /** The file's Hosts, cut down to the named groups if any are named. */
  method Select(file: HostFile, groups: seq<string>) returns (r: Result<seq<Host>, GroupError>)
    requires ALL !in file.groups
    ensures r.Success? <==> AllNamed(file, groups)
    ensures r.Success? ==> r.value == Chosen(file, SetOf(groups))
    ensures r.Failure? ==> TrueOfGroups(file.groups, LeafOfFile(Names(file.hosts)), r.error)
  {
    if groups == [] {
      return Success(file.hosts);
    }
    var wanted := SelectedNames(file, groups);
    if wanted.Failure? {
      return Failure(wanted.error);
    }
    assert groups[0] in SetOf(groups);
    var kept: seq<Host> := [];
    var k := 0;
    while k < |file.hosts|
      invariant 0 <= k <= |file.hosts| && kept == Keep(file.hosts[..k], wanted.value)
    {
      assert file.hosts[..k + 1][..k] == file.hosts[..k];
      if file.hosts[k].name in wanted.value {
        kept := kept + [file.hosts[k]];
      }
      k := k + 1;
    }
    assert file.hosts[..k] == file.hosts;
    return Success(kept);
  }

  /** `a` is `b` with some elements left out. */
  predicate Subsequence<T(==)>(a: seq<T>, b: seq<T>)
    decreases |b|
  {
    || a == []
    || (b != []
        && ((a[|a| - 1] == b[|b| - 1] && Subsequence(a[..|a| - 1], b[..|b| - 1]))
            || Subsequence(a, b[..|b| - 1])))
  }

  lemma {:induction false} WholeIsSubsequence<T>(a: seq<T>)
    ensures Subsequence(a, a)
  {
    if a != [] {
      WholeIsSubsequence(a[..|a| - 1]);
    }
  }

  lemma {:induction false} KeptInOrder(hosts: seq<Host>, wanted: set<string>)
    ensures Subsequence(Keep(hosts, wanted), hosts)
  {
    if hosts != [] {
      var kept := Keep(hosts[..|hosts| - 1], wanted);
      KeptInOrder(hosts[..|hosts| - 1], wanted);
      assert (kept + [hosts[|hosts| - 1]])[..|kept|] == kept;
    }
  }

  lemma {:induction false} KeptExactly(hosts: seq<Host>, wanted: set<string>, h: Host)
    ensures h in Keep(hosts, wanted) <==> h in hosts && h.name in wanted
  {
    if hosts != [] {
      var front, last := hosts[..|hosts| - 1], hosts[|hosts| - 1];
      KeptExactly(front, wanted, h);
      assert hosts == front + [last];
    }
  }

  lemma {:induction false} KeptOnce(hosts: seq<Host>, wanted: set<string>)
    requires DistinctNames(hosts)
    ensures DistinctNames(Keep(hosts, wanted))
  {
    if hosts != [] {
      var front, last := hosts[..|hosts| - 1], hosts[|hosts| - 1];
      KeptOnce(front, wanted);
      var kept := Keep(front, wanted);
      forall k | 0 <= k < |kept|
        ensures kept[k].name != last.name
      {
        KeptExactly(front, wanted, kept[k]);
        var j :| 0 <= j < |front| && front[j] == kept[k];
        assert hosts[j] == front[j];
      }
    }
  }

  /** A selection lists, in file order and each once, exactly the Hosts the named groups stand for. */
  lemma SelectionIsExact(file: HostFile, groups: set<string>)
    requires DistinctNames(file.hosts)
    ensures Subsequence(Chosen(file, groups), file.hosts) && DistinctNames(Chosen(file, groups))
    ensures forall h :: h in Chosen(file, groups) <==>
              h in file.hosts && (groups == {} || exists g :: g in groups && h.name in WantedBy(file, g))
  {
    if groups == {} {
      WholeIsSubsequence(file.hosts);
    } else {
      var wanted := Wanted(file, groups);
      KeptInOrder(file.hosts, wanted);
      KeptOnce(file.hosts, wanted);
      forall h: Host
        ensures h in Keep(file.hosts, wanted) <==> h in file.hosts && h.name in wanted
      {
        KeptExactly(file.hosts, wanted, h);
      }
      forall h | h in file.hosts ensures h.name in Names(file.hosts) {}
    }
  }

  /** Some group in reach of this one lists the name, in a selector that is no group itself. */
  ghost predicate ListedInReach(groups: Groups, group: string, name: string) {
    exists p, k :: ListsAt(groups, group, name, p, k)
  }

  ghost predicate ListsAt(groups: Groups, group: string, name: string, p: seq<string>, k: nat) {
    && Path(groups, p) && p[0] == group && Last(p) in groups
    && k < |groups[Last(p)]| && groups[Last(p)][k] !in groups && Lists(groups[Last(p)][k], name)
  }

  /** The Hosts of a declared group that resolves are the declared Hosts listed in its reach. */
  lemma MembersAreListed(file: HostFile, group: string, name: string)
    requires Resolves(file.groups, LeafOfFile(Names(file.hosts)), [], group)
    ensures name in Members(file.groups, LeafOfFile(Names(file.hosts)), Names(file.hosts), group)
       <==> name in Names(file.hosts) && ListedInReach(file.groups, group, name)
  {
    if name in Names(file.hosts) && Reaches(file.groups, LeafOfFile(Names(file.hosts)), group, name) {
      ReachedIsListed(file.groups, Names(file.hosts), group, name);
    }
    if name in Names(file.hosts) && ListedInReach(file.groups, group, name) {
      ListedIsReached(file.groups, Names(file.hosts), group, name);
    }
  }

  lemma ReachedIsListed(groups: Groups, known: set<string>, group: string, name: string)
    requires Reaches(groups, LeafOfFile(known), group, name)
    ensures ListedInReach(groups, group, name)
  {
    var leaf := LeafOfFile(known);
    var p :| Path(groups, p) && p[0] == group && Last(p) in groups && LeafOf(groups, leaf, Last(p), name);
    var selectors := groups[Last(p)];
    var k :| 0 <= k < |selectors| && selectors[k] !in groups
             && leaf(selectors[k]).Success? && name in leaf(selectors[k]).value;
    MatchedIsListed(known, selectors[k]);
    assert ListsAt(groups, group, name, p, k);
  }

  lemma ListedIsReached(groups: Groups, known: set<string>, group: string, name: string)
    requires Resolves(groups, LeafOfFile(known), [], group) && name in known && ListedInReach(groups, group, name)
    ensures Reaches(groups, LeafOfFile(known), group, name)
  {
    var leaf := LeafOfFile(known);
    var p: seq<string>, k: nat :| ListsAt(groups, group, name, p, k);
    assert Path(groups, p) && p != [] && Last(p) in groups;
    var selectors := groups[Last(p)];
    assert LeavesOk(groups, leaf, Last(p));
    assert LeafOk(leaf, selectors[k]);
    MatchedIsListed(known, selectors[k]);
    assert LeafOf(groups, leaf, Last(p), name);
  }

  /**
   A run touches a Host exactly when the Host is declared and no group was named,
   or `all` was, or some group named has it listed in its reach.
   */
  lemma SelectedIsListed(file: HostFile, groups: seq<string>, host: Host)
    requires AllNamed(file, groups) && ALL !in file.groups
    ensures host in Chosen(file, SetOf(groups)) <==>
              && host in file.hosts
              && (groups == [] || ALL in groups
                  || exists k :: 0 <= k < |groups| && groups[k] in file.groups && ListedInReach(file.groups, groups[k], host.name))
  {
    if groups == [] {
      assert SetOf(groups) == {};
    } else {
      assert groups[0] in SetOf(groups);
      var wanted := Wanted(file, SetOf(groups));
      KeptExactly(file.hosts, wanted, host);
      if host in file.hosts {
        assert host.name in Names(file.hosts);
        WantedIsListed(file, groups, host.name);
      }
    }
  }

  lemma WantedIsListed(file: HostFile, groups: seq<string>, name: string)
    requires AllNamed(file, groups) && ALL !in file.groups && name in Names(file.hosts)
    ensures name in Wanted(file, SetOf(groups)) <==>
              ALL in groups
              || exists k :: 0 <= k < |groups| && groups[k] in file.groups && ListedInReach(file.groups, groups[k], name)
  {
    forall k | 0 <= k < |groups|
      ensures name in WantedBy(file, groups[k]) <==>
                groups[k] == ALL || (groups[k] in file.groups && ListedInReach(file.groups, groups[k], name))
    {
      assert Named(file, groups[k]);
      if groups[k] != ALL {
        MembersAreListed(file, groups[k], name);
      }
    }
    if name in Wanted(file, SetOf(groups)) {
      var g :| g in SetOf(groups) && name in WantedBy(file, g);
      var k :| 0 <= k < |groups| && groups[k] == g;
    }
    forall k | 0 <= k < |groups| && name in WantedBy(file, groups[k])
      ensures name in Wanted(file, SetOf(groups))
    {
      assert groups[k] in SetOf(groups);
    }
  }
}
