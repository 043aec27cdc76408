/**
 Group resolution. A group's selectors are Hosts, patterns, or other groups; the
 reference is reachability along paths of child groups, and the code a
 depth-first walk with a stack of the groups it is inside.
 */
module GroupResolution {
  import opened Wrappers
  import opened HostPatterns
  import opened HostFiles

  datatype GroupError =
    | NoGroup(group: string)
    | Cycle(path: seq<string>)
    | BadSelector(group: string, selector: string, why: ExpandError)
    | MatchesNothing(group: string, selector: string)

  /** The declared Hosts a selector that is no group matches. */
  type Leaf = string -> Result<set<string>, ExpandError>

  // ----- reachability -----

  /** A walk from group to child group. */
  ghost predicate Path(groups: Groups, p: seq<string>) {
    && p != [] && p[0] in groups
    && (|p| > 1 ==> p[1] in groups[p[0]] && Path(groups, p[1..]))
  }

  predicate NoRepeat(s: seq<string>) {
    forall j, k :: 0 <= j < k < |s| ==> s[j] != s[k]
  }

  function Last(p: seq<string>): string
    requires p != []
  {
    p[|p| - 1]
  }

  /** A walk from a group back to itself. */
  ghost predicate IsCycle(groups: Groups, c: seq<string>) {
    |c| >= 2 && Path(groups, c) && c[0] == Last(c)
  }

  predicate LeafOk(leaf: Leaf, selector: string) {
    leaf(selector).Success? && leaf(selector).value != {}
  }

  /** Every selector of a group that is no group itself matches some Host. */
  ghost predicate LeavesOk(groups: Groups, leaf: Leaf, g: string)
    requires g in groups
  {
    forall k :: 0 <= k < |groups[g]| && groups[g][k] !in groups ==> LeafOk(leaf, groups[g][k])
  }

  ghost predicate LeafOf(groups: Groups, leaf: Leaf, g: string, h: string)
    requires g in groups
  {
    exists k :: 0 <= k < |groups[g]| && groups[g][k] !in groups
             && leaf(groups[g][k]).Success? && h in leaf(groups[g][k]).value
  }

  /**
   From inside the groups in `v`, group `g` resolves: no walk on from it comes
   back to a group already on the way, and every group it reaches has good leaves.
   */
  ghost predicate Resolves(groups: Groups, leaf: Leaf, v: seq<string>, g: string) {
    && g in groups
    && forall p :: Path(groups, p) && p[0] == g ==>
         NoRepeat(v + p) && Last(p) in groups && LeavesOk(groups, leaf, Last(p))
  }

  /** Some group reachable from `g` selects Host `h` by name or pattern. */
  ghost predicate Reaches(groups: Groups, leaf: Leaf, g: string, h: string) {
    exists p :: Path(groups, p) && p[0] == g && Last(p) in groups && LeafOf(groups, leaf, Last(p), h)
  }

  ghost function Members(groups: Groups, leaf: Leaf, known: set<string>, g: string): set<string> {
    set h | h in known && Reaches(groups, leaf, g, h)
  }

  // ----- walks -----

  lemma {:induction false} PathEnds(groups: Groups, p: seq<string>)
    requires Path(groups, p)
    ensures Last(p) in groups
    decreases |p|
  {
    if |p| > 1 {
      PathEnds(groups, p[1..]);
      assert Last(p[1..]) == Last(p);
    }
  }

  lemma PathCons(groups: Groups, g: string, q: seq<string>)
    requires g in groups && Path(groups, q) && q[0] in groups[g]
    ensures Path(groups, [g] + q) && Last([g] + q) == Last(q)
  {
    assert ([g] + q)[1..] == q;
  }

  lemma {:induction false} PathJoin(groups: Groups, p: seq<string>, q: seq<string>)
    requires Path(groups, p) && Path(groups, q) && Last(p) in groups && q[0] in groups[Last(p)]
    ensures Path(groups, p + q)
    decreases |p|
  {
    if |p| == 1 {
      assert p + q == [p[0]] + q;
      PathCons(groups, p[0], q);
    } else {
      assert Last(p[1..]) == Last(p);
      PathJoin(groups, p[1..], q);
      assert p + q == [p[0]] + (p[1..] + q);
      PathCons(groups, p[0], p[1..] + q);
    }
  }

  lemma {:induction false} PathSlice(groups: Groups, p: seq<string>, i: nat, j: nat)
    requires Path(groups, p) && i < j <= |p|
    ensures Path(groups, p[i..j])
    decreases |p|
  {
    if i > 0 {
      PathSlice(groups, p[1..], i - 1, j - 1);
      assert p[1..][i - 1..j - 1] == p[i..j];
    } else if j > 1 {
      PathSlice(groups, p[1..], 0, j - 1);
      assert p[1..][0..j - 1] == p[1..j];
      assert p[0..j] == [p[0]] + p[1..j];
      PathCons(groups, p[0], p[1..j]);
    }
  }

  /** Resolving a group is resolving each of its selectors, one level further in. */
  lemma ResolvesUnfolds(groups: Groups, leaf: Leaf, v: seq<string>, g: string)
    requires g in groups
    ensures Resolves(groups, leaf, v, g) <==>
              && NoRepeat(v + [g]) && LeavesOk(groups, leaf, g)
              && forall k :: 0 <= k < |groups[g]| && groups[g][k] in groups ==>
                   Resolves(groups, leaf, v + [g], groups[g][k])
  {
    if Resolves(groups, leaf, v, g) {
      assert Path(groups, [g]) && Last([g]) == g;
      forall k | 0 <= k < |groups[g]| && groups[g][k] in groups
        ensures Resolves(groups, leaf, v + [g], groups[g][k])
      {
        forall q | Path(groups, q) && q[0] == groups[g][k]
          ensures NoRepeat(v + [g] + q) && Last(q) in groups && LeavesOk(groups, leaf, Last(q))
        {
          PathCons(groups, g, q);
          assert v + ([g] + q) == v + [g] + q;
        }
      }
    }
    if NoRepeat(v + [g]) && LeavesOk(groups, leaf, g)
       && forall k :: 0 <= k < |groups[g]| && groups[g][k] in groups ==> Resolves(groups, leaf, v + [g], groups[g][k])
    {
      forall p | Path(groups, p) && p[0] == g
        ensures NoRepeat(v + p) && Last(p) in groups && LeavesOk(groups, leaf, Last(p))
      {
        if |p| == 1 {
          assert p == [g];
        } else {
          var q := p[1..];
          var k :| 0 <= k < |groups[g]| && groups[g][k] == q[0];
          assert Resolves(groups, leaf, v + [g], groups[g][k]);
          assert v + [g] + q == v + p && Last(q) == Last(p);
        }
      }
    }
  }

  /** A Host is reached from a group through one of its own leaves or through one of its child groups. */
  lemma ReachesUnfolds(groups: Groups, leaf: Leaf, g: string, h: string)
    requires g in groups
    ensures Reaches(groups, leaf, g, h) <==>
              || LeafOf(groups, leaf, g, h)
              || exists k :: 0 <= k < |groups[g]| && groups[g][k] in groups && Reaches(groups, leaf, groups[g][k], h)
  {
    if Reaches(groups, leaf, g, h) {
      var p :| Path(groups, p) && p[0] == g && Last(p) in groups && LeafOf(groups, leaf, Last(p), h);
      if |p| > 1 {
        assert Path(groups, p[1..]) && Last(p[1..]) == Last(p);
        var k :| 0 <= k < |groups[g]| && groups[g][k] == p[1];
        assert Reaches(groups, leaf, groups[g][k], h);
      }
    }
    if LeafOf(groups, leaf, g, h) {
      assert Path(groups, [g]) && Last([g]) == g;
    }
    if exists k :: 0 <= k < |groups[g]| && groups[g][k] in groups && Reaches(groups, leaf, groups[g][k], h) {
      var k :| 0 <= k < |groups[g]| && groups[g][k] in groups && Reaches(groups, leaf, groups[g][k], h);
      var q :| Path(groups, q) && q[0] == groups[g][k] && Last(q) in groups && LeafOf(groups, leaf, Last(q), h);
      PathCons(groups, g, q);
    }
  }

  /** Going round a cycle that a walk runs into visits a group twice. */
  lemma CycleRepeats(groups: Groups, p: seq<string>, c: seq<string>)
    requires Path(groups, p) && IsCycle(groups, c) && c[0] == Last(p)
    ensures Path(groups, p + c[1..]) && (p + c[1..])[0] == p[0] && !NoRepeat(p + c[1..])
  {
    PathEnds(groups, p);
    PathSlice(groups, c, 1, |c|);
    PathJoin(groups, p, c[1..]);
    var q := p + c[1..];
    assert q[|p| - 1] == q[|q| - 1];
  }

  /** A walk that visits a group twice runs into a cycle. */
  lemma RepeatIsCycle(groups: Groups, p: seq<string>, i: nat, j: nat)
    requires Path(groups, p) && i < j < |p| && p[i] == p[j]
    ensures Path(groups, p[..i + 1]) && IsCycle(groups, p[i..j + 1]) && p[i..j + 1][0] == Last(p[..i + 1])
  {
    PathSlice(groups, p, 0, i + 1);
    PathSlice(groups, p, i, j + 1);
    assert p[0..i + 1] == p[..i + 1];
  }

  ghost predicate CycleInReach(groups: Groups, g: string) {
    exists p, c :: Path(groups, p) && p[0] == g && IsCycle(groups, c) && c[0] == Last(p)
  }

  ghost predicate GoodLeavesInReach(groups: Groups, leaf: Leaf, g: string) {
    forall p :: Path(groups, p) && p[0] == g ==> Last(p) in groups && LeavesOk(groups, leaf, Last(p))
  }

  /** At the top, resolving is having no cycle in reach: a group reached twice by different ways is no cycle. */
  lemma ResolvesMeansAcyclic(groups: Groups, leaf: Leaf, g: string)
    requires g in groups
    ensures Resolves(groups, leaf, [], g) <==> GoodLeavesInReach(groups, leaf, g) && !CycleInReach(groups, g)
  {
    if Resolves(groups, leaf, [], g) {
      assert GoodLeavesInReach(groups, leaf, g);
      ResolvesHasNoCycle(groups, leaf, g);
    } else if !CycleInReach(groups, g) {
      NoCycleNoRepeat(groups, g);
    }
  }

  lemma ResolvesHasNoCycle(groups: Groups, leaf: Leaf, g: string)
    requires Resolves(groups, leaf, [], g)
    ensures !CycleInReach(groups, g)
  {
    forall p, c | Path(groups, p) && p[0] == g && IsCycle(groups, c)
      ensures c[0] != Last(p)
    {
      if c[0] == Last(p) {
        assert [] + (p + c[1..]) == p + c[1..];
        CycleRepeats(groups, p, c);
      }
    }
  }

  lemma NoCycleNoRepeat(groups: Groups, g: string)
    requires !CycleInReach(groups, g)
    ensures forall p :: Path(groups, p) && p[0] == g ==> NoRepeat([] + p)
  {
    forall p | Path(groups, p) && p[0] == g
      ensures NoRepeat([] + p)
    {
      assert [] + p == p;
      forall i, j | 0 <= i < j < |p|
        ensures p[i] != p[j]
      {
        if p[i] == p[j] {
          RepeatIsCycle(groups, p, i, j);
        }
      }
    }
  }

  // ----- the walk -----

  function Names(hosts: seq<Host>): set<string> {
    set k | 0 <= k < |hosts| :: hosts[k].name
  }

  function Filtered(names: seq<string>, known: set<string>): set<string> {
    set k | 0 <= k < |names| && names[k] in known :: names[k]
  }

  /** A selector without a bracket stands for itself, any other for its expansion, as far as they are declared. */
  function MatchSelector(known: set<string>, selector: string): Result<set<string>, ExpandError> {
    if '[' !in selector then Success(if selector in known then {selector} else {})
    else match Expansion(selector)
      case Failure(error) => Failure(error)
      case Success(names) => Success(Filtered(names, known))
  }

  /** A selector lists a name: it is the name, or a pattern that expands to it. */
  ghost predicate Lists(selector: string, name: string) {
    if '[' !in selector then selector == name
    else Expansion(selector).Success? && name in Expansion(selector).value
  }

  /** A selector matches exactly the declared names it lists, and fails only as a pattern that cannot be expanded. */
  lemma MatchedIsListed(known: set<string>, selector: string)
    ensures var matched := MatchSelector(known, selector);
            && (matched.Failure? <==> '[' in selector && Expansion(selector).Failure?)
            && (matched.Success? ==> forall h :: h in matched.value <==> h in known && Lists(selector, h))
  {
  }

  function LeafOfFile(known: set<string>): Leaf {
    selector => MatchSelector(known, selector)
  }

  /** What a failed resolution says, and that it is so. */
  ghost predicate TrueOfGroups(groups: Groups, leaf: Leaf, error: GroupError) {
    match error
    case NoGroup(g) => g !in groups
    case Cycle(path) => IsCycle(groups, path)
    case BadSelector(g, s, why) => g in groups && s in groups[g] && leaf(s) == Failure(why)
    case MatchesNothing(g, s) => g in groups && s in groups[g] && leaf(s) == Success({})
  }

  /** What the first `n` selectors of `g` resolve to. */
  ghost predicate Contributes(groups: Groups, leaf: Leaf, g: string, n: nat, h: string)
    requires g in groups && n <= |groups[g]|
  {
    exists k :: 0 <= k < n && FromSelector(groups, leaf, groups[g][k], h)
  }

  ghost predicate FromSelector(groups: Groups, leaf: Leaf, s: string, h: string) {
    if s in groups then Reaches(groups, leaf, s, h)
    else leaf(s).Success? && h in leaf(s).value
  }

  ghost predicate SelectorOk(groups: Groups, leaf: Leaf, v: seq<string>, s: string) {
    if s in groups then Resolves(groups, leaf, v, s) else LeafOk(leaf, s)
  }

  ghost function Collected(groups: Groups, leaf: Leaf, known: set<string>, g: string, n: nat): set<string>
    requires g in groups && n <= |groups[g]|
  {
    set h | h in known && Contributes(groups, leaf, g, n, h)
  }

  lemma CollectedAll(groups: Groups, leaf: Leaf, known: set<string>, g: string)
    requires g in groups
    ensures Collected(groups, leaf, known, g, |groups[g]|) == Members(groups, leaf, known, g)
  {
    forall h | h in known
      ensures Contributes(groups, leaf, g, |groups[g]|, h) <==> Reaches(groups, leaf, g, h)
    {
      ReachesUnfolds(groups, leaf, g, h);
      if LeafOf(groups, leaf, g, h) {
        var k :| 0 <= k < |groups[g]| && groups[g][k] !in groups
              && leaf(groups[g][k]).Success? && h in leaf(groups[g][k]).value;
        assert FromSelector(groups, leaf, groups[g][k], h);
      }
    }
  }

  lemma CollectedOne(groups: Groups, leaf: Leaf, known: set<string>, g: string, n: nat)
    requires g in groups && n < |groups[g]|
    ensures Collected(groups, leaf, known, g, n + 1) ==
            Collected(groups, leaf, known, g, n) + set h | h in known && FromSelector(groups, leaf, groups[g][n], h)
  {
  }

  /** Where the walk stands: at the end of a path of distinct groups. */
  ghost predicate InsideOf(groups: Groups, v: seq<string>) {
    NoRepeat(v) && (v != [] ==> Path(groups, v) && Last(v) in groups)
  }

  ghost function Unvisited(groups: Groups, v: seq<string>): set<string> {
    groups.Keys - set k | 0 <= k < |v| :: v[k]
  }

  lemma OneFurtherIn(groups: Groups, v: seq<string>, g: string)
    requires InsideOf(groups, v) && g in groups && g !in v && (v != [] ==> g in groups[Last(v)])
    ensures InsideOf(groups, v + [g]) && Unvisited(groups, v + [g]) < Unvisited(groups, v)
  {
    assert Path(groups, [g]);
    if v != [] {
      PathJoin(groups, v, [g]);
    } else {
      assert v + [g] == [g];
    }
    assert g in Unvisited(groups, v) && (v + [g])[|v|] == g;
    forall h | h in Unvisited(groups, v + [g]) ensures h in Unvisited(groups, v) {
      forall k | 0 <= k < |v| ensures v[k] != h { assert (v + [g])[k] == v[k]; }
    }
  }

  lemma BackOnTheWay(groups: Groups, v: seq<string>, g: string, at: nat)
    requires InsideOf(groups, v) && g in groups && at < |v| && v[at] == g && g in groups[Last(v)]
    ensures IsCycle(groups, v[at..] + [g]) && !NoRepeat(v + [g])
  {
    assert Path(groups, [g]);
    PathJoin(groups, v, [g]);
    var p := v + [g];
    assert p[at] == p[|v|];
    RepeatIsCycle(groups, p, at, |v|);
    assert p[at..|v| + 1] == v[at..] + [g];
  }

  class GroupWalk {
    const groups: Groups
    const known: set<string>
    /** The groups the walk is inside, outermost first. */
    var visiting: seq<string>
    ghost const leaf: Leaf

    ghost predicate Valid()
      reads this
    {
      leaf == LeafOfFile(known) && ALL !in groups
    }

    constructor (file: HostFile)
      requires ALL !in file.groups
      ensures Valid() && visiting == [] && groups == file.groups && known == Names(file.hosts)
    {
      groups := file.groups;
      known := Names(file.hosts);
      leaf := LeafOfFile(Names(file.hosts));
      visiting := [];
    }

    method Match(selector: string) returns (r: Result<set<string>, ExpandError>)
      requires Valid()
      ensures r == leaf(selector) && (r.Success? ==> r.value <= known)
    {
      if '[' !in selector {
        return Success(if selector in known then {selector} else {});
      }
      var expanded := Expand(selector);
      r := match expanded
        case Failure(error) => Failure(error)
        case Success(names) => Success(Filtered(names, known));
    }

    method ExpandGroup(group: string) returns (r: Result<set<string>, GroupError>)
      requires Valid() && InsideOf(groups, visiting)
      requires visiting != [] ==> group in groups && group in groups[Last(visiting)]
      modifies this`visiting
      ensures r.Success? <==> group == ALL || Resolves(groups, leaf, old(visiting), group)
      ensures r.Success? ==>
                && visiting == old(visiting)
                && r.value == if group == ALL then known else Members(groups, leaf, known, group)
      ensures r.Failure? ==> TrueOfGroups(groups, leaf, r.error)
      decreases Unvisited(groups, visiting), 1
    {
      if group == ALL {
        return Success(known);
      }
      if group !in groups {
        return Failure(NoGroup(group));
      }
      ResolvesUnfolds(groups, leaf, visiting, group);
      if group in visiting {
        var at :| 0 <= at < |visiting| && visiting[at] == group;
        BackOnTheWay(groups, visiting, group, at);
        return Failure(Cycle(visiting[at..] + [group]));
      }
      OneFurtherIn(groups, visiting, group);
      visiting := visiting + [group];
      r := Children(group);
      if r.Success? {
        visiting := visiting[..|visiting| - 1];
      }
    }

    /** Resolves each selector of the group the walk has just entered. */
    method Children(group: string) returns (r: Result<set<string>, GroupError>)
      requires Valid() && InsideOf(groups, visiting) && visiting != [] && Last(visiting) == group && group in groups
      modifies this`visiting
      ensures r.Success? <==>
                forall k :: 0 <= k < |groups[group]| ==> SelectorOk(groups, leaf, old(visiting), groups[group][k])
      ensures r.Success? ==> visiting == old(visiting) && r.value == Members(groups, leaf, known, group)
      ensures r.Failure? ==> TrueOfGroups(groups, leaf, r.error)
      decreases Unvisited(groups, visiting), 3
    {
      ghost var v := visiting;
      var selectors := groups[group];
      var names: set<string> := {};
      var i := 0;
      while i < |selectors|
        invariant 0 <= i <= |selectors| && visiting == v
        invariant forall k :: 0 <= k < i ==> SelectorOk(groups, leaf, v, selectors[k])
        invariant names == Collected(groups, leaf, known, group, i)
      {
        var found := ResolveSelector(group, selectors[i]);
        if found.Failure? {
          return found;
        }
        CollectedOne(groups, leaf, known, group, i);
        names := names + found.value;
        i := i + 1;
      }
      CollectedAll(groups, leaf, known, group);
      r := Success(names);
    }

    /** One selector: a child group is entered, anything else is matched. */
    method ResolveSelector(group: string, selector: string) returns (r: Result<set<string>, GroupError>)
      requires Valid() && InsideOf(groups, visiting) && visiting != [] && Last(visiting) == group
      requires group in groups && selector in groups[group]
      modifies this`visiting
      ensures r.Success? <==> SelectorOk(groups, leaf, old(visiting), selector)
      ensures r.Success? ==>
                visiting == old(visiting) && r.value == set h | h in known && FromSelector(groups, leaf, selector, h)
      ensures r.Failure? ==> TrueOfGroups(groups, leaf, r.error)
      decreases Unvisited(groups, visiting), 2
    {
      if selector in groups {
        r := ExpandGroup(selector);
      } else {
        var matched := Match(selector);
        if matched.Failure? {
          r := Failure(BadSelector(group, selector, matched.error));
        } else if matched.value == {} {
          r := Failure(MatchesNothing(group, selector));
        } else {
          r := Success(matched.value);
        }
      }
    }
  }
}
