/** The walk a stop makes on the Host: from the recorded process to everything below it. */
module ProcessTree {

  /** From `root` down: each process on the chain is the next one's parent. */
  ghost predicate Chain<K(!new)>(par: map<K, K>, root: K, chain: seq<K>) {
    && chain != [] && chain[0] == root
    && forall i :: 0 < i < |chain| ==> chain[i] in par && par[chain[i]] == chain[i - 1]
  }

  /** `pid` is `root`, or some number of generations below it. */
  ghost predicate Below<K(!new)>(par: map<K, K>, root: K, pid: K) {
    exists chain :: Chain(par, root, chain) && chain[|chain| - 1] == pid
  }

  predicate NoRepeat<K(==)>(s: seq<K>) {
    forall j, k :: 0 <= j < k < |s| ==> s[j] != s[k]
  }

  /** Every process after the first is found after its parent. */
  predicate ParentsFirst<K(==)>(par: map<K, K>, out: seq<K>) {
    forall i :: 0 < i < |out| ==> out[i] in par && par[out[i]] in out[..i]
  }

  predicate Closed<K(==)>(par: map<K, K>, want: set<K>) {
    forall pid :: pid in par && par[pid] in want ==> pid in want
  }

  predicate Listed<K(==)>(out: seq<K>, want: set<K>) {
    && NoRepeat(out)
    && (forall i :: 0 <= i < |out| ==> out[i] in want)
    && (forall k :: k in want ==> k in out)
  }

  lemma RootIsBelow<K(!new)>(par: map<K, K>, root: K)
    ensures Below(par, root, root)
  {
    assert Chain(par, root, [root]);
  }

  lemma ChildIsBelow<K(!new)>(par: map<K, K>, root: K, pid: K)
    requires pid in par && Below(par, root, par[pid])
    ensures Below(par, root, pid)
  {
    var chain :| Chain(par, root, chain) && chain[|chain| - 1] == par[pid];
    assert Chain(par, root, chain + [pid]);
    assert (chain + [pid])[|chain|] == pid;
  }

  /** A set that holds the root and every child of its members holds the whole tree. */
  lemma {:induction false} ClosedHoldsChain<K(!new)>(par: map<K, K>, root: K, want: set<K>, chain: seq<K>)
    requires root in want && Closed(par, want) && Chain(par, root, chain)
    ensures chain[|chain| - 1] in want
    decreases |chain|
  {
    if |chain| > 1 {
      var upper := chain[..|chain| - 1];
      assert Chain(par, root, upper);
      ClosedHoldsChain(par, root, want, upper);
    }
  }

  lemma ClosedHoldsTree<K(!new)>(par: map<K, K>, root: K, want: set<K>)
    requires root in want && Closed(par, want)
    ensures forall pid :: Below(par, root, pid) ==> pid in want
  {
    forall pid | Below(par, root, pid)
      ensures pid in want
    {
      var chain :| Chain(par, root, chain) && chain[|chain| - 1] == pid;
      ClosedHoldsChain(par, root, want, chain);
    }
  }

  /** One more process of the tree, found once. */
  lemma Found<K(!new)>(par: map<K, K>, out: seq<K>, want: set<K>, pid: K)
    requires Listed(out, want) && ParentsFirst(par, out) && pid !in want && pid in par && par[pid] in want
    ensures Listed(out + [pid], want + {pid}) && ParentsFirst(par, out + [pid])
  {
    var more := out + [pid];
    assert forall i :: 0 <= i < |out| ==> more[i] == out[i];
    forall k | k in want + {pid}
      ensures k in more
    {
      if k == pid {
        assert more[|out|] == pid;
      } else {
        assert k in out;
      }
    }
    forall i | 0 < i < |more|
      ensures more[i] in par && par[more[i]] in more[..i]
    {
      if i < |out| {
        assert more[..i] == out[..i];
      } else {
        assert more[..i] == out;
      }
    }
  }

  /**
   Passes over the snapshot, in whatever order each one meets it, until a pass
   finds nobody new. Every process of the tree is listed once, and no other.
   */
  method Walk<K(==, !new)>(par: map<K, K>, root: K) returns (out: seq<K>)
    ensures forall pid :: pid in out <==> Below(par, root, pid)
    ensures NoRepeat(out) && out != [] && out[0] == root && ParentsFirst(par, out)
  {
    var want := {root};
    out := [root];
    RootIsBelow(par, root);
    var n := 1;
    while n != 0
      invariant n >= 0
      invariant Listed(out, want) && ParentsFirst(par, out) && out != [] && out[0] == root
      invariant root in want && forall pid :: pid in want ==> Below(par, root, pid)
      invariant n == 0 ==> Closed(par, want)
      decreases par.Keys - want, n
    {
      n := 0;
      var rest := par.Keys;
      ghost var before := want;
      while rest != {}
        invariant rest <= par.Keys && n >= 0
        invariant before <= want && (n == 0 ==> want == before) && (n > 0 ==> (par.Keys - want) < (par.Keys - before))
        invariant Listed(out, want) && ParentsFirst(par, out) && out != [] && out[0] == root
        invariant root in want && forall pid :: pid in want ==> Below(par, root, pid)
        invariant n == 0 ==> forall pid :: pid in par && pid !in rest && par[pid] in want ==> pid in want
        decreases rest
      {
        var pid :| pid in rest;
        rest := rest - {pid};
        if pid !in want && par[pid] in want {
          ChildIsBelow(par, root, pid);
          Found(par, out, want, pid);
          assert pid in par.Keys - before && pid !in par.Keys - (want + {pid});
          want := want + {pid};
          out := out + [pid];
          n := n + 1;
        }
      }
    }
    ClosedHoldsTree(par, root, want);
  }
}
