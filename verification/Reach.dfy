/** Reachability in finite graphs, by paths and as a least closed set. */
module Reach {
  type Graph = map<nat, set<nat>>

  function Succ(g: Graph, x: nat): (s: set<nat>) {
    if x in g then g[x] else {}
  }

  ghost predicate IsPath(g: Graph, p: seq<nat>) {
    p != [] && forall i :: 0 <= i < |p| - 1 ==> p[i + 1] in Succ(g, p[i])
  }

  ghost predicate Reachable(g: Graph, roots: set<nat>, y: nat) {
    exists p: seq<nat> :: IsPath(g, p) && p[0] in roots && p[|p| - 1] == y
  }

  predicate Closed(g: Graph, s: set<nat>) {
    forall x :: x in s ==> Succ(g, x) <= s
  }

  lemma RootReachable(g: Graph, roots: set<nat>, x: nat)
    requires x in roots
    ensures Reachable(g, roots, x)
  {
    var p := [x];
    assert IsPath(g, p) && p[0] in roots && p[|p| - 1] == x;
  }

  lemma StepReachable(g: Graph, roots: set<nat>, x: nat, y: nat)
    requires Reachable(g, roots, x) && y in Succ(g, x)
    ensures Reachable(g, roots, y)
  {
    var p: seq<nat> :| IsPath(g, p) && p[0] in roots && p[|p| - 1] == x;
    var q := p + [y];
    forall i | 0 <= i < |q| - 1 ensures q[i + 1] in Succ(g, q[i]) {
      if i < |p| - 1 {
        assert p[i + 1] in Succ(g, p[i]);
      }
    }
    assert IsPath(g, q) && q[0] in roots && q[|q| - 1] == y;
  }

  lemma MoreRoots(g: Graph, roots: set<nat>, more: set<nat>, y: nat)
    requires roots <= more && Reachable(g, roots, y)
    ensures Reachable(g, more, y)
  {
    var p: seq<nat> :| IsPath(g, p) && p[0] in roots && p[|p| - 1] == y;
    assert p[0] in more;
  }

  /** What is reachable from something reachable is reachable. */
  lemma ReachableThrough(g: Graph, roots: set<nat>, x: nat, y: nat)
    requires Reachable(g, roots, x) && Reachable(g, {x}, y)
    ensures Reachable(g, roots, y)
  {
    var p: seq<nat> :| IsPath(g, p) && p[0] in {x} && p[|p| - 1] == y;
    AlongPath(g, roots, p, |p| - 1);
  }

  lemma {:induction false} AlongPath(g: Graph, roots: set<nat>, p: seq<nat>, n: nat)
    requires IsPath(g, p) && n < |p| && Reachable(g, roots, p[0])
    ensures Reachable(g, roots, p[n])
  {
    if n > 0 {
      AlongPath(g, roots, p, n - 1);
      assert p[n - 1 + 1] in Succ(g, p[n - 1]);
      StepReachable(g, roots, p[n - 1], p[n]);
    }
  }

  lemma {:induction false} PathStaysIn(g: Graph, s: set<nat>, p: seq<nat>, n: nat)
    requires IsPath(g, p) && n < |p| && p[0] in s && Closed(g, s)
    ensures p[n] in s
  {
    if n > 0 {
      PathStaysIn(g, s, p, n - 1);
      assert p[n - 1 + 1] in Succ(g, p[n - 1]);
    }
  }

  /** A closed set that holds the roots holds everything reachable: the set of
      reachable nodes is the least such set. */
  lemma ClosedHoldsReachable(g: Graph, roots: set<nat>, s: set<nat>, y: nat)
    requires Closed(g, s) && roots <= s && Reachable(g, roots, y)
    ensures y in s
  {
    var p: seq<nat> :| IsPath(g, p) && p[0] in roots && p[|p| - 1] == y;
    PathStaysIn(g, s, p, |p| - 1);
  }

  /** s is exactly what can be reached from the roots. */
  ghost predicate Exactly(g: Graph, roots: set<nat>, s: set<nat>) {
    forall y: nat :: y in s <==> Reachable(g, roots, y)
  }

  lemma ExactlyBecause(g: Graph, roots: set<nat>, s: set<nat>)
    requires Closed(g, s) && roots <= s && forall y :: y in s ==> Reachable(g, roots, y)
    ensures Exactly(g, roots, s)
  {
    forall y: nat ensures y in s <==> Reachable(g, roots, y) {
      if Reachable(g, roots, y) {
        ClosedHoldsReachable(g, roots, s, y);
      }
    }
  }

  /** Conversely that set is closed, holds the roots and is the least such. */
  lemma ExactlyIsLeast(g: Graph, roots: set<nat>, s: set<nat>, t: set<nat>)
    requires Exactly(g, roots, s)
    ensures Closed(g, s) && roots <= s
    ensures Closed(g, t) && roots <= t ==> s <= t
  {
    forall x, y | x in s && y in Succ(g, x) ensures y in s {
      StepReachable(g, roots, x, y);
    }
    forall x | x in roots ensures x in s {
      RootReachable(g, roots, x);
    }
    if Closed(g, t) && roots <= t {
      forall y | y in s ensures y in t {
        ClosedHoldsReachable(g, roots, t, y);
      }
    }
  }
}
