/** Walks along `children` edges, over an adjacency table `adj` in which
    `adj[i]` lists the children of node `i`. */
module Paths {

  /** `p` visits arena nodes and each step follows a `children` edge. */
  ghost predicate IsPath(adj: seq<seq<nat>>, p: seq<nat>) {
    && |p| > 0
    && (forall k :: 0 <= k < |p| ==> p[k] < |adj|)
    && (forall k :: 0 <= k < |p| - 1 ==> p[k + 1] in adj[p[k]])
  }

  /** `b` can be reached from `a` by zero or more `children` steps. */
  ghost predicate Reachable(adj: seq<seq<nat>>, a: nat, b: nat) {
    exists p :: IsPath(adj, p) && p[0] == a && p[|p| - 1] == b
  }

  /** Every child has a larger index than its parent: an acyclic graph laid out in
      topological order, as a depth-first copy allocates it. */
  ghost predicate Forward(adj: seq<seq<nat>>) {
    forall i, c :: 0 <= i < |adj| && c in adj[i] ==> i < c < |adj|
  }

  /** `rank` strictly decreases along every edge: the graph has no cycle. */
  ghost predicate Ranked(adj: seq<seq<nat>>, rank: seq<nat>) {
    && |rank| == |adj|
    && forall i, c :: 0 <= i < |adj| && c in adj[i] ==> c < |adj| && rank[c] < rank[i]
  }

  /** `b` has every edge of `a` (and maybe more nodes and more edges). */
  ghost predicate Grows(a: seq<seq<nat>>, b: seq<seq<nat>>) {
    && |a| <= |b|
    && forall i, c :: 0 <= i < |a| && c in a[i] ==> c in b[i]
  }

  /** No edge leaves `s`. */
  ghost predicate ClosedUnder(adj: seq<seq<nat>>, s: set<nat>) {
    forall i, c :: i in s && i < |adj| && c in adj[i] ==> c in s
  }

  /** A subset is no larger: the measure behind the walks that mark nodes. */
  lemma SubsetSize(a: set<nat>, b: set<nat>)
    requires a <= b
    ensures |a| <= |b|
  {
    assert b == a + (b - a);
  }

  lemma RankedStep(adj: seq<seq<nat>>, rank: seq<nat>, i: nat, c: nat)
    requires Ranked(adj, rank) && i < |adj| && c in adj[i]
    ensures c < |adj| && rank[c] < rank[i]
  {
  }

  lemma ReachSelf(adj: seq<seq<nat>>, a: nat)
    requires a < |adj|
    ensures Reachable(adj, a, a)
  {
    assert IsPath(adj, [a]);
  }

  lemma ReachPrepend(adj: seq<seq<nat>>, a: nat, c: nat, b: nat)
    requires a < |adj| && c in adj[a] && Reachable(adj, c, b)
    ensures Reachable(adj, a, b)
  {
    var p :| IsPath(adj, p) && p[0] == c && p[|p| - 1] == b;
    var q := [a] + p;
    assert forall k :: 0 < k < |q| ==> q[k] == p[k - 1];
    assert IsPath(adj, q);
  }

  /** A walk that leaves `a` takes a first step to a child of `a`. */
  lemma ReachFirstStep(adj: seq<seq<nat>>, a: nat, b: nat)
    requires a < |adj| && a != b && Reachable(adj, a, b)
    ensures exists c :: c in adj[a] && Reachable(adj, c, b)
  {
    var p :| IsPath(adj, p) && p[0] == a && p[|p| - 1] == b;
    assert |p| > 1;
    var q := p[1..];
    assert forall k :: 0 <= k < |q| ==> q[k] == p[k + 1];
    assert IsPath(adj, q) && q[0] == p[1] && q[|q| - 1] == b;
    assert p[1] in adj[a] && Reachable(adj, p[1], b);
  }

  /** A walk that starts inside a set no edge leaves stays inside it. */
  lemma {:induction false} ReachWithin(adj: seq<seq<nat>>, s: set<nat>, a: nat, b: nat)
    requires ClosedUnder(adj, s) && a in s && Reachable(adj, a, b)
    ensures b in s
  {
    var p :| IsPath(adj, p) && p[0] == a && p[|p| - 1] == b;
    var k := 0;
    while k < |p| - 1
      invariant 0 <= k <= |p| - 1
      invariant p[k] in s
    {
      assert p[k + 1] in adj[p[k]];
      k := k + 1;
    }
  }

  /** In a forward graph nothing reaches a smaller index. */
  lemma {:induction false} ReachForward(adj: seq<seq<nat>>, a: nat, b: nat)
    requires Forward(adj) && Reachable(adj, a, b)
    ensures a <= b
  {
    var p :| IsPath(adj, p) && p[0] == a && p[|p| - 1] == b;
    var k := 0;
    while k < |p| - 1
      invariant 0 <= k <= |p| - 1
      invariant a <= p[k]
    {
      assert p[k + 1] in adj[p[k]];
      k := k + 1;
    }
  }

  /** Adding nodes and edges keeps every walk. */
  lemma ReachGrows(a: seq<seq<nat>>, b: seq<seq<nat>>, u: nat, v: nat)
    requires Grows(a, b) && Reachable(a, u, v)
    ensures Reachable(b, u, v)
  {
    var p :| IsPath(a, p) && p[0] == u && p[|p| - 1] == v;
    assert forall k :: 0 <= k < |p| - 1 ==> p[k + 1] in a[p[k]];
    assert IsPath(b, p);
  }

  /** Two tables whose lists have the same members allow the same walks. */
  lemma ReachSameMembers(a: seq<seq<nat>>, b: seq<seq<nat>>, u: nat, v: nat)
    requires Grows(a, b) && Grows(b, a)
    ensures Reachable(a, u, v) <==> Reachable(b, u, v)
  {
    if Reachable(a, u, v) {
      ReachGrows(a, b, u, v);
    }
    if Reachable(b, u, v) {
      ReachGrows(b, a, u, v);
    }
  }
}
