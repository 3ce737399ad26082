/** `prioWalker`: sorts the `children` and `parents` of every node below a subgraph
    node by priority, parents before children. */
module PrioWalk {
  import opened Nodes
  import opened Paths
  import opened PrioritySort

  /** Node `x` with both its lists sorted by the priorities of `nodes`. */
  function SortNode(nodes: seq<NodeRec>, x: nat): (r: NodeRec)
    requires x < |nodes|
    ensures r == nodes[x].(children := r.children, parents := r.parents)
    ensures Sorted(Priorities(nodes), r.children) && multiset(r.children) == multiset(nodes[x].children)
    ensures Sorted(Priorities(nodes), r.parents) && multiset(r.parents) == multiset(nodes[x].parents)
  {
    nodes[x].(children := SortByPriority(Priorities(nodes), nodes[x].children),
              parents := SortByPriority(Priorities(nodes), nodes[x].parents))
  }

  /** The nodes reachable from `c`. */
  ghost function Below(adj: seq<seq<nat>>, c: nat): set<nat> {
    set x: nat | x < |adj| && Reachable(adj, c, x)
  }

  /** `cur` is `start` with the nodes of `s` sorted. */
  ghost predicate SortedOn(start: seq<NodeRec>, cur: seq<NodeRec>, s: set<nat>) {
    && |cur| == |start|
    && forall x :: 0 <= x < |start| ==> cur[x] == if x in s then SortNode(start, x) else start[x]
  }

  /** What the walk from `n` promises: every node reachable from `n` has its lists
      sorted, and every other node is as it was. */
  ghost function Prioritized(nodes: seq<NodeRec>, n: nat): (r: seq<NodeRec>)
    ensures |r| == |nodes|
  {
    seq(|nodes|, x requires 0 <= x < |nodes| =>
      if Reachable(Edges(nodes), n, x) then SortNode(nodes, x) else nodes[x])
  }

  /** Sorting keeps the members, so names, priorities and walks stay. */
  lemma SortedOnKeeps(start: seq<NodeRec>, cur: seq<NodeRec>, s: set<nat>)
    requires SortedOn(start, cur, s)
    ensures Priorities(cur) == Priorities(start) && Names(cur) == Names(start)
    ensures Grows(Edges(start), Edges(cur)) && Grows(Edges(cur), Edges(start))
    ensures forall x :: 0 <= x < |start| ==> SortNode(cur, x) == SortNode(start, x)
  {
    var p := Priorities(start);
    forall x | 0 <= x < |start|
      ensures multiset(cur[x].children) == multiset(start[x].children)
      ensures multiset(cur[x].parents) == multiset(start[x].parents)
      ensures cur[x].priority == start[x].priority
    {
    }
    assert Priorities(cur) == p;
    forall x | 0 <= x < |start|
      ensures SortNode(cur, x) == SortNode(start, x)
    {
      if x in s {
        SortIdempotent(p, start[x].children);
        SortIdempotent(p, start[x].parents);
      }
    }
    forall i, c | 0 <= i < |start| && c in Edges(start)[i]
      ensures c in Edges(cur)[i]
    {
      SortMembers(p, start[i].children);
    }
    forall i, c | 0 <= i < |cur| && c in Edges(cur)[i]
      ensures c in Edges(start)[i]
    {
      SortMembers(p, start[i].children);
    }
  }

  lemma ForwardKept(a: seq<seq<nat>>, b: seq<seq<nat>>)
    requires Forward(a) && Grows(b, a) && |a| == |b|
    ensures Forward(b)
  {
  }

  /** The walk from one more child of `n` done. */
  lemma ChildWalked(start: seq<NodeRec>, before: seq<NodeRec>, after: seq<NodeRec>, covered: set<nat>, c: nat)
    requires SortedOn(start, before, covered)
    requires SortedOn(before, after, Below(Edges(before), c))
    ensures SortedOn(start, after, covered + Below(Edges(start), c))
  {
    SortedOnKeeps(start, before, covered);
    forall x | 0 <= x < |start|
      ensures Reachable(Edges(before), c, x) <==> Reachable(Edges(start), c, x)
    {
      ReachSameMembers(Edges(start), Edges(before), c, x);
    }
    assert Below(Edges(before), c) == Below(Edges(start), c);
  }

  /** Everything reachable from `n` is `n` or reachable from one of its children. */
  lemma BelowCovered(adj: seq<seq<nat>>, n: nat, kids: seq<nat>, covered: set<nat>)
    requires n < |adj| && n in covered
    requires forall c :: c in adj[n] ==> c in kids
    requires forall m :: 0 <= m < |kids| ==> Below(adj, kids[m]) <= covered
    ensures Below(adj, n) <= covered
  {
    forall x | x in Below(adj, n) && x != n
      ensures x in covered
    {
      ReachFirstStep(adj, n, x);
      var c :| c in adj[n] && Reachable(adj, c, x);
      var m :| 0 <= m < |kids| && kids[m] == c;
      assert x in Below(adj, kids[m]);
    }
  }

  /** Sorting the two lists of `n`, one after the other, is `SortNode`. */
  lemma SortFirst(start: seq<NodeRec>, n: nat, a1: seq<NodeRec>, a2: seq<NodeRec>)
    requires n < |start|
    requires a1 == start[n := start[n].(children := SortByPriority(Priorities(start), start[n].children))]
    requires a2 == a1[n := a1[n].(parents := SortByPriority(Priorities(a1), a1[n].parents))]
    ensures SortedOn(start, a2, {n})
    ensures forall c :: c in a2[n].children <==> c in start[n].children
  {
    assert Priorities(a1) == Priorities(start);
    SortMembers(Priorities(start), start[n].children);
  }

  /** A child of `n` lies further along, the graph is still forward, and everything
      below the child is below `n`. */
  lemma ChildReady(start: seq<NodeRec>, before: seq<NodeRec>, covered: set<nat>, n: nat, c: nat)
    requires Forward(Edges(start)) && n < |start| && c in start[n].children
    requires SortedOn(start, before, covered)
    ensures n < c < |before| && Forward(Edges(before))
    ensures Below(Edges(start), c) <= Below(Edges(start), n)
  {
    assert c in Edges(start)[n];
    SortedOnKeeps(start, before, covered);
    ForwardKept(Edges(start), Edges(before));
    forall x | x in Below(Edges(start), c)
      ensures x in Below(Edges(start), n)
    {
      ReachPrepend(Edges(start), n, c, x);
    }
  }

  /** Adding what lies below child `k` keeps the earlier children covered. */
  lemma KidsCovered(adj: seq<seq<nat>>, kids: seq<nat>, k: nat, covered: set<nat>)
    requires k < |kids|
    requires forall m :: 0 <= m < k ==> Below(adj, kids[m]) <= covered
    ensures forall m :: 0 <= m <= k ==> Below(adj, kids[m]) <= covered + Below(adj, kids[k])
  {
  }

  /** Sorting exactly the nodes below `n` is `Prioritized`. */
  lemma SortedBelow(start: seq<NodeRec>, cur: seq<NodeRec>, n: nat)
    requires SortedOn(start, cur, Below(Edges(start), n))
    ensures cur == Prioritized(start, n)
  {
  }

  /** `prioWalker(node)`: sorts both lists of `node`, then walks each child in the
      new order. The recursion ends because every child lies further along the
      arena. */
  method PrioWalker(a: Arena, n: nat)
    requires n < |a.nodes| && Forward(Edges(a.nodes))
    modifies a
    ensures a.nodes == Prioritized(old(a.nodes), n)
    decreases |a.nodes| - n
  {
    ghost var start := a.nodes;
    a.SetChildren(n, SortByPriority(Priorities(a.nodes), a.nodes[n].children));
    ghost var a1 := a.nodes;
    a.SetParents(n, SortByPriority(Priorities(a.nodes), a.nodes[n].parents));
    SortFirst(start, n, a1, a.nodes);
    ghost var covered: set<nat> := {n};
    ReachSelf(Edges(start), n);
    var kids := a.nodes[n].children;
    var k := 0;
    while k < |kids|
      invariant 0 <= k <= |kids|
      invariant SortedOn(start, a.nodes, covered)
      invariant n in covered && covered <= Below(Edges(start), n)
      invariant forall m :: 0 <= m < k ==> Below(Edges(start), kids[m]) <= covered
    {
      ghost var before := a.nodes;
      assert kids[k] in start[n].children;
      ChildReady(start, before, covered, n, kids[k]);
      PrioWalker(a, kids[k]);
      ChildWalked(start, before, a.nodes, covered, kids[k]);
      KidsCovered(Edges(start), kids, k, covered);
      covered := covered + Below(Edges(start), kids[k]);
      k := k + 1;
    }
    BelowCovered(Edges(start), n, kids, covered);
    SortedBelow(start, a.nodes, n);
  }

  /** Walking twice from the same node changes nothing more. */
  lemma PrioritizedIdempotent(nodes: seq<NodeRec>, n: nat)
    ensures Prioritized(Prioritized(nodes, n), n) == Prioritized(nodes, n)
  {
    var once := Prioritized(nodes, n);
    var s := Below(Edges(nodes), n);
    assert SortedOn(nodes, once, s);
    SortedOnKeeps(nodes, once, s);
    forall x | 0 <= x < |nodes|
      ensures Reachable(Edges(once), n, x) <==> Reachable(Edges(nodes), n, x)
    {
      ReachSameMembers(Edges(nodes), Edges(once), n, x);
    }
  }

  /** Every list the walk reaches comes out sorted by `(priority || 0)` and holds the
      same entries, as often as before. */
  lemma PrioritizedSorts(nodes: seq<NodeRec>, n: nat, x: nat)
    requires x < |nodes| && Reachable(Edges(nodes), n, x)
    ensures Sorted(Priorities(nodes), Prioritized(nodes, n)[x].children)
    ensures Sorted(Priorities(nodes), Prioritized(nodes, n)[x].parents)
    ensures multiset(Prioritized(nodes, n)[x].children) == multiset(nodes[x].children)
    ensures multiset(Prioritized(nodes, n)[x].parents) == multiset(nodes[x].parents)
  {
  }
}
