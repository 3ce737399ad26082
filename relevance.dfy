/** The first half of `getTargetSubgraph`: every target kanji and everything below it
    along `children` gets `isRelevant` set in the registry graph. */
module Relevance {
  import opened Nodes
  import opened Paths

  /** The nodes whose `isRelevant` flag is set. */
  function RelevantSet(nodes: seq<NodeRec>): set<nat> {
    set x: nat | x < |nodes| && nodes[x].isRelevant
  }

  /** The nodes whose `isRelevant` flag is clear. */
  function Unmarked(nodes: seq<NodeRec>): set<nat> {
    set x: nat | x < |nodes| && !nodes[x].isRelevant
  }

  /** Node `x` exists and is relevant. */
  predicate IsRelevant(nodes: seq<NodeRec>, x: nat) {
    x < |nodes| && nodes[x].isRelevant
  }

  /** All children of node `n` are relevant. */
  ghost predicate Done(nodes: seq<NodeRec>, n: nat)
    requires n < |nodes|
  {
    forall c :: c in nodes[n].children ==> IsRelevant(nodes, c)
  }

  /** Every relevant node outside `pending` has only relevant children. */
  ghost predicate ClosedExcept(nodes: seq<NodeRec>, pending: set<nat>) {
    forall i :: 0 <= i < |nodes| && nodes[i].isRelevant && i !in pending ==> Done(nodes, i)
  }

  /** `b` is `a` with some `isRelevant` flags raised from false to true, and no other change. */
  ghost predicate RaisesRelevance(a: seq<NodeRec>, b: seq<NodeRec>) {
    && |a| == |b|
    && forall x :: 0 <= x < |a| ==>
         b[x] == a[x].(isRelevant := b[x].isRelevant) && (a[x].isRelevant ==> b[x].isRelevant)
  }

  lemma RaisesKeeps(a: seq<NodeRec>, b: seq<NodeRec>)
    requires RaisesRelevance(a, b)
    ensures Edges(a) == Edges(b) && Names(a) == Names(b) && Priorities(a) == Priorities(b)
    ensures WellFormed(a) ==> WellFormed(b)
    ensures Unmarked(b) <= Unmarked(a)
  {
    assert forall x :: 0 <= x < |a| ==> b[x].children == a[x].children && b[x].parents == a[x].parents;
  }

  lemma RaisesTrans(a: seq<NodeRec>, b: seq<NodeRec>, c: seq<NodeRec>)
    requires RaisesRelevance(a, b) && RaisesRelevance(b, c)
    ensures RaisesRelevance(a, c)
  {
  }

  /** Marking node `n` leaves it pending: its children are still to be painted. */
  lemma MarkOne(start: seq<NodeRec>, n: nat, pending: set<nat>)
    requires ClosedExcept(start, pending) && n < |start| && !start[n].isRelevant
    ensures RaisesRelevance(start, start[n := start[n].(isRelevant := true)])
    ensures ClosedExcept(start[n := start[n].(isRelevant := true)], pending + {n})
    ensures Unmarked(start[n := start[n].(isRelevant := true)]) == Unmarked(start) - {n}
    ensures n in Unmarked(start)
  {
    var marked := start[n := start[n].(isRelevant := true)];
    forall i | 0 <= i < |marked| && marked[i].isRelevant && i !in pending + {n}
      ensures Done(marked, i)
    {
      assert Done(start, i);
    }
  }

  /** While the children of `n` are painted, fewer nodes are unmarked than when the
      call began. */
  lemma FewerUnmarked(start: seq<NodeRec>, marked: seq<NodeRec>, cur: seq<NodeRec>, n: nat)
    requires RaisesRelevance(marked, cur)
    requires Unmarked(marked) == Unmarked(start) - {n} && n in Unmarked(start)
    ensures |Unmarked(cur)| < |Unmarked(start)|
  {
    RaisesKeeps(marked, cur);
    SubsetSize(Unmarked(cur), Unmarked(marked));
  }

  /** One more child of `n` painted. */
  lemma ChildPainted(start: seq<NodeRec>, marked: seq<NodeRec>, before: seq<NodeRec>, after: seq<NodeRec>,
                     n: nat, k: nat)
    requires RaisesRelevance(start, marked) && RaisesRelevance(marked, before) && RaisesRelevance(before, after)
    requires WellFormed(start) && n < |start| && k < |start[n].children|
    requires forall m :: 0 <= m < k ==> IsRelevant(before, start[n].children[m])
    requires IsRelevant(after, start[n].children[k])
    requires forall x :: 0 <= x < |before| && before[x].isRelevant && !start[x].isRelevant ==>
               Reachable(Edges(start), n, x)
    requires forall x :: 0 <= x < |after| && after[x].isRelevant && !before[x].isRelevant ==>
               Reachable(Edges(before), start[n].children[k], x)
    ensures RaisesRelevance(marked, after)
    ensures forall m :: 0 <= m < k + 1 ==> IsRelevant(after, start[n].children[m])
    ensures forall x :: 0 <= x < |after| && after[x].isRelevant && !start[x].isRelevant ==>
              Reachable(Edges(start), n, x)
  {
    var kids := start[n].children;
    RaisesTrans(marked, before, after);
    RaisesTrans(start, marked, before);
    RaisesKeeps(start, before);
    assert kids[k] in Edges(start)[n];
    forall m | 0 <= m < k + 1
      ensures IsRelevant(after, kids[m])
    {
      if m < k {
        assert IsRelevant(before, kids[m]);
      }
    }
    forall x | 0 <= x < |after| && after[x].isRelevant && !start[x].isRelevant
      ensures Reachable(Edges(start), n, x)
    {
      if !before[x].isRelevant {
        ReachPrepend(Edges(start), n, kids[k], x);
      }
    }
  }

  /** Node `n` leaves the pending set once all its children are relevant. */
  lemma Settled(nodes: seq<NodeRec>, n: nat, pending: set<nat>)
    requires ClosedExcept(nodes, pending + {n}) && n < |nodes| && Done(nodes, n)
    ensures ClosedExcept(nodes, pending)
  {
  }

  /** `paint(node)`: stops at a missing or already relevant node; otherwise marks it
      and paints its children in order. The recursion ends because every call that
      goes on marks one more node, so it ends on cyclic graphs too. */
  method Paint(g: Arena, node: Option<nat>, ghost pending: set<nat>)
    requires g.Valid() && ClosedExcept(g.nodes, pending)
    requires node.Some? ==> node.value < |g.nodes|
    modifies g
    ensures RaisesRelevance(old(g.nodes), g.nodes)
    ensures ClosedExcept(g.nodes, pending)
    ensures node.Some? ==> g.nodes[node.value].isRelevant
    ensures node.None? || old(g.nodes)[node.value].isRelevant ==> g.nodes == old(g.nodes)
    ensures forall x :: 0 <= x < |g.nodes| && g.nodes[x].isRelevant && !old(g.nodes)[x].isRelevant ==>
              node.Some? && Reachable(Edges(old(g.nodes)), node.value, x)
    decreases |Unmarked(g.nodes)|
  {
    if node.None? || g.nodes[node.value].isRelevant {
      return;
    }
    var n := node.value;
    ghost var start := g.nodes;
    MarkOne(start, n, pending);
    g.SetRelevant(n);
    ghost var marked := g.nodes;
    RaisesKeeps(start, marked);
    ReachSelf(Edges(start), n);
    var kids := g.nodes[n].children;
    var k := 0;
    while k < |kids|
      invariant 0 <= k <= |kids|
      invariant RaisesRelevance(marked, g.nodes) && g.Valid()
      invariant ClosedExcept(g.nodes, pending + {n})
      invariant forall m :: 0 <= m < k ==> IsRelevant(g.nodes, kids[m])
      invariant forall x :: 0 <= x < |g.nodes| && g.nodes[x].isRelevant && !start[x].isRelevant ==>
                  Reachable(Edges(start), n, x)
    {
      FewerUnmarked(start, marked, g.nodes, n);
      ghost var before := g.nodes;
      RaisesKeeps(marked, before);
      assert kids[k] in start[n].children;
      Paint(g, Some(kids[k]), pending + {n});
      ChildPainted(start, marked, before, g.nodes, n, k);
      k := k + 1;
    }
    RaisesTrans(start, marked, g.nodes);
    Settled(g.nodes, n, pending);
  }

  /** The node the `find` for one target kanji returns. */
  function Target(nodes: seq<NodeRec>, targets: seq<string>, m: nat): (r: Option<nat>)
    requires m < |targets|
    ensures r.Some? ==> r.value < |nodes| && nodes[r.value].name == targets[m]
    ensures r.None? <==> targets[m] !in Names(nodes)
  {
    FirstNamed(nodes, targets[m])
  }

  /** `x` lies below one of the first `t` target kanji that have a node. */
  ghost predicate BelowTargets(nodes: seq<NodeRec>, targets: seq<string>, t: nat, x: nat)
    requires t <= |targets|
  {
    exists m :: 0 <= m < t && Target(nodes, targets, m).Some? &&
      Reachable(Edges(nodes), Target(nodes, targets, m).value, x)
  }

  /** Painting target `t` keeps the earlier targets relevant and adds target `t`. */
  lemma TargetsStay(start: seq<NodeRec>, before: seq<NodeRec>, after: seq<NodeRec>, targets: seq<string>, t: nat)
    requires t < |targets| && |start| == |before| && RaisesRelevance(before, after)
    requires forall m :: 0 <= m < t && Target(start, targets, m).Some? ==>
               before[Target(start, targets, m).value].isRelevant
    requires Target(start, targets, t).Some? ==> after[Target(start, targets, t).value].isRelevant
    ensures forall m :: 0 <= m < t + 1 && Target(start, targets, m).Some? ==>
              after[Target(start, targets, m).value].isRelevant
  {
  }

  /** A node painted from target `t` lies below one of the first `t + 1` targets. */
  lemma BelowStay(start: seq<NodeRec>, before: seq<NodeRec>, after: seq<NodeRec>, targets: seq<string>, t: nat)
    requires t < |targets| && |start| == |before| && RaisesRelevance(before, after)
    requires Edges(before) == Edges(start)
    requires forall x :: 0 <= x < |before| && before[x].isRelevant && !start[x].isRelevant ==>
               BelowTargets(start, targets, t, x)
    requires forall x :: 0 <= x < |after| && after[x].isRelevant && !before[x].isRelevant ==>
               Target(start, targets, t).Some? && Reachable(Edges(before), Target(start, targets, t).value, x)
    ensures forall x :: 0 <= x < |after| && after[x].isRelevant && !start[x].isRelevant ==>
              BelowTargets(start, targets, t + 1, x)
  {
    forall x | 0 <= x < |after| && after[x].isRelevant && !start[x].isRelevant
      ensures BelowTargets(start, targets, t + 1, x)
    {
      if !before[x].isRelevant {
        assert Target(start, targets, t).Some? && Reachable(Edges(start), Target(start, targets, t).value, x);
      } else {
        var m :| 0 <= m < t && Target(start, targets, m).Some? &&
          Reachable(Edges(start), Target(start, targets, m).value, x);
      }
    }
  }

  /** `for (const kanji of targetKanji) paint(nodeList.find(...))`: the relevant
      nodes that were not relevant before all lie below a target; a target
      without a node is skipped. */
  method PaintTargets(g: Arena, targets: seq<string>)
    requires g.Valid()
    modifies g
    ensures RaisesRelevance(old(g.nodes), g.nodes)
    ensures ClosedExcept(g.nodes, RelevantSet(old(g.nodes)))
    ensures forall m :: 0 <= m < |targets| && Target(old(g.nodes), targets, m).Some? ==>
              g.nodes[Target(old(g.nodes), targets, m).value].isRelevant
    ensures forall x :: 0 <= x < |g.nodes| && g.nodes[x].isRelevant && !old(g.nodes)[x].isRelevant ==>
              BelowTargets(old(g.nodes), targets, |targets|, x)
  {
    ghost var start := g.nodes;
    ghost var initial := RelevantSet(g.nodes);
    var t := 0;
    while t < |targets|
      invariant 0 <= t <= |targets|
      invariant RaisesRelevance(start, g.nodes) && g.Valid()
      invariant ClosedExcept(g.nodes, initial)
      invariant forall m :: 0 <= m < t && Target(start, targets, m).Some? ==>
                  g.nodes[Target(start, targets, m).value].isRelevant
      invariant forall x :: 0 <= x < |g.nodes| && g.nodes[x].isRelevant && !start[x].isRelevant ==>
                  BelowTargets(start, targets, t, x)
    {
      RaisesKeeps(start, g.nodes);
      ghost var before := g.nodes;
      var startNode := g.Find(targets[t]);
      assert startNode == Target(start, targets, t) by {
        FirstNamedNames(start, g.nodes, targets[t]);
      }
      Paint(g, startNode, initial);
      RaisesTrans(start, before, g.nodes);
      TargetsStay(start, before, g.nodes, targets, t);
      BelowStay(start, before, g.nodes, targets, t);
      t := t + 1;
    }
  }

  /** Two arenas with the same names find the same nodes. */
  lemma {:induction false} FirstNamedNames(a: seq<NodeRec>, b: seq<NodeRec>, name: string)
    requires Names(a) == Names(b)
    ensures FirstNamed(a, name) == FirstNamed(b, name)
  {
    if |a| > 0 {
      assert Names(a)[0] == a[0].name && Names(b)[0] == b[0].name;
      assert Names(a[1..]) == Names(a)[1..] && Names(b[1..]) == Names(b)[1..];
      FirstNamedNames(a[1..], b[1..], name);
    }
  }

  /** With no flag set to begin with, painting leaves the relevant nodes closed
      under `children`. */
  lemma ClosedRelevant(nodes: seq<NodeRec>)
    requires ClosedExcept(nodes, {})
    ensures ClosedUnder(Edges(nodes), RelevantSet(nodes))
  {
    forall i, c | i in RelevantSet(nodes) && i < |Edges(nodes)| && c in Edges(nodes)[i]
      ensures c in RelevantSet(nodes)
    {
      assert Edges(nodes)[i] == nodes[i].children;
      assert Done(nodes, i);
    }
  }

  /** Starting from fresh flags, a node ends up relevant exactly when it lies below
      a target kanji that has a node. */
  lemma PaintedExactly(a: seq<NodeRec>, b: seq<NodeRec>, targets: seq<string>)
    requires RelevantSet(a) == {}
    requires RaisesRelevance(a, b) && ClosedExcept(b, RelevantSet(a))
    requires forall m :: 0 <= m < |targets| && Target(a, targets, m).Some? ==>
               b[Target(a, targets, m).value].isRelevant
    requires forall x :: 0 <= x < |b| && b[x].isRelevant && !a[x].isRelevant ==>
               BelowTargets(a, targets, |targets|, x)
    ensures forall x :: 0 <= x < |b| ==> (b[x].isRelevant <==> BelowTargets(a, targets, |targets|, x))
  {
    RaisesKeeps(a, b);
    ClosedRelevant(b);
    forall x | 0 <= x < |b| && BelowTargets(a, targets, |targets|, x)
      ensures b[x].isRelevant
    {
      var m :| 0 <= m < |targets| && Target(a, targets, m).Some? &&
        Reachable(Edges(a), Target(a, targets, m).value, x);
      ReachWithin(Edges(b), RelevantSet(b), Target(a, targets, m).value, x);
    }
    forall x | 0 <= x < |b| && b[x].isRelevant
      ensures BelowTargets(a, targets, |targets|, x)
    {
      assert x !in RelevantSet(a);
    }
  }
}
