/** `markKnown`: a depth-first walk from a node of a subgraph that sets `isKnown` on
    every node it reaches whose name is in the known list. */
module KnownMarker {
  import opened Nodes
  import opened Paths

  /** `knownList.find(x => x === name)` is truthy: the name is listed and is not the
      empty string, which `find` would return but `if` treats as false. */
  predicate KnownMatch(list: seq<string>, name: string): (r: bool)
    ensures r ==> name in list
    ensures name == "" ==> !r
  {
    name in list && name != ""
  }

  /** `b` is `a` with `isKnown` set on the matching nodes of `touched`, and no other change. */
  ghost predicate KnownAfter(a: seq<NodeRec>, b: seq<NodeRec>, list: seq<string>, touched: set<nat>) {
    && |a| == |b|
    && forall x :: 0 <= x < |a| ==>
         b[x] == a[x].(isKnown := a[x].isKnown || (x in touched && KnownMatch(list, a[x].name)))
  }

  lemma KnownAfterKeeps(a: seq<NodeRec>, b: seq<NodeRec>, list: seq<string>, touched: set<nat>)
    requires KnownAfter(a, b, list, touched)
    ensures Edges(a) == Edges(b) && Names(a) == Names(b) && Priorities(a) == Priorities(b)
    ensures WellFormed(a) ==> WellFormed(b)
  {
    assert forall x :: 0 <= x < |a| ==> b[x].children == a[x].children && b[x].parents == a[x].parents;
  }

  lemma KnownAfterTrans(a: seq<NodeRec>, b: seq<NodeRec>, c: seq<NodeRec>, list: seq<string>,
                        f1: set<nat>, f2: set<nat>)
    requires KnownAfter(a, b, list, f1) && KnownAfter(b, c, list, f2)
    ensures KnownAfter(a, c, list, f1 + f2)
  {
  }

  /** The nodes not yet visited. */
  function Unvisited(nodes: seq<NodeRec>, visited: set<nat>): set<nat> {
    set x: nat | x < |nodes| && x !in visited
  }

  /** Every child of node `i` has been visited. */
  ghost predicate KidsVisited(nodes: seq<NodeRec>, i: nat, visited: set<nat>) {
    i < |nodes| && forall c :: c in nodes[i].children ==> c in visited
  }

  /** Every visited node outside `pending` has all its children visited. */
  ghost predicate VisitedClosed(nodes: seq<NodeRec>, visited: set<nat>, pending: set<nat>) {
    forall i :: i in visited && i !in pending ==> KidsVisited(nodes, i, visited)
  }

  ghost predicate InArena(nodes: seq<NodeRec>, visited: set<nat>) {
    forall x :: x in visited ==> x < |nodes|
  }

  lemma FewerUnvisited(nodes: seq<NodeRec>, visited: set<nat>, v: set<nat>, n: nat)
    requires n < |nodes| && n !in visited && visited + {n} <= v
    ensures |Unvisited(nodes, v)| < |Unvisited(nodes, visited)|
  {
    assert Unvisited(nodes, v) <= Unvisited(nodes, visited) - {n};
    SubsetSize(Unvisited(nodes, v), Unvisited(nodes, visited) - {n});
  }

  /** Visiting `n` itself: it joins the visited set, pending until its children are
      done, and is marked when its name matches. */
  lemma VisitOne(start: seq<NodeRec>, marked: seq<NodeRec>, n: nat, list: seq<string>,
                 visited: set<nat>, pending: set<nat>)
    requires n < |start| && n !in visited
    requires VisitedClosed(start, visited, pending)
    requires marked == (if KnownMatch(list, start[n].name) then start[n := start[n].(isKnown := true)] else start)
    ensures KnownAfter(start, marked, list, {n})
    ensures VisitedClosed(marked, visited + {n}, pending + {n})
  {
    forall i | i in visited + {n} && i !in pending + {n}
      ensures KidsVisited(marked, i, visited + {n})
    {
      assert KidsVisited(start, i, visited);
    }
  }

  /** One more child of `n` handled: visited before, or visited by the call just made. */
  lemma ChildVisited(start: seq<NodeRec>, before: seq<NodeRec>, after: seq<NodeRec>, list: seq<string>,
                     n: nat, visited: set<nat>, v: set<nat>, v': set<nat>)
    requires n < |start| && n !in visited && visited + {n} <= v <= v'
    requires KnownAfter(start, before, list, v - visited)
    requires KnownAfter(before, after, list, v' - v)
    requires forall x :: x in v - visited ==> Reachable(Edges(start), n, x)
    requires forall x :: x in v' - v ==> exists c :: c in start[n].children && Reachable(Edges(before), c, x)
    ensures KnownAfter(start, after, list, v' - visited)
    ensures forall x :: x in v' - visited ==> Reachable(Edges(start), n, x)
  {
    KnownAfterTrans(start, before, after, list, v - visited, v' - v);
    assert (v - visited) + (v' - v) == v' - visited;
    KnownAfterKeeps(start, before, list, v - visited);
    forall x | x in v' - v
      ensures Reachable(Edges(start), n, x)
    {
      var c :| c in start[n].children && Reachable(Edges(before), c, x);
      assert c in Edges(start)[n];
      ReachPrepend(Edges(start), n, c, x);
    }
  }

  /** Child `k` is visited now, and the earlier ones still are. */
  lemma KidsSeen(kids: seq<nat>, k: nat, v: set<nat>, v': set<nat>)
    requires k < |kids| && v <= v' && kids[k] in v'
    requires forall m :: 0 <= m < k ==> kids[m] in v
    ensures forall m :: 0 <= m <= k ==> kids[m] in v'
  {
  }

  /** The inner `paint(node)` of `markKnown`: records `node` as visited, marks it if
      its name is known, then visits each unvisited child in order. Nothing is
      visited twice, so the walk ends on cyclic graphs too. */
  method PaintKnown(a: Arena, n: nat, list: seq<string>, visited: set<nat>, ghost pending: set<nat>)
    returns (visited': set<nat>)
    requires a.Valid() && n < |a.nodes| && n !in visited
    requires InArena(a.nodes, visited) && VisitedClosed(a.nodes, visited, pending)
    modifies a
    ensures a.Valid() && visited + {n} <= visited' && InArena(a.nodes, visited')
    ensures VisitedClosed(a.nodes, visited', pending)
    ensures KnownAfter(old(a.nodes), a.nodes, list, visited' - visited)
    ensures forall x :: x in visited' - visited ==> Reachable(Edges(old(a.nodes)), n, x)
    decreases |Unvisited(a.nodes, visited)|
  {
    ghost var start := a.nodes;
    visited' := visited + {n};
    if KnownMatch(list, a.nodes[n].name) {
      a.SetKnown(n);
    }
    VisitOne(start, a.nodes, n, list, visited, pending);
    KnownAfterKeeps(start, a.nodes, list, {n});
    assert visited' - visited == {n};
    ReachSelf(Edges(start), n);
    var kids := a.nodes[n].children;
    var k := 0;
    while k < |kids|
      invariant 0 <= k <= |kids| && kids == start[n].children
      invariant visited + {n} <= visited' && InArena(a.nodes, visited') && a.Valid()
      invariant VisitedClosed(a.nodes, visited', pending + {n})
      invariant forall m :: 0 <= m < k ==> kids[m] in visited'
      invariant KnownAfter(start, a.nodes, list, visited' - visited)
      invariant forall x :: x in visited' - visited ==> Reachable(Edges(start), n, x)
    {
      assert kids[k] in start[n].children;
      ghost var seen := visited';
      if kids[k] !in visited' {
        ghost var before := a.nodes;
        ghost var v := visited';
        KnownAfterKeeps(start, before, list, visited' - visited);
        FewerUnvisited(a.nodes, visited, visited', n);
        visited' := PaintKnown(a, kids[k], list, visited', pending + {n});
        ChildVisited(start, before, a.nodes, list, n, visited, v, visited');
      }
      KidsSeen(kids, k, seen, visited');
      k := k + 1;
    }
    KnownAfterKeeps(start, a.nodes, list, visited' - visited);
  }

  /** The effect `markKnown(root, list)` promises: every node reachable from `root`
      whose name is known gets `isKnown`; nothing else changes. */
  ghost function MarkedKnown(nodes: seq<NodeRec>, root: nat, list: seq<string>): (r: seq<NodeRec>)
    ensures |r| == |nodes|
  {
    seq(|nodes|, x requires 0 <= x < |nodes| =>
      nodes[x].(isKnown := nodes[x].isKnown || (Reachable(Edges(nodes), root, x) && KnownMatch(list, nodes[x].name))))
  }

  /** `markKnown(rootNode, knownList)`: the walk from `rootNode` with an empty visited set. */
  method MarkKnown(a: Arena, root: nat, list: seq<string>)
    requires a.Valid() && root < |a.nodes|
    modifies a
    ensures a.nodes == MarkedKnown(old(a.nodes), root, list)
  {
    ghost var start := a.nodes;
    var visited := PaintKnown(a, root, list, {}, {});
    assert visited - {} == visited;
    KnownAfterKeeps(start, a.nodes, list, visited);
    forall x | 0 <= x < |start|
      ensures x in visited <==> Reachable(Edges(start), root, x)
    {
      if Reachable(Edges(start), root, x) {
        VisitedReach(start, a.nodes, visited, root, x);
      }
    }
  }

  /** A closed visited set holding `root` holds every node reachable from it. */
  lemma VisitedReach(start: seq<NodeRec>, nodes: seq<NodeRec>, visited: set<nat>, root: nat, x: nat)
    requires Edges(start) == Edges(nodes) && VisitedClosed(nodes, visited, {}) && root in visited
    requires Reachable(Edges(start), root, x)
    ensures x in visited
  {
    forall i, c | i in visited && i < |Edges(nodes)| && c in Edges(nodes)[i]
      ensures c in visited
    {
      assert KidsVisited(nodes, i, visited);
    }
    ReachWithin(Edges(nodes), visited, root, x);
  }

  /** Marking twice from the same node changes nothing more. */
  lemma MarkedKnownIdempotent(nodes: seq<NodeRec>, root: nat, list: seq<string>)
    ensures MarkedKnown(MarkedKnown(nodes, root, list), root, list) == MarkedKnown(nodes, root, list)
  {
    var once := MarkedKnown(nodes, root, list);
    assert Edges(once) == Edges(nodes);
  }

  /** Marking never clears a flag and touches only `isKnown`. */
  lemma MarkedKnownRaises(nodes: seq<NodeRec>, root: nat, list: seq<string>, x: nat)
    requires x < |nodes|
    ensures nodes[x].isKnown ==> MarkedKnown(nodes, root, list)[x].isKnown
    ensures MarkedKnown(nodes, root, list)[x].(isKnown := nodes[x].isKnown) == nodes[x]
  {
  }
}
