/** `buildDAG`: the registry graph of every kanji, built once from the topology. */
module Registry {
  import opened Nodes

  /** One topology entry: a key and the names of its connections, in file order. */
  datatype Entry = Entry(key: string, connections: seq<string>)

  /** The topology as `Object.keys` walks it: entries in key order. */
  type Topology = seq<Entry>

  function Keys(topology: Topology): seq<string> {
    seq(|topology|, k requires 0 <= k < |topology| => topology[k].key)
  }

  /** Object keys are distinct. */
  ghost predicate DistinctKeys(topology: Topology) {
    forall k, l :: 0 <= k < l < |topology| ==> topology[k].key != topology[l].key
  }

  /** `name` is the root's, a key or a connection. */
  ghost predicate Mentioned(topology: Topology, name: string) {
    || name == "0"
    || exists k :: 0 <= k < |topology| && (topology[k].key == name || name in topology[k].connections)
  }

  /** The nodes `ids` carry the names `names`, entry by entry. */
  ghost predicate NamedAs(nodes: seq<NodeRec>, ids: seq<nat>, names: seq<string>) {
    && |ids| == |names|
    && forall j :: 0 <= j < |ids| ==> ids[j] < |nodes| && nodes[ids[j]].name == names[j]
  }

  /** `b` occurs in `a.children` exactly as often as `a` occurs in `b.parents`. */
  ghost predicate Mirrored(nodes: seq<NodeRec>) {
    forall a, b :: 0 <= a < |nodes| && 0 <= b < |nodes| ==>
      multiset(nodes[a].children)[b] == multiset(nodes[b].parents)[a]
  }

  /** Facts kept by every step of the construction. */
  ghost predicate Sound(topology: Topology, nodes: seq<NodeRec>) {
    && |nodes| > 0 && nodes[0].name == "0"
    && WellFormed(nodes) && NamesDistinct(nodes) && Mirrored(nodes)
    && (forall x :: 0 <= x < |nodes| ==>
          !nodes[x].isRelevant && !nodes[x].isKnown && Mentioned(topology, nodes[x].name))
  }

  /** The keys of the first `i` entries and their connections have nodes. */
  ghost predicate Present(topology: Topology, i: nat, nodes: seq<NodeRec>)
    requires i <= |topology|
  {
    && (forall k :: 0 <= k < i ==> topology[k].key in Names(nodes))
    && (forall k, c :: 0 <= k < i && c in topology[k].connections ==> c in Names(nodes))
  }

  /** The node of each of the first `i` keys has the key's index as priority and
      one child per connection, in order. */
  ghost predicate KeyNodes(topology: Topology, i: nat, nodes: seq<NodeRec>)
    requires i <= |topology|
  {
    forall x, k :: 0 <= x < |nodes| && 0 <= k < i && nodes[x].name == topology[k].key ==>
      nodes[x].priority == Some(k) && NamedAs(nodes, nodes[x].children, topology[k].connections)
  }

  /** A node whose name is none of `keys` has no priority and no children. */
  ghost predicate OthersBare(keys: seq<string>, nodes: seq<NodeRec>) {
    forall x :: 0 <= x < |nodes| && nodes[x].name !in keys ==>
      nodes[x].priority == None && nodes[x].children == []
  }

  /** The first `i` entries are in the graph: their key nodes have priority and
      children as the entries say, and every other node has neither. */
  ghost predicate Built(topology: Topology, i: nat, nodes: seq<NodeRec>)
    requires i <= |topology|
  {
    && Sound(topology, nodes)
    && Present(topology, i, nodes)
    && KeyNodes(topology, i, nodes)
    && OthersBare(Keys(topology)[..i], nodes)
  }

  /** Entry `i` is half done: its node `cur` has its priority and the first `j`
      of its connections. */
  ghost predicate Building(topology: Topology, i: nat, j: nat, cur: nat, nodes: seq<NodeRec>)
    requires i < |topology| && j <= |topology[i].connections|
  {
    && Sound(topology, nodes)
    && Present(topology, i, nodes)
    && (forall c :: c in topology[i].connections[..j] ==> c in Names(nodes))
    && KeyNodes(topology, i, nodes)
    && cur < |nodes| && nodes[cur].name == topology[i].key && nodes[cur].priority == Some(i)
    && NamedAs(nodes, nodes[cur].children, topology[i].connections[..j])
    && OthersBare(Keys(topology)[..i + 1], nodes)
  }

  lemma CountAppend(s: seq<nat>, e: nat, y: nat)
    ensures multiset(s + [e])[y] == multiset(s)[y] + (if y == e then 1 else 0)
  {
    assert multiset(s + [e]) == multiset(s) + multiset{e};
  }

  /** A node appended with a fresh name has no edges, so mirroring is kept. */
  lemma MirroredAppend(nodes: seq<NodeRec>, name: string)
    requires WellFormed(nodes) && Mirrored(nodes)
    ensures Mirrored(nodes + [NewNode(name)])
  {
    var n := nodes + [NewNode(name)];
    forall a, b | 0 <= a < |n| && 0 <= b < |n|
      ensures multiset(n[a].children)[b] == multiset(n[b].parents)[a]
    {
      if a == |nodes| && b < |nodes| {
        assert a !in nodes[b].parents;
      } else if b == |nodes| && a < |nodes| {
        assert b !in nodes[a].children;
      } else if a < |nodes| && b < |nodes| {
        assert n[a] == nodes[a] && n[b] == nodes[b];
      }
    }
  }

  /** Adding an edge and its mirror together keeps the multiplicities equal. */
  lemma MirroredLink(nodes: seq<NodeRec>, a: nat, b: nat)
    requires Mirrored(nodes) && a < |nodes| && b < |nodes|
    ensures Mirrored(Link(nodes, a, b))
  {
    var n := Link(nodes, a, b);
    forall x, y | 0 <= x < |n| && 0 <= y < |n|
      ensures multiset(n[x].children)[y] == multiset(n[y].parents)[x]
    {
      var before := multiset(nodes[x].children)[y];
      assert before == multiset(nodes[y].parents)[x];
      if x == a {
        assert n[x].children == nodes[a].children + [b];
        CountAppend(nodes[a].children, b, y);
      } else {
        assert n[x].children == nodes[x].children;
      }
      if y == b {
        assert n[y].parents == nodes[b].parents + [a];
        CountAppend(nodes[b].parents, a, x);
      } else {
        assert n[y].parents == nodes[y].parents;
      }
    }
  }

  /** Mirroring makes `children` and `parents` inverse relations. */
  lemma MirroredInverse(nodes: seq<NodeRec>, a: nat, b: nat)
    requires Mirrored(nodes) && a < |nodes| && b < |nodes|
    ensures b in nodes[a].children <==> a in nodes[b].parents
  {
    assert multiset(nodes[a].children)[b] == multiset(nodes[b].parents)[a];
  }

  /** What `findOrCreateNode(name)` leaves: `nodes1` is `nodes0`, or `nodes0` with
      one new node named `name`, and `at` is the node named `name`. */
  ghost predicate FoundOrAdded(nodes0: seq<NodeRec>, name: string, at: nat, nodes1: seq<NodeRec>) {
    && at < |nodes1| && nodes1[at].name == name
    && (name in Names(nodes0) ==> nodes1 == nodes0)
    && (name !in Names(nodes0) ==> nodes1 == nodes0 + [NewNode(name)])
  }

  /** `n1` keeps the names of `n0`, and the priority and children of every node but
      `skip`; nodes it adds are bare and freshly named. */
  ghost predicate Extends(n0: seq<NodeRec>, n1: seq<NodeRec>, skip: nat) {
    && |n0| <= |n1|
    && (forall x :: 0 <= x < |n0| ==> n1[x].name == n0[x].name)
    && (forall x :: 0 <= x < |n0| && x != skip ==>
          n1[x].priority == n0[x].priority && n1[x].children == n0[x].children)
    && (forall x :: |n0| <= x < |n1| ==>
          n1[x].priority == None && n1[x].children == [] && n1[x].name !in Names(n0))
  }

  lemma ExtendsFound(n0: seq<NodeRec>, name: string, at: nat, n1: seq<NodeRec>)
    requires FoundOrAdded(n0, name, at, n1)
    ensures Extends(n0, n1, |n1|)
  {
  }

  lemma ExtendsNames(n0: seq<NodeRec>, n1: seq<NodeRec>, skip: nat)
    requires Extends(n0, n1, skip)
    ensures forall y :: y in Names(n0) ==> y in Names(n1)
  {
    forall y | y in Names(n0)
      ensures y in Names(n1)
    {
      var x :| 0 <= x < |n0| && Names(n0)[x] == y;
      assert Names(n1)[x] == y;
    }
  }

  lemma PresentKept(topology: Topology, i: nat, n0: seq<NodeRec>, n1: seq<NodeRec>, skip: nat)
    requires i <= |topology| && Present(topology, i, n0) && Extends(n0, n1, skip)
    ensures Present(topology, i, n1)
  {
    ExtendsNames(n0, n1, skip);
  }

  lemma KeyNodesKept(topology: Topology, i: nat, n0: seq<NodeRec>, n1: seq<NodeRec>, skip: nat)
    requires i <= |topology| && KeyNodes(topology, i, n0) && Present(topology, i, n0)
    requires Extends(n0, n1, skip)
    requires skip < |n0| ==> n0[skip].name !in Keys(topology)[..i]
    ensures KeyNodes(topology, i, n1)
  {
    forall x, k | 0 <= x < |n1| && 0 <= k < i && n1[x].name == topology[k].key
      ensures n1[x].priority == Some(k) && NamedAs(n1, n1[x].children, topology[k].connections)
    {
      assert topology[k].key in Names(n0);
      assert x < |n0|;
      assert Keys(topology)[..i][k] == topology[k].key;
      assert x != skip;
      assert NamedAs(n0, n0[x].children, topology[k].connections);
    }
  }

  lemma OthersKept(keys: seq<string>, n0: seq<NodeRec>, n1: seq<NodeRec>, skip: nat)
    requires OthersBare(keys, n0) && Extends(n0, n1, skip)
    requires skip < |n0| ==> n0[skip].name in keys
    ensures OthersBare(keys, n1)
  {
  }

  lemma OthersWiden(topology: Topology, i: nat, nodes: seq<NodeRec>)
    requires i < |topology| && OthersBare(Keys(topology)[..i], nodes)
    ensures OthersBare(Keys(topology)[..i + 1], nodes)
  {
    assert forall y :: y in Keys(topology)[..i] ==> y in Keys(topology)[..i + 1];
  }

  lemma SoundFound(topology: Topology, n0: seq<NodeRec>, name: string, at: nat, n1: seq<NodeRec>)
    requires Sound(topology, n0) && FoundOrAdded(n0, name, at, n1) && Mentioned(topology, name)
    requires NamesDistinct(n1) && WellFormed(n1)
    ensures Sound(topology, n1)
  {
    if name !in Names(n0) {
      MirroredAppend(n0, name);
    }
  }

  lemma SoundPriority(topology: Topology, n: seq<NodeRec>, cur: nat, p: Option<nat>)
    requires Sound(topology, n) && cur < |n|
    ensures Sound(topology, n[cur := n[cur].(priority := p)])
  {
    var n1 := n[cur := n[cur].(priority := p)];
    assert forall x :: 0 <= x < |n| ==> n1[x].children == n[x].children && n1[x].parents == n[x].parents;
  }

  lemma ExtendsLink(n: seq<NodeRec>, a: nat, b: nat)
    requires a < |n| && b < |n|
    ensures Extends(n, Link(n, a, b), a)
    ensures Link(n, a, b)[a].children == n[a].children + [b]
    ensures Link(n, a, b)[a].priority == n[a].priority
  {
    var n1 := Link(n, a, b);
    forall x | 0 <= x < |n|
      ensures n1[x].name == n[x].name && n1[x].priority == n[x].priority
      ensures x != a ==> n1[x].children == n[x].children
    {
    }
  }

  lemma SoundLink(topology: Topology, n: seq<NodeRec>, a: nat, b: nat)
    requires Sound(topology, n) && a < |n| && b < |n|
    ensures Sound(topology, Link(n, a, b))
  {
    var n1 := Link(n, a, b);
    MirroredLink(n, a, b);
    WellFormedLink(n, a, b);
    forall x | 0 <= x < |n1|
      ensures n1[x].name == n[x].name && n1[x].isRelevant == n[x].isRelevant && n1[x].isKnown == n[x].isKnown
    {
    }
    assert |n1| > 0 && n1[0].name == "0";
    assert NamesDistinct(n1);
    assert forall x :: 0 <= x < |n1| ==>
      !n1[x].isRelevant && !n1[x].isKnown && Mentioned(topology, n1[x].name);
  }

  /** Looking up or adding the key of entry `i` and giving it priority `i`. */
  lemma StartEntry(topology: Topology, i: nat, n0: seq<NodeRec>, cur: nat, n1: seq<NodeRec>)
    requires DistinctKeys(topology) && i < |topology|
    requires Built(topology, i, n0)
    requires FoundOrAdded(n0, topology[i].key, cur, n1)
    requires NamesDistinct(n1) && WellFormed(n1)
    ensures Building(topology, i, 0, cur, n1[cur := n1[cur].(priority := Some(i))])
  {
    var key := topology[i].key;
    var n2 := n1[cur := n1[cur].(priority := Some(i))];
    assert Mentioned(topology, key) by {
      assert topology[i].key == key;
    }
    SoundFound(topology, n0, key, cur, n1);
    SoundPriority(topology, n1, cur, Some(i));
    ExtendsFound(n0, key, cur, n1);
    assert Extends(n1, n2, cur);
    PresentKept(topology, i, n0, n1, |n1|);
    PresentKept(topology, i, n1, n2, cur);
    assert key !in Keys(topology)[..i];
    KeyNodesKept(topology, i, n0, n1, |n1|);
    KeyNodesKept(topology, i, n1, n2, cur);
    OthersKept(Keys(topology)[..i], n0, n1, |n1|);
    assert n1[cur].children == [];
    OthersWiden(topology, i, n1);
    assert Keys(topology)[..i + 1][i] == key;
    OthersKept(Keys(topology)[..i + 1], n1, n2, cur);
  }

  /** Looking up or adding connection `j` of entry `i` keeps the state. */
  lemma FindConnection(topology: Topology, i: nat, j: nat, cur: nat, n0: seq<NodeRec>, node: nat, n1: seq<NodeRec>)
    requires DistinctKeys(topology) && i < |topology| && j < |topology[i].connections|
    requires Building(topology, i, j, cur, n0)
    requires FoundOrAdded(n0, topology[i].connections[j], node, n1)
    requires NamesDistinct(n1) && WellFormed(n1)
    ensures Building(topology, i, j, cur, n1)
  {
    var conns := topology[i].connections;
    assert Mentioned(topology, conns[j]) by {
      assert conns[j] in topology[i].connections;
    }
    SoundFound(topology, n0, conns[j], node, n1);
    ExtendsFound(n0, conns[j], node, n1);
    PresentKept(topology, i, n0, n1, |n1|);
    ExtendsNames(n0, n1, |n1|);
    KeyNodesKept(topology, i, n0, n1, |n1|);
    OthersKept(Keys(topology)[..i + 1], n0, n1, |n1|);
    NamedAsKept(n0, n1, n0[cur].children, conns[..j]);
  }

  /** Adding the edge to connection `j` of entry `i` and its mirror. */
  lemma LinkConnection(topology: Topology, i: nat, j: nat, cur: nat, n1: seq<NodeRec>, node: nat)
    requires DistinctKeys(topology) && i < |topology| && j < |topology[i].connections|
    requires Building(topology, i, j, cur, n1)
    requires node < |n1| && n1[node].name == topology[i].connections[j]
    ensures Building(topology, i, j + 1, cur, Link(n1, cur, node))
  {
    var conns := topology[i].connections;
    var n2 := Link(n1, cur, node);
    SoundLink(topology, n1, cur, node);
    ExtendsLink(n1, cur, node);
    PresentKept(topology, i, n1, n2, cur);
    ExtendsNames(n1, n2, cur);
    TakeOneMore(conns, j);
    assert Names(n1)[node] == conns[j];
    assert Keys(topology)[..i + 1][i] == topology[i].key;
    KeyNodesKept(topology, i, n1, n2, cur);
    OthersKept(Keys(topology)[..i + 1], n1, n2, cur);
    NamedAsAppend(n1, n2, n1[cur].children, conns[..j], node, conns[j]);
  }

  lemma NamedAsKept(n0: seq<NodeRec>, n1: seq<NodeRec>, ids: seq<nat>, names: seq<string>)
    requires NamedAs(n0, ids, names) && |n0| <= |n1|
    requires forall x :: 0 <= x < |n0| ==> n1[x].name == n0[x].name
    ensures NamedAs(n1, ids, names)
  {
  }

  lemma NamedAsAppend(n0: seq<NodeRec>, n1: seq<NodeRec>, ids: seq<nat>, names: seq<string>, id: nat, name: string)
    requires NamedAs(n0, ids, names) && |n0| <= |n1|
    requires forall x :: 0 <= x < |n0| ==> n1[x].name == n0[x].name
    requires id < |n1| && n1[id].name == name
    ensures NamedAs(n1, ids + [id], names + [name])
  {
  }

  /** Entry `i` done: the first `i + 1` entries are in the graph. */
  lemma FinishEntry(topology: Topology, i: nat, cur: nat, n: seq<NodeRec>)
    requires DistinctKeys(topology) && i < |topology|
    requires Building(topology, i, |topology[i].connections|, cur, n)
    ensures Built(topology, i + 1, n)
  {
    assert topology[i].connections[..|topology[i].connections|] == topology[i].connections;
    assert Names(n)[cur] == topology[i].key;
    forall x, k | 0 <= x < |n| && 0 <= k < i + 1 && n[x].name == topology[k].key
      ensures n[x].priority == Some(k) && NamedAs(n, n[x].children, topology[k].connections)
    {
      if k == i {
        assert x == cur;
      }
    }
  }

  /** The registry holding only the root has no entry in it yet. */
  lemma BuiltNone(topology: Topology)
    ensures Built(topology, 0, [NewNode("0")])
  {
    assert Names([NewNode("0")]) == ["0"];
  }

  /** Once every entry is in, a node that is no key has no priority and no children. */
  lemma BuiltAll(topology: Topology, nodes: seq<NodeRec>)
    requires Built(topology, |topology|, nodes)
    ensures OthersBare(Keys(topology), nodes)
  {
    assert Keys(topology)[..|topology|] == Keys(topology);
  }

  /** The inner loop of `buildDAG`: each connection of entry `i` gets its node, an
      edge from `cur` and the mirrored edge back. */
  method AddConnections(g: Arena, topology: Topology, i: nat, cur: nat)
    requires DistinctKeys(topology) && i < |topology|
    requires g.Valid() && Building(topology, i, 0, cur, g.nodes)
    modifies g
    ensures g.Valid() && Building(topology, i, |topology[i].connections|, cur, g.nodes)
  {
    var connections := topology[i].connections;
    var j := 0;
    while j < |connections|
      invariant 0 <= j <= |connections|
      invariant g.Valid() && Building(topology, i, j, cur, g.nodes)
    {
      ghost var m0 := g.nodes;
      var node := g.FindOrCreateNode(connections[j]);
      FindConnection(topology, i, j, cur, m0, node, g.nodes);
      LinkConnection(topology, i, j, cur, g.nodes, node);
      g.AddChild(cur, node);
      g.AddParent(node, cur);
      j := j + 1;
    }
  }

  /** `buildDAG`: the root "0" first, then each key in order gets its node, its
      priority (the key's index) and one edge per connection, mirrored in the
      connection's `parents`. */
  method BuildDAG(topology: Topology) returns (g: Arena, root: nat)
    requires DistinctKeys(topology)
    ensures fresh(g)
    ensures root == 0 && g.Valid() && Built(topology, |topology|, g.nodes)
    ensures OthersBare(Keys(topology), g.nodes)
  {
    g := new Arena();
    root := g.AddNode("0");
    BuiltNone(topology);
    var i := 0;
    while i < |topology|
      invariant 0 <= i <= |topology|
      invariant g.Valid() && Built(topology, i, g.nodes)
    {
      var entry := topology[i];
      ghost var n0 := g.nodes;
      var cur := g.FindOrCreateNode(entry.key);
      StartEntry(topology, i, n0, cur, g.nodes);
      // the priority is assigned when the key is reached in the list
      g.SetPriority(cur, Some(i));
      AddConnections(g, topology, i, cur);
      FinishEntry(topology, i, cur, g.nodes);
      i := i + 1;
    }
    BuiltAll(topology, g.nodes);
  }
}
