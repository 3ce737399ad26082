/** The nodes of the kanji decomposition graph and the arena that owns them.
    A `Node` object of the program is a record in the arena; its `children` and
    `parents` arrays hold arena indices instead of object references. */
module Nodes {

  datatype Option<T> = None | Some(value: T)

  /** The fields of one `Node`: `priority` is undefined (None) until the node is
      reached as a topology key. */
  datatype NodeRec = NodeRec(
    name: string,
    children: seq<nat>,
    parents: seq<nat>,
    isRelevant: bool,
    isKnown: bool,
    priority: Option<nat>)

  /** `new Node(name)`: no edges, both flags false, priority undefined. */
  function NewNode(name: string): NodeRec {
    NodeRec(name, [], [], false, false, None)
  }

  /** The adjacency table along `children`. */
  function Edges(nodes: seq<NodeRec>): seq<seq<nat>> {
    seq(|nodes|, i requires 0 <= i < |nodes| => nodes[i].children)
  }

  /** The priority column. */
  function Priorities(nodes: seq<NodeRec>): seq<Option<nat>> {
    seq(|nodes|, i requires 0 <= i < |nodes| => nodes[i].priority)
  }

  /** The name column. */
  function Names(nodes: seq<NodeRec>): seq<string> {
    seq(|nodes|, i requires 0 <= i < |nodes| => nodes[i].name)
  }

  /** Every edge, in either direction, points into the arena. */
  ghost predicate WellFormed(nodes: seq<NodeRec>) {
    && (forall i, c :: 0 <= i < |nodes| && c in nodes[i].children ==> c < |nodes|)
    && (forall i, p :: 0 <= i < |nodes| && p in nodes[i].parents ==> p < |nodes|)
  }

  ghost predicate NamesDistinct(nodes: seq<NodeRec>) {
    forall i, j :: 0 <= i < j < |nodes| ==> nodes[i].name != nodes[j].name
  }

  /** The node that `find(x => x.name === name)` returns: the first one so named. */
  function FirstNamed(nodes: seq<NodeRec>, name: string): (r: Option<nat>)
    ensures r.Some? ==> r.value < |nodes| && nodes[r.value].name == name
    ensures r.Some? ==> forall k :: 0 <= k < r.value ==> nodes[k].name != name
    ensures r.None? <==> name !in Names(nodes)
  {
    if |nodes| == 0 then None
    else if nodes[0].name == name then
      assert Names(nodes)[0] == name;
      Some(0)
    else match FirstNamed(nodes[1..], name)
      case None =>
        assert Names(nodes) == [nodes[0].name] + Names(nodes[1..]);
        None
      case Some(i) =>
        assert Names(nodes)[i + 1] == name;
        Some(i + 1)
  }

  /** With distinct names, the node a name finds is the only one carrying it. */
  lemma FirstNamedUnique(nodes: seq<NodeRec>, i: nat)
    requires NamesDistinct(nodes) && i < |nodes|
    ensures FirstNamed(nodes, nodes[i].name) == Some(i)
  {
    assert Names(nodes)[i] == nodes[i].name;
  }

  /** A prefix grows by the next element. */
  lemma TakeOneMore<T>(s: seq<T>, j: nat)
    requires j < |s|
    ensures s[..j + 1] == s[..j] + [s[j]]
  {
  }

  /** `a.addChild(b); b.addParent(a)`, as one value. */
  function Link(nodes: seq<NodeRec>, a: nat, b: nat): (r: seq<NodeRec>)
    requires a < |nodes| && b < |nodes|
    ensures |r| == |nodes|
  {
    var n1 := nodes[a := nodes[a].(children := nodes[a].children + [b])];
    n1[b := n1[b].(parents := n1[b].parents + [a])]
  }

  /** Linking two nodes of the arena keeps every edge inside it. */
  lemma WellFormedLink(n: seq<NodeRec>, a: nat, b: nat)
    requires WellFormed(n) && a < |n| && b < |n|
    ensures WellFormed(Link(n, a, b))
  {
    var n1 := Link(n, a, b);
    forall x, c | 0 <= x < |n1| && c in n1[x].children
      ensures c < |n1|
    {
      if x == a {
        assert n1[x].children == n[a].children + [b];
      } else {
        assert n1[x].children == n[x].children;
      }
    }
    forall x, p | 0 <= x < |n1| && p in n1[x].parents
      ensures p < |n1|
    {
      if x == b {
        assert n1[x].parents == n[b].parents + [a];
      } else {
        assert n1[x].parents == n[x].parents;
      }
    }
  }

  /** The arena of `Node` objects: the registry's `allnodes` list, or the nodes
      allocated for one extracted subgraph, in order of allocation. */
  class Arena {
    var nodes: seq<NodeRec>

    constructor ()
      ensures nodes == []
    {
      nodes := [];
    }

    ghost predicate Valid()
      reads this
    {
      WellFormed(nodes)
    }

    /** `new Node(name)`, with the new node placed at the end of the arena. */
    method AddNode(name: string) returns (i: nat)
      modifies this
      ensures i == |old(nodes)| && nodes == old(nodes) + [NewNode(name)]
      ensures old(Valid()) ==> Valid()
    {
      i := |nodes|;
      nodes := nodes + [NewNode(name)];
    }

    /** `Node.addChild`: `c` goes to the end of the children of node `i`. */
    method AddChild(i: nat, c: nat)
      requires i < |nodes|
      modifies this
      ensures nodes == old(nodes)[i := old(nodes)[i].(children := old(nodes)[i].children + [c])]
    {
      nodes := nodes[i := nodes[i].(children := nodes[i].children + [c])];
    }

    /** `Node.addParent`: `p` goes to the end of the parents of node `i`. */
    method AddParent(i: nat, p: nat)
      requires i < |nodes|
      modifies this
      ensures nodes == old(nodes)[i := old(nodes)[i].(parents := old(nodes)[i].parents + [p])]
    {
      nodes := nodes[i := nodes[i].(parents := nodes[i].parents + [p])];
    }

    /** `node.priority = p`. */
    method SetPriority(i: nat, p: Option<nat>)
      requires i < |nodes|
      modifies this
      ensures nodes == old(nodes)[i := old(nodes)[i].(priority := p)]
    {
      nodes := nodes[i := nodes[i].(priority := p)];
    }

    /** `isRelevant`, `isKnown` and `priority` copied from `from` onto node `i`. */
    method CopyProperties(i: nat, from: NodeRec)
      requires i < |nodes|
      modifies this
      ensures nodes == old(nodes)[i := old(nodes)[i].(isRelevant := from.isRelevant,
                                                      isKnown := from.isKnown,
                                                      priority := from.priority)]
    {
      nodes := nodes[i := nodes[i].(isRelevant := from.isRelevant, isKnown := from.isKnown, priority := from.priority)];
    }

    /** `node.isRelevant = true`. */
    method SetRelevant(i: nat)
      requires i < |nodes|
      modifies this
      ensures nodes == old(nodes)[i := old(nodes)[i].(isRelevant := true)]
    {
      nodes := nodes[i := nodes[i].(isRelevant := true)];
    }

    /** `node.isKnown = true`. */
    method SetKnown(i: nat)
      requires i < |nodes|
      modifies this
      ensures nodes == old(nodes)[i := old(nodes)[i].(isKnown := true)]
    {
      nodes := nodes[i := nodes[i].(isKnown := true)];
    }

    /** `node.children = cs`, as `sort` leaves the array. */
    method SetChildren(i: nat, cs: seq<nat>)
      requires i < |nodes|
      modifies this
      ensures nodes == old(nodes)[i := old(nodes)[i].(children := cs)]
    {
      nodes := nodes[i := nodes[i].(children := cs)];
    }

    /** `node.parents = ps`, as `sort` leaves the array. */
    method SetParents(i: nat, ps: seq<nat>)
      requires i < |nodes|
      modifies this
      ensures nodes == old(nodes)[i := old(nodes)[i].(parents := ps)]
    {
      nodes := nodes[i := nodes[i].(parents := ps)];
    }

    /** `list.find(x => x.name === name)`: a linear search from the front. */
    method Find(name: string) returns (r: Option<nat>)
      ensures r == FirstNamed(nodes, name)
    {
      var i := 0;
      while i < |nodes|
        invariant 0 <= i <= |nodes|
        invariant forall k :: 0 <= k < i ==> nodes[k].name != name
      {
        if nodes[i].name == name {
          assert Names(nodes)[i] == name;
          return Some(i);
        }
        i := i + 1;
      }
      assert forall k :: 0 <= k < |nodes| ==> Names(nodes)[k] != name;
      return None;
    }

    /** `findOrCreateNode`: the node named `name`, appended if there was none. */
    method FindOrCreateNode(name: string) returns (i: nat)
      modifies this
      ensures i < |nodes| && nodes[i].name == name
      ensures name in Names(old(nodes)) ==> nodes == old(nodes) && Some(i) == FirstNamed(nodes, name)
      ensures name !in Names(old(nodes)) ==> nodes == old(nodes) + [NewNode(name)] && i == |old(nodes)|
      ensures NamesDistinct(old(nodes)) ==> NamesDistinct(nodes)
      ensures old(Valid()) ==> Valid()
    {
      var found := Find(name);
      if found.None? {
        assert forall k :: 0 <= k < |nodes| ==> Names(nodes)[k] == nodes[k].name;
        i := AddNode(name);
      } else {
        i := found.value;
      }
    }
  }
}
