/** `getKanjiOrder`: splits the two input strings, builds the registry graph and
    extracts the subgraph of the target kanji. */
module KanjiOrder {
  import opened Nodes
  import opened Paths
  import opened Registry
  import opened Relevance
  import opened KnownMarker
  import opened Subgraph

  /** `s.split('')`: one one-character string per character. */
  function SplitChars(s: string): (r: seq<string>)
    ensures |r| == |s|
    ensures forall i :: 0 <= i < |s| ==> r[i] == [s[i]]
  {
    if s == [] then [] else [[s[0]]] + SplitChars(s[1..])
  }

  /** `parts.join('')`. */
  function Concat(parts: seq<string>): string {
    if parts == [] then "" else parts[0] + Concat(parts[1..])
  }

  /** Joining the pieces gives the input back. */
  lemma {:induction false} SplitConcat(s: string)
    ensures Concat(SplitChars(s)) == s
  {
    if s != [] {
      SplitConcat(s[1..]);
      assert SplitChars(s)[1..] == SplitChars(s[1..]);
      assert s == [s[0]] + s[1..];
    }
  }

  /** A split list never holds the empty string, so a name is known exactly when it
      is one character of the input. */
  lemma KnownSplit(known: string, name: string)
    ensures KnownMatch(SplitChars(known), name) <==> |name| == 1 && name[0] in known
  {
    var parts := SplitChars(known);
    if KnownMatch(parts, name) {
      var i :| 0 <= i < |parts| && parts[i] == name;
      assert name == [known[i]];
    }
    if |name| == 1 && name[0] in known {
      var i :| 0 <= i < |known| && known[i] == name[0];
      assert parts[i] == name;
    }
  }

  /** `rank` names a depth for every name of the topology that falls from each key to
      its connections: the topology has no cycle. */
  ghost predicate TopologyRanked(topology: Topology, rank: map<string, nat>) {
    && "0" in rank
    && (forall k :: 0 <= k < |topology| ==> topology[k].key in rank)
    && (forall k, c :: 0 <= k < |topology| && c in topology[k].connections ==>
          c in rank && rank[c] < rank[topology[k].key])
  }

  /** The depth of each registry node, by name. */
  ghost function RankOf(nodes: seq<NodeRec>, rank: map<string, nat>): (r: seq<nat>)
    requires forall x :: 0 <= x < |nodes| ==> nodes[x].name in rank
    ensures |r| == |nodes| && forall x :: 0 <= x < |nodes| ==> r[x] == rank[nodes[x].name]
  {
    seq(|nodes|, x requires 0 <= x < |nodes| => rank[nodes[x].name])
  }

  /** Every name in a built registry is ranked. */
  lemma NamesRanked(topology: Topology, rank: map<string, nat>, nodes: seq<NodeRec>)
    requires TopologyRanked(topology, rank) && Built(topology, |topology|, nodes)
    ensures forall x :: 0 <= x < |nodes| ==> nodes[x].name in rank
  {
    forall x | 0 <= x < |nodes|
      ensures nodes[x].name in rank
    {
      assert Mentioned(topology, nodes[x].name);
    }
  }

  /** One registry edge falls in rank: it comes from a key to one of its connections. */
  lemma EdgeRanked(topology: Topology, rank: map<string, nat>, nodes: seq<NodeRec>, i: nat, c: nat)
    requires TopologyRanked(topology, rank)
    requires KeyNodes(topology, |topology|, nodes) && OthersBare(Keys(topology), nodes)
    requires i < |nodes| && c in nodes[i].children
    ensures c < |nodes| && nodes[c].name in rank && nodes[i].name in rank
    ensures rank[nodes[c].name] < rank[nodes[i].name]
  {
    assert nodes[i].name in Keys(topology);
    var k :| 0 <= k < |topology| && Keys(topology)[k] == nodes[i].name;
    assert NamedAs(nodes, nodes[i].children, topology[k].connections);
    var j :| 0 <= j < |nodes[i].children| && nodes[i].children[j] == c;
    assert nodes[c].name == topology[k].connections[j];
  }

  /** A ranked topology builds an acyclic registry graph. */
  lemma RegistryRanked(topology: Topology, rank: map<string, nat>, nodes: seq<NodeRec>)
    requires TopologyRanked(topology, rank) && Built(topology, |topology|, nodes)
    ensures forall x :: 0 <= x < |nodes| ==> nodes[x].name in rank
    ensures Ranked(Edges(nodes), RankOf(nodes, rank))
  {
    NamesRanked(topology, rank, nodes);
    var r := RankOf(nodes, rank);
    assert Keys(topology)[..|topology|] == Keys(topology);
    forall i, c | 0 <= i < |Edges(nodes)| && c in Edges(nodes)[i]
      ensures c < |Edges(nodes)| && r[c] < r[i]
    {
      EdgeRanked(topology, rank, nodes, i, c);
    }
  }

  /** What the subgraph extraction needs of a freshly built registry. */
  lemma RegistryFacts(topology: Topology, rank: map<string, nat>, nodes: seq<NodeRec>) returns (depth: seq<nat>)
    requires TopologyRanked(topology, rank) && Built(topology, |topology|, nodes)
    ensures |nodes| > 0 && nodes[0].name == "0" && WellFormed(nodes)
    ensures RelevantSet(nodes) == {}
    ensures Ranked(Edges(nodes), depth)
  {
    RegistryRanked(topology, rank, nodes);
    depth := RankOf(nodes, rank);
    forall x | x in RelevantSet(nodes)
      ensures false
    {
    }
  }

  /** `getKanjiOrder(kanjis, known)`: returns the subgraph that the program logs.
      The registry it built, and that registry after painting, are ghost results. */
  method GetKanjiOrder(topology: Topology, kanjis: string, known: string, ghost rank: map<string, nat>)
    returns (clone: Arena, newRoot: nat, ghost built: seq<NodeRec>, ghost registry: seq<NodeRec>,
             ghost src: seq<nat>)
    requires DistinctKeys(topology) && TopologyRanked(topology, rank)
    ensures Built(topology, |topology|, built) && RaisesRelevance(built, registry)
    ensures forall x :: 0 <= x < |registry| ==>
              (registry[x].isRelevant <==> BelowTargets(built, SplitChars(kanjis), |kanjis|, x))
    ensures newRoot == 0 && |src| > 0 && src[0] == 0 && registry[0].name == "0"
    ensures Block(registry, clone.nodes, src, SplitChars(known), 0)
    ensures forall i :: 0 < i < |clone.nodes| ==> clone.nodes[i].isRelevant
    ensures kanjis == "" ==> clone.nodes[0].children == []
  {
    var targetList := SplitChars(kanjis);
    var knownList := SplitChars(known);
    var g, allRoot := BuildDAG(topology);
    built := g.nodes;
    ghost var depth := RegistryFacts(topology, rank, built);
    clone, newRoot, src := GetTargetSubgraph(g, allRoot, targetList, knownList, depth);
    registry := g.nodes;
    PaintedExactly(built, registry, targetList);
    forall i | 0 < i < |clone.nodes|
      ensures clone.nodes[i].isRelevant
    {
      InnerRelevant(registry, clone.nodes, src, knownList, 0, i);
    }
  }
}
