/** `getTargetSubgraph`: marks the relevant part of the registry graph, then copies
    it, node by node, into a new arena. Every copy is a fresh node with exactly one
    parent, so the copy unfolds shared nodes into a tree. */
module Subgraph {
  import opened Nodes
  import opened Paths
  import opened PrioritySort
  import opened Relevance
  import opened KnownMarker
  import opened PrioWalk

  /** The relevant entries of `s`, in order: the children `relevantWalker` follows. */
  function RelevantOnly(gn: seq<NodeRec>, s: seq<nat>): (r: seq<nat>)
    ensures |r| <= |s|
    ensures forall x :: x in r <==> x in s && IsRelevant(gn, x)
  {
    if s == [] then []
    else
      assert s == s[..|s| - 1] + [s[|s| - 1]];
      var rest := RelevantOnly(gn, s[..|s| - 1]);
      if IsRelevant(gn, s[|s| - 1]) then rest + [s[|s| - 1]] else rest
  }

  /** `new Node(node.name)` with `isRelevant`, `isKnown` and `priority` copied. */
  function CopyOf(rec: NodeRec): (r: NodeRec)
    ensures r == rec.(children := [], parents := [])
  {
    NewNode(rec.name).(isRelevant := rec.isRelevant, isKnown := rec.isKnown, priority := rec.priority)
  }

  /** Copy `i` carries the name, priority and relevance of registry node `src[i]`,
      and `known` as its known flag. */
  ghost predicate Copies(gn: seq<NodeRec>, cn: seq<NodeRec>, src: seq<nat>, i: nat, known: bool) {
    && i < |cn| && i < |src| && src[i] < |gn|
    && cn[i].name == gn[src[i]].name && cn[i].priority == gn[src[i]].priority
    && cn[i].isRelevant == gn[src[i]].isRelevant && cn[i].isKnown == known
  }

  /** The known flag of a finished copy: the original's, or set by `markKnown`. */
  ghost function KnownFlag(gn: seq<NodeRec>, src: seq<nat>, list: seq<string>, i: nat): bool
    requires i < |src| && src[i] < |gn|
  {
    gn[src[i]].isKnown || KnownMatch(list, gn[src[i]].name)
  }

  /** Copy `i` is finished: known names are marked. */
  ghost predicate Mirrors(gn: seq<NodeRec>, cn: seq<NodeRec>, src: seq<nat>, list: seq<string>, i: nat) {
    i < |src| && src[i] < |gn| && Copies(gn, cn, src, i, KnownFlag(gn, src, list, i))
  }

  /** The children of copy `i` are distinct later copies, each with `i` as its only
      parent, and they stand for the relevant children of the original sorted by
      priority: one copy per entry, so a component listed twice is copied twice. */
  ghost predicate Expands(gn: seq<NodeRec>, cn: seq<NodeRec>, src: seq<nat>, i: nat) {
    && i < |cn| && i < |src| && src[i] < |gn|
    && (forall ch :: ch in cn[i].children ==> i < ch < |cn| && cn[ch].parents == [i])
    && Distinct(cn[i].children)
    && MapIndices(src, cn[i].children) == SortByPriority(Priorities(gn), RelevantOnly(gn, gn[src[i]].children))
  }

  /** Copy `i` has one parent, made before it and no earlier than `lo`, which lists
      it as a child. */
  ghost predicate OneParent(cn: seq<NodeRec>, lo: nat, i: nat) {
    && i < |cn| && |cn[i].parents| == 1
    && lo <= cn[i].parents[0] < i && i in cn[cn[i].parents[0]].children
  }

  ghost predicate InnerNode(gn: seq<NodeRec>, cn: seq<NodeRec>, src: seq<nat>, list: seq<string>, lo: nat, i: nat) {
    && Mirrors(gn, cn, src, list, i) && Expands(gn, cn, src, i) && OneParent(cn, lo, i)
    && Reachable(Edges(cn), lo, i)
  }

  /** Every copy after `lo` is finished and hangs below `lo`. */
  ghost predicate Inner(gn: seq<NodeRec>, cn: seq<NodeRec>, src: seq<nat>, list: seq<string>, lo: nat) {
    forall i :: lo < i < |cn| ==> InnerNode(gn, cn, src, list, lo, i)
  }

  /** Edges lead to later nodes and stay inside the arena. */
  ghost predicate Shaped(cn: seq<NodeRec>) {
    Forward(Edges(cn)) && WellFormed(cn)
  }

  /** Copy `cur` is being filled: it has no parent yet, and its children are distinct
      later copies, each with `cur` as its only parent, standing for the relevant
      entries of `done`, in order. */
  ghost predicate Filling(gn: seq<NodeRec>, cn: seq<NodeRec>, src: seq<nat>, cur: nat, done: seq<nat>, known: bool) {
    && cur < |cn| && |cn| == |src|
    && Copies(gn, cn, src, cur, known) && cn[cur].parents == []
    && (forall ch :: ch in cn[cur].children ==> cur < ch < |cn| && cn[ch].parents == [cur])
    && Distinct(cn[cur].children)
    && MapIndices(src, cn[cur].children) == RelevantOnly(gn, done)
  }

  /** Copy `cur` is being filled and everything after it is finished. */
  ghost predicate Walking(gn: seq<NodeRec>, cn: seq<NodeRec>, src: seq<nat>, list: seq<string>, cur: nat,
                          done: seq<nat>, known: bool) {
    && Filling(gn, cn, src, cur, done, known)
    && Inner(gn, cn, src, list, cur)
    && Shaped(cn)
  }

  /** The copies from `lo` on form the finished subgraph of registry node `src[lo]`. */
  ghost predicate Block(gn: seq<NodeRec>, cn: seq<NodeRec>, src: seq<nat>, list: seq<string>, lo: nat) {
    && lo < |cn| && |cn| == |src|
    && Mirrors(gn, cn, src, list, lo) && Expands(gn, cn, src, lo) && cn[lo].parents == []
    && Inner(gn, cn, src, list, lo)
    && Shaped(cn)
  }

  lemma StartCopy(gn: seq<NodeRec>, c0: seq<NodeRec>, src0: seq<nat>, n: nat, list: seq<string>)
    requires n < |gn| && |src0| == |c0| && Shaped(c0)
    ensures Walking(gn, c0 + [CopyOf(gn[n])], src0 + [n], list, |c0|, [], gn[n].isKnown)
  {
    var c1 := c0 + [CopyOf(gn[n])];
    assert forall x :: 0 <= x < |c0| ==> c1[x] == c0[x];
    assert forall i, c :: 0 <= i < |Edges(c1)| && c in Edges(c1)[i] ==> i < |c0| && c in Edges(c0)[i];
  }

  /** `a.addChild(b); b.addParent(a)` appends `b` to the children of `a` and `a` to
      the parents of `b`, for a backward link or a self-loop too, and changes nothing
      else. */
  lemma LinkFrame(n: seq<NodeRec>, a: nat, b: nat)
    requires a < |n| && b < |n|
    ensures |Link(n, a, b)| == |n|
    ensures forall x :: 0 <= x < |n| && x != a && x != b ==> Link(n, a, b)[x] == n[x]
    ensures a != b ==> Link(n, a, b)[a] == n[a].(children := n[a].children + [b])
    ensures a != b ==> Link(n, a, b)[b] == n[b].(parents := n[b].parents + [a])
    ensures a == b ==> Link(n, a, b)[a] == n[a].(children := n[a].children + [a], parents := n[a].parents + [a])
  {
  }

  /** Linking `a` to a later node `b` keeps the arena shaped and only adds an edge. */
  lemma ShapedLink(n: seq<NodeRec>, a: nat, b: nat)
    requires Shaped(n) && a < b < |n|
    ensures Shaped(Link(n, a, b)) && Grows(Edges(n), Edges(Link(n, a, b)))
    ensures b in Edges(Link(n, a, b))[a]
  {
    var n3 := Link(n, a, b);
    LinkFrame(n, a, b);
    WellFormedLink(n, a, b);
    forall i, c | 0 <= i < |Edges(n3)| && c in Edges(n3)[i]
      ensures i < c < |Edges(n3)|
    {
      if i != a || c != b {
        assert c in Edges(n)[i];
      }
    }
  }

  /** Relabelling agrees on two tables that agree on the entries used. */
  lemma {:induction false} MapIndicesAgree(s1: seq<nat>, s2: seq<nat>, t: seq<nat>)
    requires forall x :: x in t ==> x < |s1| && x < |s2| && s1[x] == s2[x]
    ensures MapIndices(s1, t) == MapIndices(s2, t)
  {
    if t != [] {
      assert t[0] in t;
      assert forall x :: x in t[1..] ==> x in t;
      MapIndicesAgree(s1, s2, t[1..]);
    }
  }

  /** A finished copy made before the newest child of `cur` stays finished. */
  lemma KeepOld(gn: seq<NodeRec>, cn: seq<NodeRec>, srcv: seq<nat>, list: seq<string>, cur: nat,
                cn2: seq<NodeRec>, src2: seq<nat>, i: nat)
    requires cur < i < |cn| < |cn2| && |srcv| == |cn| && |src2| == |cn2|
    requires forall x :: 0 <= x < |cn| ==> cn2[x] == cn[x] && src2[x] == srcv[x]
    requires InnerNode(gn, cn, srcv, list, cur, i)
    requires Grows(Edges(cn), Edges(Link(cn2, cur, |cn|)))
    ensures InnerNode(gn, Link(cn2, cur, |cn|), src2, list, cur, i)
  {
    var n3 := Link(cn2, cur, |cn|);
    LinkFrame(cn2, cur, |cn|);
    forall ch | ch in cn[i].children
      ensures n3[ch] == cn[ch]
    {
    }
    MapIndicesAgree(src2, srcv, cn[i].children);
    ReachGrows(Edges(cn), Edges(n3), cur, i);
  }

  /** The root of the new block becomes a child of `cur`. */
  lemma KeepKidRoot(gn: seq<NodeRec>, list: seq<string>, cur: nat, cn2: seq<NodeRec>, src2: seq<nat>, r: nat)
    requires cur < r && Block(gn, cn2, src2, list, r)
    ensures InnerNode(gn, Link(cn2, cur, r), src2, list, cur, r)
  {
    var n3 := Link(cn2, cur, r);
    LinkFrame(cn2, cur, r);
    ShapedLink(cn2, cur, r);
    forall ch | ch in cn2[r].children
      ensures n3[ch] == cn2[ch]
    {
    }
    ReachSelf(Edges(n3), r);
    ReachPrepend(Edges(n3), cur, r, r);
  }

  /** A finished copy of the new block stays finished, now below `cur`. */
  lemma KeepNew(gn: seq<NodeRec>, list: seq<string>, cur: nat, cn2: seq<NodeRec>, src2: seq<nat>, r: nat, i: nat)
    requires cur < r < i < |cn2| && Shaped(cn2)
    requires InnerNode(gn, cn2, src2, list, r, i)
    ensures InnerNode(gn, Link(cn2, cur, r), src2, list, cur, i)
  {
    var n3 := Link(cn2, cur, r);
    LinkFrame(cn2, cur, r);
    ShapedLink(cn2, cur, r);
    forall ch | ch in cn2[i].children
      ensures n3[ch] == cn2[ch]
    {
    }
    ReachGrows(Edges(cn2), Edges(n3), r, i);
    ReachPrepend(Edges(n3), cur, r, i);
  }

  /** `RelevantOnly` of a list with one more relevant entry. */
  lemma RelevantOnlySnoc(gn: seq<NodeRec>, s: seq<nat>, x: nat)
    ensures RelevantOnly(gn, s + [x]) == if IsRelevant(gn, x) then RelevantOnly(gn, s) + [x] else RelevantOnly(gn, s)
  {
    assert (s + [x])[..|s|] == s;
  }

  /** A child that is not relevant is skipped: the walk goes on unchanged. */
  lemma WalkingSkip(gn: seq<NodeRec>, cn: seq<NodeRec>, src: seq<nat>, list: seq<string>, cur: nat,
                    done: seq<nat>, known: bool, kid: nat)
    requires Walking(gn, cn, src, list, cur, done, known) && !IsRelevant(gn, kid)
    ensures Walking(gn, cn, src, list, cur, done + [kid], known)
  {
    RelevantOnlySnoc(gn, done, kid);
  }

  /** After linking the new block below `cur`, every copy after `cur` is finished
      and hangs below `cur`. */
  lemma AddKidInner(gn: seq<NodeRec>, cn: seq<NodeRec>, srcv: seq<nat>, list: seq<string>, cur: nat, done: seq<nat>,
                    known: bool, cn2: seq<NodeRec>, src2: seq<nat>)
    requires Walking(gn, cn, srcv, list, cur, done, known)
    requires |cn| < |cn2| == |src2| && cn2[..|cn|] == cn && src2[..|cn|] == srcv
    requires Block(gn, cn2, src2, list, |cn|)
    ensures Inner(gn, Link(cn2, cur, |cn|), src2, list, cur) && Shaped(Link(cn2, cur, |cn|))
  {
    var r := |cn|;
    var n3 := Link(cn2, cur, r);
    assert forall x :: 0 <= x < r ==> cn2[x] == cn2[..r][x] && src2[x] == src2[..r][x];
    ShapedLink(cn2, cur, r);
    assert Grows(Edges(cn), Edges(cn2)) by {
      assert forall x :: 0 <= x < r ==> Edges(cn2)[x] == Edges(cn)[x];
    }
    assert Grows(Edges(cn), Edges(n3));
    forall i | cur < i < |n3|
      ensures InnerNode(gn, n3, src2, list, cur, i)
    {
      if i < r {
        KeepOld(gn, cn, srcv, list, cur, cn2, src2, i);
      } else if i == r {
        KeepKidRoot(gn, list, cur, cn2, src2, r);
      } else {
        KeepNew(gn, list, cur, cn2, src2, r, i);
      }
    }
  }

  /** A child list gains a copy newer than all its entries and stays distinct. */
  lemma DistinctSnoc(s: seq<nat>, x: nat)
    requires Distinct(s) && forall y :: y in s ==> y < x
    ensures Distinct(s + [x])
  {
    var t := s + [x];
    forall j, k | 0 <= j < k < |t|
      ensures t[j] != t[k]
    {
      assert t[j] == s[j];
      if k < |s| {
        assert t[k] == s[k];
      } else {
        assert s[j] in s;
      }
    }
  }

  /** After linking, copy `cur` has the new block's root as its last child, standing
      for `kid`. */
  lemma AddKidCur(gn: seq<NodeRec>, cn: seq<NodeRec>, srcv: seq<nat>, cur: nat, done: seq<nat>,
                  known: bool, kid: nat, cn2: seq<NodeRec>, src2: seq<nat>)
    requires Filling(gn, cn, srcv, cur, done, known)
    requires |cn| < |cn2| == |src2| && cn2[..|cn|] == cn && src2[..|cn|] == srcv
    requires cn2[|cn|].parents == [] && src2[|cn|] == kid && IsRelevant(gn, kid)
    ensures Filling(gn, Link(cn2, cur, |cn|), src2, cur, done + [kid], known)
    ensures Link(cn2, cur, |cn|)[..cur] == cn[..cur] && src2[..cur] == srcv[..cur]
  {
    var r := |cn|;
    var n3 := Link(cn2, cur, r);
    LinkFrame(cn2, cur, r);
    assert cn2[cur] == cn[cur] && src2[cur] == srcv[cur] by {
      assert cn2[..r][cur] == cn2[cur] && src2[..r][cur] == src2[cur];
    }
    forall ch | ch in n3[cur].children
      ensures cur < ch < |cn2| && n3[ch].parents == [cur]
    {
      if ch != r {
        assert ch in cn[cur].children;
        assert cn2[..r][ch] == cn2[ch];
      }
    }
    forall x | x in cn[cur].children
      ensures x < |src2| && x < |srcv| && src2[x] == srcv[x]
    {
      assert src2[..r][x] == src2[x];
    }
    DistinctSnoc(cn[cur].children, r);
    MapIndicesAgree(src2, srcv, cn[cur].children);
    MapIndicesAppend(src2, cn[cur].children, r);
    RelevantOnlySnoc(gn, done, kid);
    forall x | 0 <= x < cur
      ensures n3[x] == cn[x] && src2[x] == srcv[x]
    {
      assert cn2[..r][x] == cn2[x] && src2[..r][x] == src2[x];
    }
    assert n3[..cur] == cn[..cur] && src2[..cur] == srcv[..cur];
  }

  /** `relevantChildrenRoot` is linked below `cur`: the walk goes on with one more child. */
  lemma AddKid(gn: seq<NodeRec>, cn: seq<NodeRec>, srcv: seq<nat>, list: seq<string>, cur: nat, done: seq<nat>,
               known: bool, kid: nat, cn2: seq<NodeRec>, src2: seq<nat>)
    requires Walking(gn, cn, srcv, list, cur, done, known)
    requires |cn| < |cn2| == |src2| && cn2[..|cn|] == cn && src2[..|cn|] == srcv
    requires Block(gn, cn2, src2, list, |cn|) && src2[|cn|] == kid && IsRelevant(gn, kid)
    ensures Walking(gn, Link(cn2, cur, |cn|), src2, list, cur, done + [kid], known)
    ensures Link(cn2, cur, |cn|)[..cur] == cn[..cur] && src2[..cur] == srcv[..cur]
  {
    AddKidInner(gn, cn, srcv, list, cur, done, known, cn2, src2);
    AddKidCur(gn, cn, srcv, cur, done, known, kid, cn2, src2);
  }

  /** In a walking state the copies reachable from `cur` are exactly those from `cur` on. */
  lemma ReachFromCur(gn: seq<NodeRec>, cn: seq<NodeRec>, src: seq<nat>, list: seq<string>, cur: nat,
                     done: seq<nat>, known: bool, x: nat)
    requires Walking(gn, cn, src, list, cur, done, known) && x < |cn|
    ensures Reachable(Edges(cn), cur, x) <==> cur <= x
  {
    if Reachable(Edges(cn), cur, x) {
      ReachForward(Edges(cn), cur, x);
    }
    if x == cur {
      ReachSelf(Edges(cn), cur);
    } else if cur < x {
      assert InnerNode(gn, cn, src, list, cur, x);
    }
  }

  /** Only copy `cur` differs, and its children are the same entries. */
  lemma InnerKept(gn: seq<NodeRec>, cn: seq<NodeRec>, cn': seq<NodeRec>, src: seq<nat>, list: seq<string>, cur: nat)
    requires Inner(gn, cn, src, list, cur) && cur < |cn| == |cn'|
    requires forall x :: 0 <= x < |cn| && x != cur ==> cn'[x] == cn[x]
    requires forall c :: c in cn'[cur].children <==> c in cn[cur].children
    ensures Inner(gn, cn', src, list, cur)
    ensures Grows(Edges(cn), Edges(cn')) && Grows(Edges(cn'), Edges(cn))
  {
    assert Grows(Edges(cn), Edges(cn'));
    forall i | cur < i < |cn'|
      ensures InnerNode(gn, cn', src, list, cur, i)
    {
      assert InnerNode(gn, cn, src, list, cur, i);
      forall ch | ch in cn[i].children
        ensures cn'[ch] == cn[ch]
      {
      }
      ReachGrows(Edges(cn), Edges(cn'), cur, i);
    }
  }

  /** `markKnown(currentNewNode, knownKanji)` inside the walker changes only the known
      flag of `cur`: the copies below it were marked by their own walks. */
  lemma MarkStep(gn: seq<NodeRec>, cn: seq<NodeRec>, src: seq<nat>, list: seq<string>, cur: nat,
                 done: seq<nat>, known: bool)
    requires Walking(gn, cn, src, list, cur, done, known)
    ensures MarkedKnown(cn, cur, list) == cn[cur := cn[cur].(isKnown := known || KnownMatch(list, cn[cur].name))]
    ensures Walking(gn, MarkedKnown(cn, cur, list), src, list, cur, done, known || KnownMatch(list, cn[cur].name))
  {
    var m := MarkedKnown(cn, cur, list);
    var expected := cn[cur := cn[cur].(isKnown := known || KnownMatch(list, cn[cur].name))];
    forall x | 0 <= x < |cn|
      ensures m[x] == expected[x]
    {
      ReachFromCur(gn, cn, src, list, cur, done, known, x);
      if cur < x {
        assert InnerNode(gn, cn, src, list, cur, x);
      }
    }
    assert m == expected;
    InnerKept(gn, cn, m, src, list, cur);
    forall ch | ch in cn[cur].children
      ensures m[ch] == cn[ch]
    {
    }
    assert Edges(m) == Edges(cn);
  }

  /** Clone keys agree with the keys of the originals. */
  lemma KeysAgree(gn: seq<NodeRec>, cn: seq<NodeRec>, src: seq<nat>, list: seq<string>, cur: nat)
    requires Inner(gn, cn, src, list, cur) && |src| == |cn|
    ensures forall y :: cur < y < |cn| ==> Key(Priorities(cn), y) == Key(Priorities(gn), At(src, y))
  {
    forall y | cur < y < |cn|
      ensures Key(Priorities(cn), y) == Key(Priorities(gn), At(src, y))
    {
      assert InnerNode(gn, cn, src, list, cur, y);
    }
  }

  /** A finished copy already has both lists sorted. */
  lemma FinishedSorted(gn: seq<NodeRec>, cn: seq<NodeRec>, src: seq<nat>, list: seq<string>, cur: nat, x: nat)
    requires Inner(gn, cn, src, list, cur) && |src| == |cn| && cur < x < |cn|
    ensures SortNode(cn, x) == cn[x]
  {
    var cp := Priorities(cn);
    var gp := Priorities(gn);
    assert InnerNode(gn, cn, src, list, cur, x);
    KeysAgree(gn, cn, src, list, cur);
    assert forall y :: y in cn[x].children ==> Key(cp, y) == Key(gp, At(src, y));
    SortedMapIndices(cp, gp, src, cn[x].children);
    SortOfSorted(cp, cn[x].children);
    var p := cn[x].parents[0];
    assert cn[x].parents == [p];
    assert SortByPriority(cp, [p]) == [p] by {
      assert [p][1..] == [];
    }
  }

  /** `prioWalker(currentNewNode)` inside the walker sorts the children of `cur` and
      leaves every finished copy as it was. */
  lemma SortStep(gn: seq<NodeRec>, cm: seq<NodeRec>, src: seq<nat>, list: seq<string>, cur: nat)
    requires cur < |src| && src[cur] < |gn|
    requires Walking(gn, cm, src, list, cur, gn[src[cur]].children, KnownFlag(gn, src, list, cur))
    ensures Prioritized(cm, cur) == cm[cur := cm[cur].(children := SortByPriority(Priorities(cm), cm[cur].children))]
    ensures Block(gn, Prioritized(cm, cur), src, list, cur)
  {
    var cp := Priorities(cm);
    var gp := Priorities(gn);
    var ps := Prioritized(cm, cur);
    var sorted := cm[cur := cm[cur].(children := SortByPriority(cp, cm[cur].children))];
    forall x | 0 <= x < |cm|
      ensures ps[x] == sorted[x]
    {
      ReachFromCur(gn, cm, src, list, cur, gn[src[cur]].children, KnownFlag(gn, src, list, cur), x);
      if cur < x {
        FinishedSorted(gn, cm, src, list, cur, x);
      }
    }
    assert ps == sorted;
    SortMembers(cp, cm[cur].children);
    InnerKept(gn, cm, sorted, src, list, cur);
    ForwardKept(Edges(cm), Edges(sorted));
    forall ch | ch in cm[cur].children
      ensures sorted[ch] == cm[ch]
    {
    }
    KeysAgree(gn, cm, src, list, cur);
    SortCommutes(cp, gp, src, cm[cur].children);
    SortDistinct(cp, cm[cur].children);
    assert Priorities(sorted) == cp;
    assert WellFormed(sorted) by {
      assert forall x :: 0 <= x < |cm| ==> sorted[x].parents == cm[x].parents;
    }
  }

  /** `relevantWalker(node)`: copies `node` into the clone arena, then copies each
      relevant child in order and links the copy below it, then runs `markKnown` and
      `prioWalker` from the new copy. `src` maps each copy to its original. The walk
      ends because the registry graph is acyclic: `rank` falls along every edge. */
  method RelevantWalker(g: Arena, c: Arena, n: nat, known: seq<string>, ghost rank: seq<nat>, ghost src: seq<nat>)
    returns (cur: nat, ghost src': seq<nat>)
    requires g != c
    requires n < |g.nodes| && Ranked(Edges(g.nodes), rank)
    requires |src| == |c.nodes| && Shaped(c.nodes)
    modifies c
    ensures cur == |old(c.nodes)| < |c.nodes| == |src'|
    ensures c.nodes[..cur] == old(c.nodes)
    ensures src'[..cur] == src && src'[cur] == n
    ensures Block(g.nodes, c.nodes, src', known, cur)
    decreases rank[n], 1
  {
    ghost var c0 := c.nodes;
    cur := c.AddNode(g.nodes[n].name);
    c.CopyProperties(cur, g.nodes[n]);
    ghost var c1 := c.nodes;
    ghost var s1 := src + [n];
    assert c1 == c0 + [CopyOf(g.nodes[n])];
    StartCopy(g.nodes, c0, src, n, known);
    src' := CopyChildren(g, c, n, cur, known, rank, s1);
    assert c.nodes[..cur] == c1[..cur] == c0;
    assert src'[..cur] == s1[..cur + 1][..cur] == src;
    assert src'[cur] == s1[..cur + 1][cur] == n;
    MarkStep(g.nodes, c.nodes, src', known, cur, g.nodes[n].children, g.nodes[n].isKnown);
    MarkKnown(c, cur, known);
    SortStep(g.nodes, c.nodes, src', known, cur);
    PrioWalker(c, cur);
  }

  /** The loop of `relevantWalker` over `node.children`: each relevant child is copied
      by its own walk and linked below copy `cur`, in order; the others are skipped. */
  method CopyChildren(g: Arena, c: Arena, n: nat, cur: nat, known: seq<string>, ghost rank: seq<nat>,
                      ghost src: seq<nat>)
    returns (ghost src': seq<nat>)
    requires g != c
    requires n < |g.nodes| && Ranked(Edges(g.nodes), rank)
    requires Walking(g.nodes, c.nodes, src, known, cur, [], g.nodes[n].isKnown)
    modifies c
    ensures Walking(g.nodes, c.nodes, src', known, cur, g.nodes[n].children, g.nodes[n].isKnown)
    ensures c.nodes[..cur] == old(c.nodes)[..cur] && src'[..cur + 1] == src[..cur + 1]
    decreases rank[n], 0
  {
    src' := src;
    ghost var gn := g.nodes;
    ghost var isKnown := gn[n].isKnown;
    ghost var done: seq<nat> := [];
    var kids := g.nodes[n].children;
    var k := 0;
    while k < |kids|
      invariant 0 <= k <= |kids| && done == kids[..k] && g.nodes == gn
      invariant Walking(gn, c.nodes, src', known, cur, done, isKnown)
      invariant c.nodes[..cur] == old(c.nodes)[..cur] && src'[..cur + 1] == src[..cur + 1]
    {
      assert kids[k] in Edges(gn)[n];
      RankedStep(Edges(gn), rank, n, kids[k]);
      if g.nodes[kids[k]].isRelevant {
        src' := CopyChild(g, c, cur, kids[k], known, rank, src', done, isKnown);
      } else {
        WalkingSkip(gn, c.nodes, src', known, cur, done, isKnown, kids[k]);
      }
      TakeOneMore(kids, k);
      done := done + [kids[k]];
      k := k + 1;
    }
    assert kids[..|kids|] == kids;
  }

  /** One relevant child: `relevantWalker(child)` copies it, and the copy is linked
      below copy `cur` with `addChild` and `addParent`. */
  method CopyChild(g: Arena, c: Arena, cur: nat, kid: nat, known: seq<string>, ghost rank: seq<nat>,
                   ghost src: seq<nat>, ghost done: seq<nat>, ghost isKnown: bool)
    returns (ghost src': seq<nat>)
    requires g != c
    requires kid < |g.nodes| && g.nodes[kid].isRelevant && Ranked(Edges(g.nodes), rank)
    requires Walking(g.nodes, c.nodes, src, known, cur, done, isKnown)
    modifies c
    ensures Walking(g.nodes, c.nodes, src', known, cur, done + [kid], isKnown)
    ensures c.nodes[..cur] == old(c.nodes)[..cur] && src'[..cur + 1] == src[..cur + 1]
    decreases rank[kid], 2
  {
    ghost var before := c.nodes;
    var r;
    r, src' := RelevantWalker(g, c, kid, known, rank, src);
    ghost var walked := c.nodes;
    c.AddChild(cur, r);
    c.AddParent(r, cur);
    assert c.nodes == Link(walked, cur, r);
    AddKid(g.nodes, before, src, known, cur, done, isKnown, kid, walked, src');
    assert src'[..cur + 1] == src'[..r][..cur + 1] == src[..cur + 1];
  }

  /** The children of a finished copy are copies of relevant nodes. */
  lemma ChildRelevant(gn: seq<NodeRec>, cn: seq<NodeRec>, src: seq<nat>, p: nat, i: nat)
    requires Expands(gn, cn, src, p) && i in cn[p].children && |src| == |cn|
    ensures src[i] < |gn| && gn[src[i]].isRelevant
  {
    var j :| 0 <= j < |cn[p].children| && cn[p].children[j] == i;
    MapIndicesAt(src, cn[p].children, j);
    var rel := RelevantOnly(gn, gn[src[p]].children);
    SortMembers(Priorities(gn), rel);
    assert src[i] in MapIndices(src, cn[p].children);
  }

  /** Below its root, the subgraph holds only copies of relevant nodes. */
  lemma InnerRelevant(gn: seq<NodeRec>, cn: seq<NodeRec>, src: seq<nat>, list: seq<string>, lo: nat, i: nat)
    requires Block(gn, cn, src, list, lo) && lo < i < |cn|
    ensures cn[i].isRelevant && IsRelevant(gn, src[i])
  {
    assert InnerNode(gn, cn, src, list, lo, i);
    var p := cn[i].parents[0];
    if p != lo {
      assert InnerNode(gn, cn, src, list, lo, p);
    }
    ChildRelevant(gn, cn, src, p, i);
  }

  /** The copy is a tree: a copy is listed by one copy only, and there only once. */
  lemma ListedOnce(gn: seq<NodeRec>, cn: seq<NodeRec>, src: seq<nat>, list: seq<string>, lo: nat,
                   p: nat, q: nat, i: nat)
    requires Block(gn, cn, src, list, lo) && lo <= p < |cn| && lo <= q < |cn|
    requires i in cn[p].children && i in cn[q].children
    ensures p == q && cn[i].parents == [p]
    ensures forall j, k :: 0 <= j < k < |cn[p].children| ==> cn[p].children[j] != cn[p].children[k]
  {
    if p != lo {
      assert InnerNode(gn, cn, src, list, lo, p);
    }
    if q != lo {
      assert InnerNode(gn, cn, src, list, lo, q);
    }
  }

  lemma {:induction false} RelevantOnlyNone(gn: seq<NodeRec>, s: seq<nat>)
    requires forall x :: 0 <= x < |gn| ==> !gn[x].isRelevant
    ensures RelevantOnly(gn, s) == []
  {
    if s != [] {
      RelevantOnlyNone(gn, s[..|s| - 1]);
    }
  }

  /** With no relevant node in the registry, the copied root has no children. */
  lemma NothingRelevant(gn: seq<NodeRec>, cn: seq<NodeRec>, src: seq<nat>, list: seq<string>)
    requires Block(gn, cn, src, list, 0)
    requires forall x :: 0 <= x < |gn| ==> !gn[x].isRelevant
    ensures cn[0].children == []
  {
    RelevantOnlyNone(gn, gn[src[0]].children);
    assert |MapIndices(src, cn[0].children)| == 0;
  }

  /** `getTargetSubgraph(allRoot, nodeList, targetKanji, knownKanji)`: paints the
      targets, then copies the relevant subgraph from `allRoot`. The copy of
      `allRoot` is the first node of the new arena. */
  method GetTargetSubgraph(g: Arena, allRoot: nat, targets: seq<string>, known: seq<string>, ghost rank: seq<nat>)
    returns (clone: Arena, newRoot: nat, ghost src: seq<nat>)
    requires g.Valid() && allRoot < |g.nodes| && Ranked(Edges(g.nodes), rank)
    modifies g
    ensures fresh(clone)
    ensures RaisesRelevance(old(g.nodes), g.nodes)
    ensures ClosedExcept(g.nodes, RelevantSet(old(g.nodes)))
    ensures forall m :: 0 <= m < |targets| && Target(old(g.nodes), targets, m).Some? ==>
              g.nodes[Target(old(g.nodes), targets, m).value].isRelevant
    ensures forall x :: 0 <= x < |g.nodes| && g.nodes[x].isRelevant && !old(g.nodes)[x].isRelevant ==>
              BelowTargets(old(g.nodes), targets, |targets|, x)
    ensures newRoot == 0 && |src| > 0 && src[0] == allRoot
    ensures Block(g.nodes, clone.nodes, src, known, 0)
    ensures targets == [] && RelevantSet(old(g.nodes)) == {} ==> clone.nodes[0].children == []
  {
    PaintTargets(g, targets);
    RaisesKeeps(old(g.nodes), g.nodes);
    clone := new Arena();
    newRoot, src := RelevantWalker(g, clone, allRoot, known, rank, []);
    if targets == [] && RelevantSet(old(g.nodes)) == {} {
      forall x | 0 <= x < |g.nodes|
        ensures !g.nodes[x].isRelevant
      {
        assert x !in RelevantSet(old(g.nodes));
      }
      NothingRelevant(g.nodes, clone.nodes, src, known);
    }
  }
}
