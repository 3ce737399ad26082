# Kanji decomposition graph, modelled in Dafny

This project models the graph engine of a kanji study-order application: the code in
`src/logic/kanjiorder.ts`. The engine:

- reads a topology that maps each kanji to the components it connects to, and builds a
  registry graph of `Node` objects from it (`findOrCreateNode`, `buildDAG`);
- marks as relevant every node below the target kanji (`paint` inside
  `getTargetSubgraph`);
- copies the relevant part of the registry into new nodes (`relevantWalker`);
- marks the copies whose names the learner already knows (`markKnown`);
- sorts each copy's `children` and `parents` by priority (`prioWalker`);
- splits the two input strings into characters and runs the pipeline (`getKanjiOrder`).

The model keeps the program's imperative shape:

- **Arena.** A `Node` object is a record in an arena (`Nodes.Arena`, a class with one
  field `nodes: seq<NodeRec>`). `children` and `parents` hold arena indices rather than
  references.
- **Two arenas.** The registry and the copied subgraph are separate `Arena` objects. Every
  change the source makes to a node goes through an arena method with a `modifies` clause:
  `push` on `allnodes`, `addChild`, `addParent`, and each field assignment.
- **Loops and recursion.** Loops and recursive closures stay methods with loop invariants
  and termination measures.
- **Specification functions.** Each of those methods is proved against a specification
  function or predicate, and the properties the program relies on are lemmas about those
  functions:
  - reachability along `children` (`Paths.Reachable`);
  - the stable sort by `(priority || 0)` (`PrioritySort.SortByPriority`);
  - what marking produces (`KnownMarker.MarkedKnown`);
  - what sorting produces (`PrioWalk.Prioritized`);
  - the shape of a copied subgraph (`Subgraph.Block`).

Modules, in dependency order:

- `Nodes`: node records, the arena and its mutators, `find` by name and `findOrCreateNode`.
- `Paths`: walks along `children`, and acyclicity given by a rank or by index order.
- `PrioritySort`: the comparator `(a.priority || 0) - (b.priority || 0)` as a stable
  insertion sort. It is sorted, a permutation and idempotent, and it commutes with the
  map from each copy to its original.
- `Registry`: `buildDAG`, with the invariants of its two nested loops.
- `Relevance`: the `paint` closure and the loop over the target kanji.
- `KnownMarker`: `markKnown` and its visited-guarded inner `paint`.
- `PrioWalk`: `prioWalker`.
- `Subgraph`: `relevantWalker` and `getTargetSubgraph`.
- `KanjiOrder`: the input splitting and `getKanjiOrder`.

Where the repository's written description and the code disagree, the model follows the
code:

- The painter follows `children`, even though the comment at line 105 says `parents`.
- `buildDAG` makes each connection a child of its key.
- `relevantWalker` has no visited map. A node reachable along k paths is copied k times,
  and every copy other than the root has exactly one parent. The result is a tree, not a
  DAG with shared nodes.
- No code resets `isRelevant` after the copy. The model keeps the raised flags.
  `GetTargetSubgraph` states that every newly raised flag lies below a target kanji.
  When the registry starts with every flag clear, as `buildDAG` leaves it,
  `GetKanjiOrder` states exactly which flags are raised (`Relevance.PaintedExactly`).
- There is no radical flag and no order generator in this file.
- `getKanjiOrder` returns nothing (see "Left out").
- An undefined priority sorts as 0, because of `|| 0`. It ties with priority 0; it is not
  placed before every other node.
- `relevantWalker` runs `markKnown` and `prioWalker` from every copy as it finishes that
  copy, not once on the whole subgraph. The model does the same. A copy that was already
  marked and sorted is walked again by every ancestor copy, and both walks are idempotent
  (`KnownMarker.MarkedKnownIdempotent`, `PrioWalk.PrioritizedIdempotent`).
- `paint` and `markKnown` end on every graph; their guards are `isRelevant` and the
  visited set. `relevantWalker` and `prioWalker` have no guard. `relevantWalker` recurses
  forever only when, stepping from the root into relevant children alone, it reaches a
  cycle; `prioWalker` recurses forever on any cycle it reaches. The model needs
  acyclicity for them:
  - a ghost rank that falls along every registry edge (`Paths.Ranked`), which
    `KanjiOrder.RegistryRanked` derives from a ranked topology;
  - index order in the copy (`Paths.Forward`), which a depth-first copy allocates.

## Model

| member | source | states |
|---|---|---|
| Nodes.Arena.AddNode | src/logic/kanjiorder.ts:31-35 | `new Node(name)` followed by `push`: a bare node (no edges, both flags false, priority undefined) goes to the end of the arena, at index `|old nodes|`; edges stay inside the arena |
| Nodes.Arena.AddChild | src/logic/kanjiorder.ts:37-39 | `addChild`: the child index goes to the end of that node's `children`; nothing else changes |
| Nodes.Arena.AddParent | src/logic/kanjiorder.ts:41-43 | `addParent`: the parent index goes to the end of that node's `parents`; nothing else changes |
| Nodes.Arena.SetPriority | src/logic/kanjiorder.ts:71 | `current.priority = i` changes only that field of that node |
| Nodes.Arena.CopyProperties | src/logic/kanjiorder.ts:115-117 | the copy takes `isRelevant`, `isKnown` and `priority` from the original; nothing else changes |
| Nodes.Arena.SetRelevant | src/logic/kanjiorder.ts:100 | `node.isRelevant = true` changes only that flag |
| Nodes.Arena.SetKnown | src/logic/kanjiorder.ts:163 | `node.isKnown = true` changes only that flag |
| Nodes.Arena.SetChildren | src/logic/kanjiorder.ts:137 | the sorted `children` array replaces the old one; nothing else changes |
| Nodes.Arena.SetParents | src/logic/kanjiorder.ts:138 | the sorted `parents` array replaces the old one; nothing else changes |
| Nodes.FirstNamed | src/logic/kanjiorder.ts:50 | `find` by name: the result, if any, is the first node with that name; it is undefined exactly when no node has that name |
| Nodes.Arena.Find | src/logic/kanjiorder.ts:50 | the linear search loop returns what `Nodes.FirstNamed` specifies |
| Nodes.FirstNamedUnique | src/logic/kanjiorder.ts:49-56 | when names are distinct, each node's name finds that node |
| Nodes.Link | src/logic/kanjiorder.ts:75-76 | `a.addChild(b); b.addParent(a)` as one value: the arena keeps its length; `Subgraph.LinkFrame` states the whole effect for every `a` and `b` |
| Nodes.WellFormedLink | src/logic/kanjiorder.ts:75-76 | linking two arena nodes keeps every edge inside the arena |
| Nodes.Arena.FindOrCreateNode | src/logic/kanjiorder.ts:49-56 | the returned node has the given name. If the name was present, the list is unchanged and the node is the first with that name. If it was missing, exactly one bare node is appended. Distinct names stay distinct |
| Registry.BuildDAG | src/logic/kanjiorder.ts:63-80 | The root "0" is node 0. Names are distinct, and `children` and `parents` mirror each other with equal multiplicity. The node of the k-th key has priority k, and its children name its connections in order. Every node that is no key keeps priority undefined and has no children. No flag is set, and every node is the root, a key or a connection |
| Registry.AddConnections | src/logic/kanjiorder.ts:72-77 | the inner loop gives the key node one child per connection, in order, each mirrored in that connection's `parents`, and keeps every fact above |
| Registry.StartEntry | src/logic/kanjiorder.ts:69-71 | looking up or adding the key and assigning its index as priority starts the inner loop's invariant |
| Registry.FindConnection | src/logic/kanjiorder.ts:74 | looking up or adding one connection keeps the inner loop's invariant |
| Registry.LinkConnection | src/logic/kanjiorder.ts:75-76 | the paired `addChild`/`addParent` extends the key node's children by that connection and keeps the invariant |
| Registry.FinishEntry | src/logic/kanjiorder.ts:68-78 | after all connections, one more entry is built |
| Registry.BuiltNone | src/logic/kanjiorder.ts:64-65 | the list holding only the root satisfies the invariant for zero entries |
| Registry.BuiltAll | src/logic/kanjiorder.ts:67-79 | after every entry, any node that is no key has no priority and no children |
| Registry.MirroredLink | src/logic/kanjiorder.ts:75-76 | adding `b` to `a.children` together with `a` to `b.parents` keeps the two directions equal in multiplicity |
| Registry.MirroredAppend | src/logic/kanjiorder.ts:52-53 | appending a bare node keeps the mirroring |
| Registry.MirroredInverse | src/logic/kanjiorder.ts:72-77 | with mirrored edges, `b` is a child of `a` exactly when `a` is a parent of `b` |
| Relevance.Target | src/logic/kanjiorder.ts:107 | `nodeList.find(x => x.name === kanji)`: a node with that name, absent exactly when no node has it |
| Relevance.Paint | src/logic/kanjiorder.ts:96-104 | A missing or already-relevant node returns at once, leaving the arena unchanged. Otherwise only `isRelevant` flags change, and only from false to true. The node ends relevant, and every newly marked node is reachable from it. The closure it keeps: a relevant node outside the pending set has only relevant children. The recursion ends on every graph, cyclic or not |
| Relevance.PaintTargets | src/logic/kanjiorder.ts:106-109 | Each target kanji is looked up and painted in turn, and targets with no node are skipped. Every found target ends relevant, and every newly marked node lies below some found target. Nodes that were already relevant before the loop are the only ones that may keep unmarked children |
| Relevance.PaintedExactly | src/logic/kanjiorder.ts:96-109 | starting from fresh flags, a node ends relevant if and only if it is reachable from a target kanji that has a node |
| Relevance.ClosedRelevant | src/logic/kanjiorder.ts:96-104 | starting from fresh flags, the relevant set is closed under `children` |
| Relevance.RaisesKeeps | src/logic/kanjiorder.ts:96-109 | raising relevance flags keeps names, priorities and every edge |
| Relevance.FirstNamedNames | src/logic/kanjiorder.ts:107 | flag changes do not change which node `find` returns for a name |
| KnownMarker.KnownMatch | src/logic/kanjiorder.ts:161-162 | the `if (match)` test: a name matches only if it is in the known list, and the empty string never matches because `find` returns it and `if` treats it as false |
| KnownMarker.PaintKnown | src/logic/kanjiorder.ts:158-171 | The node is added to the visited set, and only `isKnown` changes. Exactly the newly visited nodes whose names are listed get marked, and no flag is cleared. Each newly visited node is reachable from the start, and each node is visited at most once. The visited set stays closed except along the pending path, and the walk ends on every graph |
| KnownMarker.MarkKnown | src/logic/kanjiorder.ts:154-174 | the arena afterwards is `MarkedKnown`: every node reachable from the root whose name is in the known list, and only those, gets `isKnown`; nothing else changes |
| KnownMarker.VisitedReach | src/logic/kanjiorder.ts:166-170 | a finished visited set contains every node reachable from the root |
| KnownMarker.MarkedKnownIdempotent | src/logic/kanjiorder.ts:154-174 | marking twice from the same node gives the same arena as marking once |
| KnownMarker.MarkedKnownRaises | src/logic/kanjiorder.ts:162-164 | marking never clears `isKnown` and changes no other field |
| KnownMarker.KnownAfterKeeps | src/logic/kanjiorder.ts:158-171 | marking keeps names, priorities and every edge |
| PrioritySort.Key | src/logic/kanjiorder.ts:137-138 | `(x.priority || 0)`: the node's priority, or 0 when it is undefined |
| PrioritySort.Insert | src/logic/kanjiorder.ts:137 | inserting into a list adds exactly that element, as a multiset |
| PrioritySort.InsertSorted | src/logic/kanjiorder.ts:137 | inserting into a list sorted by `(priority || 0)` keeps it sorted |
| PrioritySort.SortByPriority | src/logic/kanjiorder.ts:137-138 | the stable sort by `(priority || 0)` is a permutation of its input and is non-decreasing in that key |
| PrioritySort.SortMembers | src/logic/kanjiorder.ts:137-138 | sorting keeps the length and the set of members |
| PrioritySort.SortOfSorted | src/logic/kanjiorder.ts:137-138 | sorting an already sorted list returns it unchanged |
| PrioritySort.SortIdempotent | src/logic/kanjiorder.ts:137-138 | sorting twice equals sorting once |
| PrioritySort.InsertWithKey | src/logic/kanjiorder.ts:137 | inserting an entry puts it ahead of every entry with the same key and keeps their order |
| PrioritySort.SortStable | src/logic/kanjiorder.ts:137-138 | the sort is stable: for every key, the entries with that key come out in their input order |
| PrioritySort.InsertDistinct | src/logic/kanjiorder.ts:137 | inserting a new entry into a list without repeats gives a list without repeats |
| PrioritySort.SortDistinct | src/logic/kanjiorder.ts:137-138 | sorting a list without repeats gives a list without repeats |
| PrioritySort.MapIndicesAt | src/logic/kanjiorder.ts:120-124 | the k-th entry of a copy list maps to the original of its k-th entry |
| PrioritySort.MapIndicesAppend | src/logic/kanjiorder.ts:123 | appending a copy appends its original |
| PrioritySort.InsertCommutes | src/logic/kanjiorder.ts:137 | when copies have their originals' priorities, inserting a copy corresponds to inserting its original |
| PrioritySort.SortCommutes | src/logic/kanjiorder.ts:137 | when copies have their originals' priorities, sorting a list of copies corresponds entry by entry to sorting the list of originals |
| PrioritySort.SortedMapIndices | src/logic/kanjiorder.ts:137 | under the same condition, a list of copies is sorted exactly when its list of originals is |
| PrioWalk.SortNode | src/logic/kanjiorder.ts:137-138 | the two `sort` calls on one node: both lists come out non-decreasing in `(priority || 0)` and are permutations of the old ones; no other field changes |
| PrioWalk.PrioWalker | src/logic/kanjiorder.ts:136-142 | the arena afterwards is `Prioritized`: every node reachable from the start has both lists sorted by priority, and every other node is unchanged |
| PrioWalk.PrioritizedSorts | src/logic/kanjiorder.ts:137-138 | each reachable node's `children` and `parents` come out non-decreasing in `(priority || 0)` and are permutations of the old arrays |
| PrioWalk.PrioritizedIdempotent | src/logic/kanjiorder.ts:136-142 | walking twice from the same node gives the same arena as walking once |
| PrioWalk.SortedOnKeeps | src/logic/kanjiorder.ts:137-138 | sorting some nodes' lists keeps names, priorities and reachability, and sorting those lists again changes nothing |
| PrioWalk.ChildWalked | src/logic/kanjiorder.ts:139-141 | walking one more child extends the sorted region by everything reachable from that child |
| PrioWalk.BelowCovered | src/logic/kanjiorder.ts:139-141 | once every child has been walked, everything reachable from the node is sorted |
| Subgraph.RelevantOnly | src/logic/kanjiorder.ts:120-121 | the children `relevantWalker` follows: a sub-list, whose members are exactly the relevant members of the children |
| Subgraph.CopyOf | src/logic/kanjiorder.ts:114-117 | the new node equals the original except that it has no edges yet: same name, `isRelevant`, `isKnown` and `priority` |
| Subgraph.RelevantWalker | src/logic/kanjiorder.ts:112-146 | The walker appends a block of new nodes whose first node copies `node`, leaving earlier nodes alone. Each copy has its original's name, priority and relevance. Its `isKnown` is the original's or set because its name is known. Its children are distinct fresh copies, one per relevant entry of the original's children, so a component listed twice is copied twice; they come in priority order. Every copy below the first has exactly one parent, the copy that created it, and is reachable from the first |
| Subgraph.CopyChildren | src/logic/kanjiorder.ts:120-126 | the loop over `node.children` leaves copy `cur` with one child per relevant child of the original, in order, each a distinct new copy, the root of its own finished copy, with `cur` as its only parent; copies before `cur` are untouched |
| Subgraph.CopyChild | src/logic/kanjiorder.ts:122-124 | one relevant child is copied by its own walk and linked below `cur` with `addChild` and `addParent`; the loop's state advances by that child |
| Subgraph.WalkingSkip | src/logic/kanjiorder.ts:121 | a child that is not relevant is skipped and the loop's state advances unchanged |
| Subgraph.DistinctSnoc | src/logic/kanjiorder.ts:123 | `addChild` with a copy newer than every existing child keeps the children distinct |
| Subgraph.LinkFrame | src/logic/kanjiorder.ts:75-76 | for any two arena nodes, forward, backward or a self-loop, linking `a` to `b` appends `b` to `a`'s children and `a` to `b`'s parents (both to the one node when `a == b`) and changes nothing else |
| Subgraph.AddKid | src/logic/kanjiorder.ts:121-124 | copying one relevant child and linking it below the current copy extends the copy's children by that child and keeps every finished copy finished |
| Subgraph.RelevantOnlySnoc | src/logic/kanjiorder.ts:120-121 | a child that is not relevant is skipped |
| Subgraph.MarkStep | src/logic/kanjiorder.ts:131 | after `markKnown` from the copy, each copy's `isKnown` is its original's or set by the known list |
| Subgraph.SortStep | src/logic/kanjiorder.ts:143 | after `prioWalker` from the copy, each copy's children are its original's relevant children in priority order |
| Subgraph.ChildRelevant | src/logic/kanjiorder.ts:120-124 | every child of a finished copy copies a relevant node |
| Subgraph.InnerRelevant | src/logic/kanjiorder.ts:119-126 | below its root, the subgraph holds only relevant copies of relevant nodes |
| Subgraph.ListedOnce | src/logic/kanjiorder.ts:119-126 | the copy is a tree: a copy is listed among the children of exactly one copy, its parent, and only once there |
| Subgraph.NothingRelevant | src/logic/kanjiorder.ts:149 | when no registry node is relevant, the root copy has no children |
| Subgraph.GetTargetSubgraph | src/logic/kanjiorder.ts:93-152 | The registry changes only in `isRelevant` flags, and only from false to true. Targets are painted as in `PaintTargets`. The new root is the copy of `allRoot`, and the copy from it is a finished subgraph in the sense of `RelevantWalker`. With no targets and fresh flags, the root copy has no children |
| KanjiOrder.SplitChars | src/logic/kanjiorder.ts:184-185 | `split('')` gives one single-character string per character, in order |
| KanjiOrder.SplitConcat | src/logic/kanjiorder.ts:184-185 | joining the split pieces gives the input back |
| KanjiOrder.KnownSplit | src/logic/kanjiorder.ts:161-162 | against the split known string, a name matches exactly when it is one character of that string |
| KanjiOrder.RegistryRanked | src/logic/kanjiorder.ts:63-80 | a topology ranked from keys down to connections builds a registry in which every edge falls in rank, so the graph is acyclic |
| KanjiOrder.GetKanjiOrder | src/logic/kanjiorder.ts:180-196 | The registry is built as `BuildDAG` states. After painting, a registry node is relevant exactly when it lies below a character of `kanjis` that has a node. The subgraph is rooted at the copy of node "0". Known copies are those the registry knew or whose name is a character of `known`. Every copy below the root is relevant. An empty `kanjis` gives a root with no children |

## Left out

- `topology.json` is a parameter: an ordered sequence of entries with distinct keys, in
  the order `Object.keys` yields them. JavaScript's key-ordering rules are not modelled.
- `String.split('')` splits by UTF-16 code unit. The model splits a Dafny string by
  character, with no surrogate handling.
- The `console.log` and `debugger` statements (lines 73, 191, 194) are not modelled.
- `KanjiOrder.GetKanjiOrder` returns the subgraph it would log, plus ghost views of the
  registry, in place of `void`, so that its contract can state what the pipeline
  computes.
- `KanjiOrder.GetKanjiOrder` requires a rank for the topology's names that falls from
  each key to its connections. The topology is meant to be acyclic (comment at line 8).
  The source's `relevantWalker` recurses without end only when a cycle of relevant nodes
  is reachable from the root. The rank excludes every cycle, so the model does not cover
  a topology with a cycle elsewhere, on which the source still ends.
- `Subgraph.RelevantWalker` and `Subgraph.GetTargetSubgraph` require a ghost rank that
  falls along every registry edge, for the same reason.
- The default `known = ""` of `getKanjiOrder` is not a separate entry point: it is
  `KanjiOrder.GetKanjiOrder` called with `""`, whose split list is empty, so no copy is
  marked known beyond the registry's own flags.
- `PrioWalk.PrioWalker` requires that every edge of the arena it sorts leads to a later
  node. The copy satisfies this; on a cyclic graph the source's `prioWalker` recurses
  without end.
- `Array.prototype.sort` is modelled as a stable insertion sort. That is exact for a
  stable engine sort, and its comparator is only ever compared with 0.
- `Registry.BuildDAG` requires distinct keys, which object keys always are.
- The `find` in `markKnown` returns the matched string, and `if` tests its truthiness.
  An empty string in the known list therefore never matches, and
  `KnownMarker.KnownMatch` says so. A split string never contains an empty string.
- `Relevance.PaintTargets` and `Registry.AddConnections` are separate methods for the
  target loop and the inner connection loop, with the same statements in the same order.
- `src/App.tsx` and `src/components/KanjiGraph.tsx` are user interface and are not part
  of this model.
- Aliasing between `Node` objects is represented by shared arena indices. The registry
  and the copy are separate arenas, just as the source allocates fresh nodes for the copy.
