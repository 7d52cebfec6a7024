/**
 The load order of the packaged dylibs (`src/environment.rs`): Kahn's algorithm over the binaries'
 dependency lists, for every order in which the HashMap may be iterated.

 Names need not be distinct: as in the source, a later binary of the same name takes over the
 index of an earlier one.
 */
module LoadOrder {
  import opened Wrappers

  datatype BinaryDependencyNode = BinaryDependencyNode(name: string, dependencies: seq<string>)

  /** `(dependency, dependent)` */
  type Edge = (nat, nat)

  const LIBRARY_PREFIX := "/usr/lib/"

  function StripLibraryPrefix(path: string): string {
    if LIBRARY_PREFIX <= path then path[|LIBRARY_PREFIX|..] else path
  }

  // ---------- The dependency relation, independently of the algorithm ----------

  /** The index a name stands for: its last occurrence among the first `n` binaries. */
  function NameIndex(graph: seq<BinaryDependencyNode>, n: nat): map<string, nat>
    requires n <= |graph|
  {
    if n == 0 then map[] else NameIndex(graph, n - 1)[graph[n - 1].name := n - 1]
  }

  /** `a` names a binary that lists a known binary `b` among its dependencies. */
  ghost predicate DependsOn(graph: seq<BinaryDependencyNode>, a: nat, b: nat) {
    var index := NameIndex(graph, |graph|);
    exists i: nat, j: nat {:trigger graph[i].dependencies[j]} ::
      && i < |graph| && j < |graph[i].dependencies|
      && graph[i].name in index && index[graph[i].name] == a
      && StripLibraryPrefix(graph[i].dependencies[j]) in index
      && index[StripLibraryPrefix(graph[i].dependencies[j])] == b
  }

  /** Every binary on the walk depends on the next one. */
  ghost predicate DependencyWalk(graph: seq<BinaryDependencyNode>, walk: seq<nat>) {
    forall i :: 0 <= i < |walk| - 1 ==> DependsOn(graph, walk[i], walk[i + 1])
  }

  ghost predicate IsCycle(graph: seq<BinaryDependencyNode>, walk: seq<nat>) {
    |walk| >= 2 && walk[0] == walk[|walk| - 1] && DependencyWalk(graph, walk)
  }

  ghost predicate Acyclic(graph: seq<BinaryDependencyNode>) {
    forall walk :: !IsCycle(graph, walk)
  }

  ghost predicate OnCycle(graph: seq<BinaryDependencyNode>, a: nat) {
    exists walk :: IsCycle(graph, walk) && walk[0] == a
  }

  /** Following dependencies from `a` can end in a cycle. */
  ghost predicate LeadsToCycle(graph: seq<BinaryDependencyNode>, a: nat) {
    exists walk, cycle ::
      && |walk| > 0 && walk[0] == a && DependencyWalk(graph, walk)
      && IsCycle(graph, cycle) && cycle[0] == walk[|walk| - 1]
  }

  ghost predicate Distinct(s: seq<nat>) {
    forall i, j :: 0 <= i < j < |s| ==> s[i] != s[j]
  }

  /** Every listed binary comes after all it depends on, which is listed too. */
  ghost predicate DependenciesFirst(graph: seq<BinaryDependencyNode>, order: seq<nat>) {
    forall i, b :: 0 <= i < |order| && DependsOn(graph, order[i], b) ==> b in order[..i]
  }

  /** A load order: every binary once, and each after everything it depends on. */
  ghost predicate IsLoadOrder(graph: seq<BinaryDependencyNode>, order: seq<nat>) {
    && Distinct(order)
    && (forall v :: v in order <==> v in NameIndex(graph, |graph|).Values)
    && DependenciesFirst(graph, order)
  }

  // ---------- The edge list the construction walks through ----------

  function EdgesOfNode(index: map<string, nat>, a: nat, dependencies: seq<string>, n: nat): seq<Edge>
    requires n <= |dependencies|
  {
    if n == 0 then [] else
      var dependency := StripLibraryPrefix(dependencies[n - 1]);
      EdgesOfNode(index, a, dependencies, n - 1) + (if dependency in index then [(index[dependency], a)] else [])
  }

  function EdgesUpTo(graph: seq<BinaryDependencyNode>, index: map<string, nat>, n: nat): seq<Edge>
    requires n <= |graph|
    requires forall i :: 0 <= i < |graph| ==> graph[i].name in index
  {
    if n == 0 then [] else
      EdgesUpTo(graph, index, n - 1)
      + EdgesOfNode(index, index[graph[n - 1].name], graph[n - 1].dependencies, |graph[n - 1].dependencies|)
  }

  function Edges(graph: seq<BinaryDependencyNode>): seq<Edge> {
    NameIndexKeys(graph, |graph|);
    EdgesUpTo(graph, NameIndex(graph, |graph|), |graph|)
  }

  /** The dependents of `d`, with repetition, in the order they were recorded. */
  function DependentsOf(edges: seq<Edge>, d: nat): seq<nat> {
    if edges == [] then [] else
      var rest, last := edges[..|edges| - 1], edges[|edges| - 1];
      DependentsOf(rest, d) + (if last.0 == d then [last.1] else [])
  }

  /** How many recorded edges into `v` start outside `done`. */
  function InDegree(edges: seq<Edge>, v: nat, done: set<nat>): nat {
    if edges == [] then 0 else
      var rest, last := edges[..|edges| - 1], edges[|edges| - 1];
      InDegree(rest, v, done) + (if last.1 == v && last.0 !in done then 1 else 0)
  }

  function Occurrences(s: seq<nat>, v: nat): nat {
    if s == [] then 0 else (if s[0] == v then 1 else 0) + Occurrences(s[1..], v)
  }

  // ---------- Lemmas about the edge list ----------

  lemma {:induction false} NameIndexKeys(graph: seq<BinaryDependencyNode>, n: nat)
    requires n <= |graph|
    ensures forall i :: 0 <= i < n ==> graph[i].name in NameIndex(graph, n)
    ensures forall name :: name in NameIndex(graph, n) ==>
                           NameIndex(graph, n)[name] < n && graph[NameIndex(graph, n)[name]].name == name
  {
    if n > 0 {
      NameIndexKeys(graph, n - 1);
    }
  }

  lemma {:induction false} EdgesOfNodeMembers(index: map<string, nat>, a: nat, dependencies: seq<string>, n: nat,
                                              e: Edge)
    requires n <= |dependencies|
    ensures e in EdgesOfNode(index, a, dependencies, n) <==>
            e.1 == a && exists j :: 0 <= j < n && StripLibraryPrefix(dependencies[j]) in index
                                    && index[StripLibraryPrefix(dependencies[j])] == e.0
  {
    if n > 0 {
      EdgesOfNodeMembers(index, a, dependencies, n - 1, e);
    }
  }

  lemma {:induction false} EdgesUpToMembers(graph: seq<BinaryDependencyNode>, index: map<string, nat>, n: nat, e: Edge)
    requires n <= |graph|
    requires forall i :: 0 <= i < |graph| ==> graph[i].name in index
    ensures e in EdgesUpTo(graph, index, n) <==>
            exists i :: 0 <= i < n &&
              e in EdgesOfNode(index, index[graph[i].name], graph[i].dependencies, |graph[i].dependencies|)
  {
    if n > 0 {
      EdgesUpToMembers(graph, index, n - 1, e);
    }
  }

  /** The recorded edges are exactly the dependency relation. */
  lemma EdgesAreDependencies(graph: seq<BinaryDependencyNode>, a: nat, b: nat)
    ensures (b, a) in Edges(graph) <==> DependsOn(graph, a, b)
  {
    NameIndexKeys(graph, |graph|);
    var index := NameIndex(graph, |graph|);
    EdgesUpToMembers(graph, index, |graph|, (b, a));
    if (b, a) in Edges(graph) {
      var i :| 0 <= i < |graph| &&
        (b, a) in EdgesOfNode(index, index[graph[i].name], graph[i].dependencies, |graph[i].dependencies|);
      EdgesOfNodeMembers(index, index[graph[i].name], graph[i].dependencies, |graph[i].dependencies|, (b, a));
      var j :| 0 <= j < |graph[i].dependencies| && StripLibraryPrefix(graph[i].dependencies[j]) in index
        && index[StripLibraryPrefix(graph[i].dependencies[j])] == b;
      assert graph[i].dependencies[j] == graph[i].dependencies[j];
    }
    if DependsOn(graph, a, b) {
      var i: nat, j: nat :| i < |graph| && j < |graph[i].dependencies|
        && graph[i].name in index && index[graph[i].name] == a
        && StripLibraryPrefix(graph[i].dependencies[j]) in index
        && index[StripLibraryPrefix(graph[i].dependencies[j])] == b;
      EdgesOfNodeMembers(index, a, graph[i].dependencies, |graph[i].dependencies|, (b, a));
    }
  }

  /** Both ends of an edge are known binaries. */
  lemma EdgeEnds(graph: seq<BinaryDependencyNode>, e: Edge)
    requires e in Edges(graph)
    ensures e.0 in NameIndex(graph, |graph|).Values && e.1 in NameIndex(graph, |graph|).Values
  {
    EdgesAreDependencies(graph, e.1, e.0);
    assert e == (e.0, e.1);
    var index := NameIndex(graph, |graph|);
    var i: nat, j: nat :| i < |graph| && j < |graph[i].dependencies|
      && graph[i].name in index && index[graph[i].name] == e.1
      && StripLibraryPrefix(graph[i].dependencies[j]) in index
      && index[StripLibraryPrefix(graph[i].dependencies[j])] == e.0;
  }

  lemma {:induction false} InDegreeZero(edges: seq<Edge>, v: nat, done: set<nat>)
    ensures InDegree(edges, v, done) == 0 <==> forall d :: (d, v) in edges ==> d in done
  {
    if edges != [] {
      var rest, last := edges[..|edges| - 1], edges[|edges| - 1];
      InDegreeZero(rest, v, done);
      assert edges == rest + [last];
      assert last == (last.0, last.1);
    }
  }

  lemma {:induction false} OccurrencesAppend(s: seq<nat>, t: seq<nat>, v: nat)
    ensures Occurrences(s + t, v) == Occurrences(s, v) + Occurrences(t, v)
  {
    if s == [] {
      assert s + t == t;
    } else {
      OccurrencesAppend(s[1..], t, v);
      assert (s + t)[1..] == s[1..] + t;
    }
  }

  /** Finishing `d` removes one unit of in-degree per recorded dependent of `d`. */
  lemma {:induction false} FinishingNode(edges: seq<Edge>, d: nat, v: nat, done: set<nat>)
    requires d !in done
    ensures InDegree(edges, v, done) == InDegree(edges, v, done + {d}) + Occurrences(DependentsOf(edges, d), v)
  {
    if edges != [] {
      var rest, last := edges[..|edges| - 1], edges[|edges| - 1];
      FinishingNode(rest, d, v, done);
      OccurrencesAppend(DependentsOf(rest, d), if last.0 == d then [last.1] else [], v);
    }
  }

  lemma {:induction false} DependentsAreEdges(edges: seq<Edge>, d: nat, v: nat)
    ensures v in DependentsOf(edges, d) <==> (d, v) in edges
  {
    if edges != [] {
      var rest, last := edges[..|edges| - 1], edges[|edges| - 1];
      DependentsAreEdges(rest, d, v);
      assert edges == rest + [last];
    }
  }

  // ---------- The algorithm ----------

  /** `node_to_index` (src/environment.rs:195-199). */
  method IndexNames(graph: seq<BinaryDependencyNode>) returns (index: map<string, nat>)
    ensures index == NameIndex(graph, |graph|)
  {
    index := map[];
    for i := 0 to |graph|
      invariant index == NameIndex(graph, i)
    {
      index := index[graph[i].name := i];
    }
  }

  function RecordedFor(dependents: map<nat, seq<nat>>, d: nat): seq<nat> {
    if d in dependents then dependents[d] else []
  }

  ghost predicate RecordsEdges(dependents: map<nat, seq<nat>>, inDegrees: map<nat, nat>, nodes: set<nat>,
                               edges: seq<Edge>)
  {
    && (forall d: nat :: RecordedFor(dependents, d) == DependentsOf(edges, d))
    && inDegrees.Keys == nodes
    && (forall v :: v in nodes ==> inDegrees[v] == InDegree(edges, v, {}))
  }

  lemma NothingRecorded(inDegrees: map<nat, nat>, nodes: set<nat>)
    requires inDegrees.Keys == nodes && forall v :: v in nodes ==> inDegrees[v] == 0
    ensures RecordsEdges(map[], inDegrees, nodes, [])
  {
  }

  lemma RecordEdge(dependents: map<nat, seq<nat>>, inDegrees: map<nat, nat>, nodes: set<nat>, edges: seq<Edge>, e: Edge)
    requires RecordsEdges(dependents, inDegrees, nodes, edges) && e.1 in nodes
    ensures RecordsEdges(dependents[e.0 := RecordedFor(dependents, e.0) + [e.1]],
                         inDegrees[e.1 := inDegrees[e.1] + 1], nodes, edges + [e])
  {
    var longer := edges + [e];
    assert longer[..|longer| - 1] == edges && longer[|longer| - 1] == e;
    forall d: nat ensures DependentsOf(longer, d) == DependentsOf(edges, d) + (if e.0 == d then [e.1] else []) {}
    forall v ensures InDegree(longer, v, {}) == InDegree(edges, v, {}) + (if e.1 == v then 1 else 0) {}
  }

  /** One dependency: ignored unless it is a packaged dylib. */
  method CountDependency(index: map<string, nat>, binIndex: nat, dependency: string,
                         ghost nodes: set<nat>, ghost edges: seq<Edge>,
                         dependentsBefore: map<nat, seq<nat>>, degreesBefore: map<nat, nat>)
    returns (dependents: map<nat, seq<nat>>, inDegrees: map<nat, nat>)
    requires binIndex in nodes && RecordsEdges(dependentsBefore, degreesBefore, nodes, edges)
    ensures RecordsEdges(dependents, inDegrees, nodes,
                         edges + (if dependency in index then [(index[dependency], binIndex)] else []))
  {
    dependents, inDegrees := dependentsBefore, degreesBefore;
    if dependency in index {
      var dylibIndex := index[dependency];
      dependents := dependents[dylibIndex := RecordedFor(dependents, dylibIndex) + [binIndex]];
      inDegrees := inDegrees[binIndex := inDegrees[binIndex] + 1];
      RecordEdge(dependentsBefore, degreesBefore, nodes, edges, (dylibIndex, binIndex));
    } else {
      assert edges + [] == edges;
    }
  }

  /** The inner loop: one binary's dependency list (src/environment.rs:207-227). */
  method CountDependenciesOf(index: map<string, nat>, binIndex: nat, dependencies: seq<string>,
                             ghost nodes: set<nat>, ghost edges: seq<Edge>,
                             dependentsBefore: map<nat, seq<nat>>, degreesBefore: map<nat, nat>)
    returns (dependents: map<nat, seq<nat>>, inDegrees: map<nat, nat>)
    requires binIndex in nodes
    requires RecordsEdges(dependentsBefore, degreesBefore, nodes, edges)
    ensures RecordsEdges(dependents, inDegrees, nodes,
                         edges + EdgesOfNode(index, binIndex, dependencies, |dependencies|))
  {
    dependents, inDegrees := dependentsBefore, degreesBefore;
    ghost var recorded := edges;
    assert edges + EdgesOfNode(index, binIndex, dependencies, 0) == edges;
    for j := 0 to |dependencies|
      invariant recorded == edges + EdgesOfNode(index, binIndex, dependencies, j)
      invariant RecordsEdges(dependents, inDegrees, nodes, recorded)
    {
      var dependency := StripLibraryPrefix(dependencies[j]);
      dependents, inDegrees := CountDependency(index, binIndex, dependency, nodes, recorded, dependents, inDegrees);
      recorded := recorded + (if dependency in index then [(index[dependency], binIndex)] else []);
    }
  }

  /** `node_dependents` and `node_in_degrees` (src/environment.rs:200-228). */
  method CountDependencies(graph: seq<BinaryDependencyNode>, index: map<string, nat>)
    returns (dependents: map<nat, seq<nat>>, inDegrees: map<nat, nat>)
    requires index == NameIndex(graph, |graph|)
    ensures RecordsEdges(dependents, inDegrees, index.Values, Edges(graph))
  {
    NameIndexKeys(graph, |graph|);
    dependents := map[];
    inDegrees := map v | v in index.Values :: 0;
    ghost var nodes := index.Values;
    NothingRecorded(inDegrees, nodes);
    for i := 0 to |graph|
      invariant RecordsEdges(dependents, inDegrees, nodes, EdgesUpTo(graph, index, i))
    {
      assert index[graph[i].name] in index.Values;
      ghost var edges := EdgesUpTo(graph, index, i);
      dependents, inDegrees := CountDependenciesOf(index, index[graph[i].name], graph[i].dependencies,
        nodes, edges, dependents, inDegrees);
    }
  }

  /** An order in which a HashMap with these keys may be iterated. */
  ghost predicate IterationOrder(order: seq<nat>, keys: set<nat>) {
    Distinct(order) && forall v :: v in order <==> v in keys
  }

  /** The leaves, in the order of the HashMap. */
  method CollectLeaves(order: seq<nat>, inDegrees: map<nat, nat>) returns (leaves: seq<nat>)
    requires IterationOrder(order, inDegrees.Keys)
    ensures forall v :: v in leaves <==> v in inDegrees && inDegrees[v] == 0
    ensures Distinct(leaves)
  {
    leaves := [];
    for k := 0 to |order|
      invariant forall v :: v in leaves <==> v in order[..k] && inDegrees[v] == 0
      invariant Distinct(leaves)
    {
      assert order[k] in order && order[..k + 1] == order[..k] + [order[k]];
      if inDegrees[order[k]] == 0 {
        leaves := leaves + [order[k]];
      }
    }
    assert order[..|order|] == order;
  }

  ghost function Elements(s: seq<nat>): set<nat> {
    set v | v in s
  }

  /** What holds whenever the work queue is about to be popped. */
  ghost predicate KahnInvariant(edges: seq<Edge>, nodes: set<nat>, inDegrees: map<nat, nat>, leaves: seq<nat>,
                                sorted: seq<nat>)
  {
    && inDegrees.Keys == nodes
    && (forall v :: v in nodes ==> inDegrees[v] == InDegree(edges, v, Elements(sorted)))
    && (forall v :: v in sorted || v in leaves <==> v in nodes && inDegrees[v] == 0)
    && Distinct(sorted + leaves)
    && OrderedPrefix(edges, sorted)
  }

  ghost predicate OrderedPrefix(edges: seq<Edge>, sorted: seq<nat>) {
    forall i, d :: 0 <= i < |sorted| && (d, sorted[i]) in edges ==> d in sorted[..i]
  }

  lemma DistinctMiddle(s: seq<nat>, v: nat, t: seq<nat>)
    requires Distinct(s + ([v] + t))
    ensures v !in s
  {
    var all := s + ([v] + t);
    assert all[|s|] == v;
    forall i | 0 <= i < |s| ensures s[i] != v {
      assert all[i] == s[i];
    }
  }

  lemma DistinctAppend(s: seq<nat>, t: seq<nat>, v: nat)
    requires Distinct(s + t) && v !in s && v !in t
    ensures Distinct(s + (t + [v]))
  {
    assert s + (t + [v]) == (s + t) + [v];
  }

  lemma OrderedExtend(edges: seq<Edge>, sorted: seq<nat>, node: nat)
    requires OrderedPrefix(edges, sorted) && InDegree(edges, node, Elements(sorted)) == 0
    ensures OrderedPrefix(edges, sorted + [node])
  {
    var longer := sorted + [node];
    forall i, d | 0 <= i < |longer| && (d, longer[i]) in edges ensures d in longer[..i] {
      if i < |sorted| {
        assert longer[i] == sorted[i] && longer[..i] == sorted[..i];
      } else {
        InDegreeZero(edges, node, Elements(sorted));
        assert longer[..i] == sorted;
      }
    }
  }

  /** One popped node: decrement each recorded dependent (src/environment.rs:243-254). */
  method ReleaseDependents(ghost edges: seq<Edge>, ghost nodes: set<nat>, node: nat, dependents: seq<nat>,
                           degreesBefore: map<nat, nat>, leavesBefore: seq<nat>, ghost sortedBefore: seq<nat>)
    returns (inDegrees: map<nat, nat>, leaves: seq<nat>)
    requires forall e :: e in edges ==> e.0 in nodes && e.1 in nodes
    requires KahnInvariant(edges, nodes, degreesBefore, [node] + leavesBefore, sortedBefore)
    requires dependents == DependentsOf(edges, node)
    ensures KahnInvariant(edges, nodes, inDegrees, leaves, sortedBefore + [node])
  {
    inDegrees, leaves := degreesBefore, leavesBefore;
    ghost var sorted := sortedBefore + [node];
    ghost var done := Elements(sorted);
    assert done == Elements(sortedBefore) + {node};
    assert node in [node] + leavesBefore;
    DistinctMiddle(sortedBefore, node, leavesBefore);
    OrderedExtend(edges, sortedBefore, node);
    assert sorted + leaves == sortedBefore + ([node] + leavesBefore);
    forall v
      ensures InDegree(edges, v, Elements(sortedBefore)) == InDegree(edges, v, done) + Occurrences(dependents, v)
    {
      FinishingNode(edges, node, v, Elements(sortedBefore));
    }
    assert dependents[0..] == dependents;
    for j := 0 to |dependents|
      invariant StillToRelease(edges, nodes, done, inDegrees, dependents[j..])
      invariant forall v :: v in sorted || v in leaves <==> v in nodes && inDegrees[v] == 0
      invariant Distinct(sorted + leaves)
    {
      var dependant := dependents[j];
      DependentsAreEdges(edges, node, dependant);
      assert (node, dependant) in edges;
      ReleaseOne(edges, nodes, done, inDegrees, dependents, j);
      inDegrees := inDegrees[dependant := inDegrees[dependant] - 1];
      if inDegrees[dependant] == 0 {
        DistinctAppend(sorted, leaves, dependant);
        leaves := leaves + [dependant];
      }
    }
  }

  /** The in-degrees still count one unit for each of the `remaining` dependents. */
  ghost predicate StillToRelease(edges: seq<Edge>, nodes: set<nat>, done: set<nat>, inDegrees: map<nat, nat>,
                                 remaining: seq<nat>)
  {
    && inDegrees.Keys == nodes
    && forall v :: v in nodes ==> inDegrees[v] == InDegree(edges, v, done) + Occurrences(remaining, v)
  }

  lemma ReleaseOne(edges: seq<Edge>, nodes: set<nat>, done: set<nat>, inDegrees: map<nat, nat>, dependents: seq<nat>,
                   j: nat)
    requires j < |dependents| && dependents[j] in nodes
    requires StillToRelease(edges, nodes, done, inDegrees, dependents[j..])
    ensures inDegrees[dependents[j]] > 0
    ensures StillToRelease(edges, nodes, done, inDegrees[dependents[j] := inDegrees[dependents[j]] - 1],
                           dependents[j + 1..])
  {
    NextOccurrence(dependents, j);
  }

  lemma NextOccurrence(s: seq<nat>, j: nat)
    requires j < |s|
    ensures forall v :: Occurrences(s[j..], v) == (if v == s[j] then 1 else 0) + Occurrences(s[j + 1..], v)
  {
    assert s[j..][1..] == s[j + 1..];
  }

  /** The first binary of `order` that leads to a cycle is `order[k]`. */
  ghost predicate FirstToCycle(graph: seq<BinaryDependencyNode>, order: seq<nat>, k: nat) {
    && k < |order| && LeadsToCycle(graph, order[k])
    && forall j :: 0 <= j < k ==> !LeadsToCycle(graph, order[j])
  }

  /**
   The whole sort. `Err` carries the name that the message mentions: that of the first binary, in the
   order of the HashMap, from which dependencies lead to a cycle. So every such binary is the one
   reported for some order, and no other is.
   */
  method GenerateBinaryLoadOrder(graph: seq<BinaryDependencyNode>, order: seq<nat>)
    returns (result: Result<seq<nat>, string>)
    requires IterationOrder(order, NameIndex(graph, |graph|).Values)
    ensures result.Ok? <==> Acyclic(graph)
    ensures result.Ok? ==> IsLoadOrder(graph, result.value) && ListedFirst(graph, result.value)
    ensures result.Err? ==>
              exists k: nat :: FirstToCycle(graph, order, k) && order[k] < |graph|
                  && graph[order[k]].name == result.error
  {
    var index := IndexNames(graph);
    var dependents, inDegrees := CountDependencies(graph, index);
    var leaves := CollectLeaves(order, inDegrees);
    var sorted: seq<nat> := [];
    ghost var edges, nodes := Edges(graph), index.Values;
    forall e | e in edges ensures e.0 in nodes && e.1 in nodes { EdgeEnds(graph, e); }
    KahnStart(edges, nodes, inDegrees, leaves);
    while leaves != []
      invariant KahnInvariant(edges, nodes, inDegrees, leaves, sorted)
      decreases nodes - Elements(sorted)
    {
      KahnPop(edges, nodes, inDegrees, leaves, sorted);
      var node := leaves[0];
      inDegrees, leaves := ReleaseDependents(edges, nodes, node, RecordedFor(dependents, node), inDegrees, leaves[1..],
                                             sorted);
      sorted := sorted + [node];
    }
    KahnEnd(graph, inDegrees, sorted);
    var stuck := FindUnsorted(graph, order, inDegrees, sorted);
    if stuck.Some? {
      NameIndexKeys(graph, |graph|);
      UnsortedLeadsToCycle(graph, sorted, order[stuck.value]);
      return Err(graph[order[stuck.value]].name);
    }
    OrderedMeansAcyclic(graph, sorted);
    OrderedByPaths(graph, sorted);
    return Ok(sorted);
  }

  /** The search for a node with in-degree left (src/environment.rs:257). */
  method FindUnsorted(graph: seq<BinaryDependencyNode>, order: seq<nat>, inDegrees: map<nat, nat>,
                      ghost sorted: seq<nat>)
    returns (k: Option<nat>)
    requires KahnDone(graph, sorted) && inDegrees.Keys == NameIndex(graph, |graph|).Values
    requires forall v :: v in inDegrees ==> (inDegrees[v] > 0 <==> v !in sorted)
    requires IterationOrder(order, inDegrees.Keys)
    ensures k.Some? ==> FirstToCycle(graph, order, k.value) && order[k.value] in inDegrees
    ensures k.None? ==> forall v :: v in inDegrees ==> v in sorted
  {
    for i := 0 to |order|
      invariant forall j :: 0 <= j < i ==> order[j] in sorted && !LeadsToCycle(graph, order[j])
    {
      assert order[i] in order;
      UnsortedLeadsToCycle(graph, sorted, order[i]);
      if inDegrees[order[i]] > 0 {
        return Some(i);
      }
    }
    return None;
  }

  /** What is left to say once the queue is empty: exactly the sorted binaries have no in-degree left. */
  ghost predicate KahnDone(graph: seq<BinaryDependencyNode>, sorted: seq<nat>) {
    && Distinct(sorted) && OrderedPrefix(Edges(graph), sorted)
    && (forall v :: v in sorted ==> v in NameIndex(graph, |graph|).Values)
    && (forall v :: Stuck(graph, sorted, v) ==> InDegree(Edges(graph), v, Elements(sorted)) > 0)
  }

  lemma KahnEnd(graph: seq<BinaryDependencyNode>, inDegrees: map<nat, nat>, sorted: seq<nat>)
    requires KahnInvariant(Edges(graph), NameIndex(graph, |graph|).Values, inDegrees, [], sorted)
    ensures KahnDone(graph, sorted)
    ensures forall v :: v in inDegrees ==> (inDegrees[v] > 0 <==> v !in sorted)
  {
    UnsortedHaveDegree(Edges(graph), NameIndex(graph, |graph|).Values, inDegrees, sorted);
  }

  lemma UnsortedHaveDegree(edges: seq<Edge>, nodes: set<nat>, inDegrees: map<nat, nat>, sorted: seq<nat>)
    requires KahnInvariant(edges, nodes, inDegrees, [], sorted)
    ensures Distinct(sorted) && OrderedPrefix(edges, sorted) && inDegrees.Keys == nodes
    ensures forall v :: v in sorted ==> v in nodes
    ensures forall v :: v in inDegrees ==> (inDegrees[v] > 0 <==> v !in sorted)
    ensures forall v :: v in nodes && v !in sorted ==> InDegree(edges, v, Elements(sorted)) > 0
  {
    assert sorted + [] == sorted;
  }

  lemma KahnStart(edges: seq<Edge>, nodes: set<nat>, inDegrees: map<nat, nat>, leaves: seq<nat>)
    requires inDegrees.Keys == nodes
    requires forall v :: v in nodes ==> inDegrees[v] == InDegree(edges, v, {})
    requires forall v :: v in leaves <==> v in inDegrees && inDegrees[v] == 0
    requires Distinct(leaves)
    ensures KahnInvariant(edges, nodes, inDegrees, leaves, [])
  {
    assert Elements([]) == {} && [] + leaves == leaves;
  }

  lemma KahnPop(edges: seq<Edge>, nodes: set<nat>, inDegrees: map<nat, nat>, leaves: seq<nat>, sorted: seq<nat>)
    requires KahnInvariant(edges, nodes, inDegrees, leaves, sorted) && leaves != []
    ensures leaves == [leaves[0]] + leaves[1..] && leaves[0] in nodes
    ensures Elements(sorted + [leaves[0]]) == Elements(sorted) + {leaves[0]} && leaves[0] !in Elements(sorted)
  {
    assert leaves == [leaves[0]] + leaves[1..];
    DistinctMiddle(sorted, leaves[0], leaves[1..]);
    assert leaves[0] in leaves;
  }

  // ---------- Why the outcome is right ----------

  lemma EdgesForward(graph: seq<BinaryDependencyNode>, sorted: seq<nat>)
    requires OrderedPrefix(Edges(graph), sorted)
    ensures DependenciesFirst(graph, sorted)
  {
    forall i, b | 0 <= i < |sorted| && DependsOn(graph, sorted[i], b) ensures b in sorted[..i] {
      EdgesAreDependencies(graph, sorted[i], b);
    }
  }

  ghost function PositionOf(s: seq<nat>, v: nat): (p: nat)
    requires v in s
    ensures p < |s| && s[p] == v
  {
    var p: nat :| p < |s| && s[p] == v; p
  }

  /** Along a dependency walk, positions in such a list strictly decrease. */
  lemma {:induction false} WalkDescends(graph: seq<BinaryDependencyNode>, order: seq<nat>, walk: seq<nat>)
    requires Distinct(order) && DependenciesFirst(graph, order)
    requires |walk| >= 2 && walk[0] in order && DependencyWalk(graph, walk)
    ensures walk[|walk| - 1] in order
    ensures PositionOf(order, walk[|walk| - 1]) < PositionOf(order, walk[0])
  {
    assert DependsOn(graph, walk[0], walk[0 + 1]);
    var p := PositionOf(order, walk[0]);
    assert walk[1] in order[..p];
    if |walk| > 2 {
      forall i | 0 <= i < |walk[1..]| - 1 ensures DependsOn(graph, walk[1..][i], walk[1..][i + 1]) {
        assert DependsOn(graph, walk[i + 1], walk[i + 1 + 1]);
      }
      WalkDescends(graph, order, walk[1..]);
    }
  }

  /** Nothing on a cycle can be listed that way, nor anything that leads to one. */
  lemma ListedLeadsNowhere(graph: seq<BinaryDependencyNode>, order: seq<nat>, a: nat)
    requires Distinct(order) && DependenciesFirst(graph, order) && a in order
    ensures !LeadsToCycle(graph, a)
  {
    forall walk, cycle | |walk| > 0 && walk[0] == a && DependencyWalk(graph, walk) && IsCycle(graph, cycle)
      ensures cycle[0] != walk[|walk| - 1]
    {
      if |walk| >= 2 {
        WalkDescends(graph, order, walk);
      }
      if cycle[0] == walk[|walk| - 1] {
        WalkDescends(graph, order, cycle);
      }
    }
  }

  /** A load order exists only for an acyclic relation. */
  lemma LoadOrderMeansAcyclic(graph: seq<BinaryDependencyNode>, order: seq<nat>)
    requires IsLoadOrder(graph, order)
    ensures Acyclic(graph)
  {
    forall walk ensures !IsCycle(graph, walk) {
      if IsCycle(graph, walk) {
        DependentIsKnown(graph, walk[0], walk[0 + 1]);
        WalkDescends(graph, order, walk);
      }
    }
  }

  lemma DependentIsKnown(graph: seq<BinaryDependencyNode>, a: nat, b: nat)
    requires DependsOn(graph, a, b)
    ensures a in NameIndex(graph, |graph|).Values
  {
    EdgesAreDependencies(graph, a, b);
    EdgeEnds(graph, (b, a));
  }

  lemma OrderedMeansAcyclic(graph: seq<BinaryDependencyNode>, sorted: seq<nat>)
    requires KahnDone(graph, sorted) && forall v :: v in NameIndex(graph, |graph|).Values ==> v in sorted
    ensures IsLoadOrder(graph, sorted) && Acyclic(graph)
  {
    EdgesForward(graph, sorted);
    LoadOrderMeansAcyclic(graph, sorted);
  }

  /** Binaries that keep unfinished dependencies always have one that is itself unfinished. */
  ghost predicate Stuck(graph: seq<BinaryDependencyNode>, sorted: seq<nat>, v: nat) {
    v in NameIndex(graph, |graph|).Values && v !in sorted
  }

  lemma StuckHasStuckDependency(graph: seq<BinaryDependencyNode>, sorted: seq<nat>, v: nat) returns (d: nat)
    requires forall u :: Stuck(graph, sorted, u) ==> InDegree(Edges(graph), u, Elements(sorted)) > 0
    requires Stuck(graph, sorted, v)
    ensures Stuck(graph, sorted, d) && DependsOn(graph, v, d)
  {
    InDegreeZero(Edges(graph), v, Elements(sorted));
    d :| (d, v) in Edges(graph) && d !in Elements(sorted);
    EdgeEnds(graph, (d, v));
    EdgesAreDependencies(graph, v, d);
  }

  /** So dependency walks among them can be made as long as we like. */
  lemma {:induction false} StuckWalk(graph: seq<BinaryDependencyNode>, sorted: seq<nat>, v: nat, n: nat)
    returns (walk: seq<nat>)
    requires forall u :: Stuck(graph, sorted, u) ==> InDegree(Edges(graph), u, Elements(sorted)) > 0
    requires Stuck(graph, sorted, v)
    ensures |walk| == n + 1 && walk[0] == v && DependencyWalk(graph, walk)
    ensures forall u :: u in walk ==> Stuck(graph, sorted, u)
    decreases n
  {
    if n == 0 {
      walk := [v];
    } else {
      var d := StuckHasStuckDependency(graph, sorted, v);
      var rest := StuckWalk(graph, sorted, d, n - 1);
      walk := [v] + rest;
      forall i | 0 <= i < |walk| - 1 ensures DependsOn(graph, walk[i], walk[i + 1]) {
        if i > 0 {
          assert DependsOn(graph, rest[i - 1], rest[i - 1 + 1]);
        }
      }
    }
  }

  /** A sequence over a set, longer than the set is large, repeats an element. */
  lemma {:induction false} Pigeonhole(s: seq<nat>, universe: set<nat>) returns (i: nat, j: nat)
    requires |s| > |universe|
    requires forall v :: v in s ==> v in universe
    ensures i < j < |s| && s[i] == s[j]
    decreases |s|
  {
    var last := s[|s| - 1];
    var rest := s[..|s| - 1];
    if k :| 0 <= k < |rest| && rest[k] == last {
      i, j := k, |s| - 1;
    } else {
      assert last in universe;
      forall v | v in rest ensures v in universe - {last} {
        assert v in s;
      }
      i, j := Pigeonhole(rest, universe - {last});
    }
  }

  lemma StuckMeansCycle(graph: seq<BinaryDependencyNode>, sorted: seq<nat>, v: nat)
    requires forall u :: Stuck(graph, sorted, u) ==> InDegree(Edges(graph), u, Elements(sorted)) > 0
    requires Stuck(graph, sorted, v)
    ensures LeadsToCycle(graph, v) && !Acyclic(graph)
  {
    var nodes := NameIndex(graph, |graph|).Values;
    var walk := StuckWalk(graph, sorted, v, |nodes|);
    var i, j := Pigeonhole(walk, nodes);
    var lead, cycle := walk[..i + 1], walk[i..j + 1];
    forall k | 0 <= k < |lead| - 1 ensures DependsOn(graph, lead[k], lead[k + 1]) {
      assert DependsOn(graph, walk[k], walk[k + 1]);
    }
    forall k | 0 <= k < |cycle| - 1 ensures DependsOn(graph, cycle[k], cycle[k + 1]) {
      assert DependsOn(graph, walk[i + k], walk[i + k + 1]);
    }
    assert IsCycle(graph, cycle) && cycle[0] == lead[|lead| - 1];
  }

  /** A known binary stays unsorted exactly if its dependencies lead to a cycle. */
  lemma UnsortedLeadsToCycle(graph: seq<BinaryDependencyNode>, sorted: seq<nat>, v: nat)
    requires KahnDone(graph, sorted) && v in NameIndex(graph, |graph|).Values
    ensures v !in sorted <==> LeadsToCycle(graph, v)
    ensures v !in sorted ==> !Acyclic(graph)
  {
    if v in sorted {
      EdgesForward(graph, sorted);
      ListedLeadsNowhere(graph, sorted, v);
    } else {
      assert Stuck(graph, sorted, v);
      StuckMeansCycle(graph, sorted, v);
    }
  }

  /** With distinct names every binary is its own index, so an order lists all of `0..|graph|`. */
  lemma DistinctNamesCoverAll(graph: seq<BinaryDependencyNode>, order: seq<nat>)
    requires forall i, j :: 0 <= i < j < |graph| ==> graph[i].name != graph[j].name
    requires IsLoadOrder(graph, order)
    ensures forall v: nat :: v in order <==> v < |graph|
  {
    NameIndexKeys(graph, |graph|);
    var index := NameIndex(graph, |graph|);
    forall v: nat ensures v in index.Values <==> v < |graph| {
      if v < |graph| {
        var k := index[graph[v].name];
        assert graph[k].name == graph[v].name;
        assert k == v;
        assert v in index.Values;
      }
    }
  }

  // ---------- Paths and names ----------

  /** A dependency path stands for the packaged binary of that name, with the library directory or without. */
  predicate StandsFor(path: string, name: string) {
    path == "/usr/lib/" + name || (path == name && !("/usr/lib/" <= name))
  }

  lemma StripsToName(path: string, name: string)
    ensures StripLibraryPrefix(path) == name <==> StandsFor(path, name)
  {
    var prefix := "/usr/lib/";
    assert prefix <= path ==> path == prefix + path[|prefix|..];
    assert (prefix + name)[|prefix|..] == name;
  }

  /** Of the first `n` binaries, `a` is the last one of that name. */
  predicate LastAmong(graph: seq<BinaryDependencyNode>, n: nat, name: string, a: nat)
    requires n <= |graph|
  {
    a < n && graph[a].name == name && forall i :: a < i < n ==> graph[i].name != name
  }

  predicate LastNamed(graph: seq<BinaryDependencyNode>, name: string, a: nat) {
    LastAmong(graph, |graph|, name, a)
  }

  lemma {:induction false} IndexIsLast(graph: seq<BinaryDependencyNode>, n: nat, name: string, a: nat)
    requires n <= |graph|
    ensures name in NameIndex(graph, n) && NameIndex(graph, n)[name] == a <==> LastAmong(graph, n, name, a)
  {
    if n > 0 {
      IndexIsLast(graph, n - 1, name, a);
    }
  }

  lemma NamedByIndex(graph: seq<BinaryDependencyNode>, name: string, a: nat)
    ensures var index := NameIndex(graph, |graph|); name in index && index[name] == a <==> LastNamed(graph, name, a)
  {
    IndexIsLast(graph, |graph|, name, a);
  }

  /** Binary `i` lists, at place `j`, a path that stands for binary `b`; `a` goes by the name of binary `i`. */
  predicate Lists(graph: seq<BinaryDependencyNode>, a: nat, b: nat, i: nat, j: nat) {
    && i < |graph| && b < |graph| && j < |graph[i].dependencies|
    && LastNamed(graph, graph[i].name, a) && LastNamed(graph, graph[b].name, b)
    && StandsFor(graph[i].dependencies[j], graph[b].name)
  }

  /** The dependency relation, in terms of the paths that are listed. */
  lemma DependenciesAreListed(graph: seq<BinaryDependencyNode>, a: nat, b: nat)
    ensures DependsOn(graph, a, b) <==> exists i: nat, j: nat :: Lists(graph, a, b, i, j)
  {
    var index := NameIndex(graph, |graph|);
    if DependsOn(graph, a, b) {
      var i: nat, j: nat :|
        && i < |graph| && j < |graph[i].dependencies|
        && graph[i].name in index && index[graph[i].name] == a
        && StripLibraryPrefix(graph[i].dependencies[j]) in index
        && index[StripLibraryPrefix(graph[i].dependencies[j])] == b;
      var name := StripLibraryPrefix(graph[i].dependencies[j]);
      NamedByIndex(graph, graph[i].name, a);
      NamedByIndex(graph, name, b);
      StripsToName(graph[i].dependencies[j], name);
      assert Lists(graph, a, b, i, j);
    }
    if i: nat, j: nat :| Lists(graph, a, b, i, j) {
      NamedByIndex(graph, graph[i].name, a);
      NamedByIndex(graph, graph[b].name, b);
      StripsToName(graph[i].dependencies[j], graph[b].name);
    }
  }

  /** Every binary comes after those whose paths it lists. */
  ghost predicate ListedFirst(graph: seq<BinaryDependencyNode>, order: seq<nat>) {
    forall k, b: nat, i: nat, j: nat ::
      0 <= k < |order| && Lists(graph, order[k], b, i, j) ==> b in order[..k]
  }

  lemma OrderedByPaths(graph: seq<BinaryDependencyNode>, order: seq<nat>)
    requires DependenciesFirst(graph, order)
    ensures ListedFirst(graph, order)
  {
    forall k, b: nat, i: nat, j: nat | 0 <= k < |order| && Lists(graph, order[k], b, i, j)
      ensures b in order[..k]
    {
      DependenciesAreListed(graph, order[k], b);
    }
  }

  /** In particular, with distinct names, `k` comes before `i` if `i` lists the library path of `k`. */
  lemma LibraryComesFirst(graph: seq<BinaryDependencyNode>, order: seq<nat>, i: nat, j: nat, k: nat)
    returns (at: nat, before: nat)
    requires forall p, q :: 0 <= p < q < |graph| ==> graph[p].name != graph[q].name
    requires IsLoadOrder(graph, order) && i < |graph| && k < |graph| && j < |graph[i].dependencies|
    requires graph[i].dependencies[j] == "/usr/lib/" + graph[k].name
    ensures before < at < |order| && order[before] == k && order[at] == i
  {
    DistinctNamesCoverAll(graph, order);
    OrderedByPaths(graph, order);
    assert i in order && Lists(graph, i, k, i, j);
    at :| 0 <= at < |order| && order[at] == i;
    assert k in order[..at];
    before :| 0 <= before < at && order[..at][before] == k;
  }

  // ---------- Whether the reported binary is on a cycle ----------

  /**
   The message says "cycle with <name>", and that binary is on a cycle whatever the order of the
   HashMap exactly if no binary off the cycles depends on one that is on a cycle.
   */
  lemma ReportsAreOnCycles(graph: seq<BinaryDependencyNode>)
    ensures (forall a: nat :: LeadsToCycle(graph, a) ==> OnCycle(graph, a)) <==>
            (forall a: nat, b: nat :: DependsOn(graph, a, b) && OnCycle(graph, b) ==> OnCycle(graph, a))
  {
    forall a: nat, b: nat | DependsOn(graph, a, b) && OnCycle(graph, b) ensures LeadsToCycle(graph, a) {
      var cycle :| IsCycle(graph, cycle) && cycle[0] == b;
      assert DependencyWalk(graph, [a, b]) && [a, b][|[a, b]| - 1] == cycle[0];
    }
    if forall a: nat, b: nat :: DependsOn(graph, a, b) && OnCycle(graph, b) ==> OnCycle(graph, a) {
      forall a: nat | LeadsToCycle(graph, a) ensures OnCycle(graph, a) {
        var walk, cycle :| |walk| > 0 && walk[0] == a && DependencyWalk(graph, walk)
          && IsCycle(graph, cycle) && cycle[0] == walk[|walk| - 1];
        CyclesReachBack(graph, walk);
      }
    }
  }

  lemma {:induction false} CyclesReachBack(graph: seq<BinaryDependencyNode>, walk: seq<nat>)
    requires forall a: nat, b: nat :: DependsOn(graph, a, b) && OnCycle(graph, b) ==> OnCycle(graph, a)
    requires |walk| > 0 && DependencyWalk(graph, walk) && OnCycle(graph, walk[|walk| - 1])
    ensures OnCycle(graph, walk[0])
    decreases |walk|
  {
    if |walk| > 1 {
      assert DependsOn(graph, walk[0], walk[0 + 1]);
      forall i | 0 <= i < |walk[1..]| - 1 ensures DependsOn(graph, walk[1..][i], walk[1..][i + 1]) {
        assert DependsOn(graph, walk[i + 1], walk[i + 1 + 1]);
      }
      CyclesReachBack(graph, walk[1..]);
    }
  }

  /** `app` is stuck behind `lib`, which depends on itself; nothing depends on `app`. */
  function OffCycleGraph(): seq<BinaryDependencyNode> {
    [BinaryDependencyNode("app", ["/usr/lib/lib"]), BinaryDependencyNode("lib", ["lib"])]
  }

  lemma OffCycleIndex()
    ensures NameIndex(OffCycleGraph(), 2) == map["app" := 0, "lib" := 1]
    ensures IterationOrder([0, 1], NameIndex(OffCycleGraph(), 2).Values)
  {
    var index := NameIndex(OffCycleGraph(), 2);
    assert NameIndex(OffCycleGraph(), 1) == map["app" := 0];
    assert index["app"] == 0 && index["lib"] == 1;
  }

  lemma OffCycleDependencies()
    ensures DependsOn(OffCycleGraph(), 0, 1) && DependsOn(OffCycleGraph(), 1, 1)
    ensures forall a: nat :: !DependsOn(OffCycleGraph(), a, 0)
  {
    var graph := OffCycleGraph();
    OffCycleIndex();
    assert graph[0].dependencies[0] == "/usr/lib/lib" && graph[1].dependencies[0] == "lib";
    assert StripLibraryPrefix(graph[0].dependencies[0]) == "lib" == StripLibraryPrefix(graph[1].dependencies[0]);
  }

  lemma AppIsOffCycle()
    ensures LeadsToCycle(OffCycleGraph(), 0) && !OnCycle(OffCycleGraph(), 0)
  {
    var graph := OffCycleGraph();
    OffCycleDependencies();
    assert IsCycle(graph, [1, 1]);
    assert DependencyWalk(graph, [0, 1]) && [0, 1][|[0, 1]| - 1] == [1, 1][0];
    forall walk | IsCycle(graph, walk) ensures walk[0] != 0 {
      var k := |walk| - 2;
      assert DependsOn(graph, walk[k], walk[k + 1]);
    }
  }

  /** The sort itself reports `app` for this input when the HashMap yields it first. */
  method ReportedBinaryMayBeOffCycle() returns (result: Result<seq<nat>, string>)
    ensures result == Err("app") && OffCycleGraph()[0].name == "app" && !OnCycle(OffCycleGraph(), 0)
  {
    OffCycleIndex();
    AppIsOffCycle();
    result := GenerateBinaryLoadOrder(OffCycleGraph(), [0, 1]);
    assert result.Err? by {
      AppLeadsToCycle();
    }
    ghost var k: nat :| FirstToCycle(OffCycleGraph(), [0, 1], k) && OffCycleGraph()[[0, 1][k]].name == result.error;
    assert LeadsToCycle(OffCycleGraph(), [0, 1][0]);
  }

  lemma AppLeadsToCycle()
    ensures !Acyclic(OffCycleGraph())
  {
    OffCycleDependencies();
    assert IsCycle(OffCycleGraph(), [1, 1]);
  }
}
