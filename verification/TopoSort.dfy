/** The ordering loop of dsh/scripts/package-graph.ts, and what its output means. */
module TopoSort {

  import opened Digraph
  import opened ComponentSearch
  import opened SinkCycles
  import opened PackageGraph

  // --------------------------------------------------------------- specification

  ghost function GraphOf(all: Packages): Graph {
    map k | k in all :: all[k].deps
  }

  /** The graph among the packages not placed yet. */
  function RestGraph(all: Packages, placed: set<string>): Graph {
    map k | k in all && k !in placed :: all[k].deps
  }

  ghost predicate Closed(all: Packages) {
    forall k, d | k in all && d in all[k].deps :: d in all
  }

  predicate DepsPlaced(all: Packages, placed: set<string>, k: string)
    requires k in all
  {
    forall d | d in all[k].deps :: d in placed
  }

  ghost function Ready(all: Packages, placed: set<string>): set<string> {
    set k | k in all && k !in placed && DepsPlaced(all, placed, k)
  }

  /** `c` is a cyclic sink component of the rest, and holds a least member of them all. */
  ghost predicate LeastSinkCycle(all: Packages, cmp: Comparator, placed: set<string>, first: string, c: set<string>)
    requires first in all
  {
    && IsSinkCycle(RestGraph(all, placed), c)
    && first in c
    && forall o, v | IsSinkCycle(RestGraph(all, placed), o) && v in o && v in all :: cmp(all[first], all[v]) <= 0
  }

  /** One round of the ordering loop. */
  ghost predicate IsBatch(all: Packages, cmp: Comparator, placed: set<string>, batch: seq<string>) {
    && batch != [] && Distinct(batch)
    && (forall v | v in batch :: v in all)
    && SortedBy(all, cmp, batch)
    && if Ready(all, placed) != {} then Elems(batch) == Ready(all, placed)
       else LeastSinkCycle(all, cmp, placed, batch[0], Elems(batch))
  }

  ghost function PlacedBy(batches: seq<seq<string>>): set<string> {
    if batches == [] then {}
    else PlacedBy(batches[..|batches| - 1]) + Elems(batches[|batches| - 1])
  }

  /** Every round takes a batch of what the earlier rounds left. */
  ghost predicate TopoRun(all: Packages, cmp: Comparator, batches: seq<seq<string>>) {
    batches != [] ==>
      && TopoRun(all, cmp, batches[..|batches| - 1])
      && IsBatch(all, cmp, PlacedBy(batches[..|batches| - 1]), batches[|batches| - 1])
  }

  function Flatten(batches: seq<seq<string>>): seq<string> {
    if batches == [] then []
    else Flatten(batches[..|batches| - 1]) + batches[|batches| - 1]
  }

  // ---------------------------------------------------------- facts about one round

  lemma BatchAvailable(all: Packages, cmp: Comparator, placed: set<string>, batch: seq<string>)
    requires IsBatch(all, cmp, placed, batch)
    ensures Distinct(batch) && forall v | v in batch :: v in all && v !in placed
  {
    hide Reach, SortedBy, DepsPlaced;
    forall v | v in batch
      ensures v in all && v !in placed
    {
      assert v in Elems(batch);
      if Ready(all, placed) == {} {
        assert v in RestGraph(all, placed);
      }
    }
  }

  /** The dependencies of a batch are placed already or lie in a stalled batch itself. */
  lemma BatchDependencies(all: Packages, cmp: Comparator, placed: set<string>, batch: seq<string>, p: string, d: string)
    requires Closed(all) && IsBatch(all, cmp, placed, batch)
    requires p in batch && d in all[p].deps
    ensures d in placed || (d in batch && Ready(all, placed) == {})
  {
    hide Reach, SortedBy, Scc;
    assert p in Elems(batch);
    if Ready(all, placed) == {} && d !in placed {
      var g := RestGraph(all, placed);
      BatchAvailable(all, cmp, placed, batch);
      assert Edge(g, p, d);
      assert d in Elems(batch);
    }
  }

  ghost predicate DependencyClosed(all: Packages, placed: set<string>) {
    forall p, d | p in placed && p in all && d in all[p].deps :: d in placed
  }

  /** Nothing placed leads out of a dependency-closed set. */
  lemma ClosedReach(all: Packages, placed: set<string>, p: string, q: string)
    requires DependencyClosed(all, placed) && p in placed && Reach(GraphOf(all), p, q)
    ensures q in placed
  {
    hide Reach;
    if q !in placed {
      var u, w := ReachExit(GraphOf(all), p, q, placed);
    }
  }

  /** A walk of the whole graph that ends outside a closed set never entered it. */
  lemma {:induction false} WholePath(all: Packages, placed: set<string>, path: seq<string>)
    requires DependencyClosed(all, placed)
    requires Path(GraphOf(all), path) && path[|path| - 1] !in placed
    ensures Path(RestGraph(all, placed), path)
  {
    if |path| > 1 {
      WholePath(all, placed, path[1..]);
      assert path[1] in RestGraph(all, placed);
    }
  }

  lemma WholeReach(all: Packages, placed: set<string>, p: string, q: string)
    requires DependencyClosed(all, placed) && q !in placed && Reach(GraphOf(all), p, q)
    ensures Reach(RestGraph(all, placed), p, q)
  {
    var path :| PathBetween(GraphOf(all), path, p, q);
    WholePath(all, placed, path);
    assert PathBetween(RestGraph(all, placed), path, p, q);
  }

  /** Outside a dependency-closed set, the components of the rest are those of the whole. */
  lemma RestScc(all: Packages, placed: set<string>, p: string)
    requires DependencyClosed(all, placed) && p in all && p !in placed
    ensures Scc(RestGraph(all, placed), p) == Scc(GraphOf(all), p)
  {
    hide Reach;
    var g, r := GraphOf(all), RestGraph(all, placed);
    forall q | q in g
      ensures q in Scc(r, p) <==> q in Scc(g, p)
    {
      if q in Scc(g, p) {
        if q in placed {
          ClosedReach(all, placed, q, p);
        }
        WholeReach(all, placed, p, q);
        WholeReach(all, placed, q, p);
      }
      if q in Scc(r, p) {
        SubgraphReach(r, g, p, q);
        SubgraphReach(r, g, q, p);
      }
    }
  }

  /** A batch never splits a component of the whole graph: a ready package is a
      component by itself, and a stalled batch is one component. */
  lemma BatchComponents(all: Packages, cmp: Comparator, placed: set<string>, batch: seq<string>, p: string)
    requires Closed(all) && DependencyClosed(all, placed)
    requires IsBatch(all, cmp, placed, batch) && p in batch
    ensures Scc(GraphOf(all), p) == if Ready(all, placed) == {} then Elems(batch) else {p}
  {
    hide Reach, SortedBy, Scc;
    BatchAvailable(all, cmp, placed, batch);
    assert p in Elems(batch);
    if Ready(all, placed) == {} {
      RestScc(all, placed, p);
    } else {
      ReadyAlone(all, placed, p);
    }
  }

  lemma ReadyAlone(all: Packages, placed: set<string>, p: string)
    requires DependencyClosed(all, placed) && p in Ready(all, placed)
    ensures Scc(GraphOf(all), p) == {p}
  {
    hide Reach;
    var g := GraphOf(all);
    ReachSelf(g, p);
    forall q | q in Scc(g, p)
      ensures q == p
    {
      if q != p {
        var u, w := ReachExit(g, p, q, {p});
        assert w in placed;
        ReachTrans(g, w, q, p);
        ClosedReach(all, placed, w, p);
      }
    }
  }

  // --------------------------------------------------------- facts about whole runs

  lemma {:induction false} RunDependencyClosed(all: Packages, cmp: Comparator, batches: seq<seq<string>>)
    requires Closed(all) && TopoRun(all, cmp, batches)
    ensures DependencyClosed(all, PlacedBy(batches))
  {
    hide IsBatch;
    if batches != [] {
      var init, last := batches[..|batches| - 1], batches[|batches| - 1];
      RunDependencyClosed(all, cmp, init);
      forall p, d | p in PlacedBy(batches) && p in all && d in all[p].deps
        ensures d in PlacedBy(batches)
      {
        if p in last {
          BatchDependencies(all, cmp, PlacedBy(init), last, p, d);
        }
      }
    }
  }

  lemma {:induction false} FlattenElems(batches: seq<seq<string>>)
    ensures Elems(Flatten(batches)) == PlacedBy(batches)
  {
    if batches != [] {
      FlattenElems(batches[..|batches| - 1]);
    }
  }

  /** Each package is output at most once. */
  lemma {:induction false} RunDistinct(all: Packages, cmp: Comparator, batches: seq<seq<string>>)
    requires TopoRun(all, cmp, batches)
    ensures Distinct(Flatten(batches)) && forall v | v in Flatten(batches) :: v in all
  {
    hide IsBatch;
    if batches != [] {
      var init, last := batches[..|batches| - 1], batches[|batches| - 1];
      RunDistinct(all, cmp, init);
      FlattenElems(init);
      BatchAvailable(all, cmp, PlacedBy(init), last);
      DistinctAppend(Flatten(init), last);
    }
  }

  lemma DistinctAppend(s: seq<string>, t: seq<string>)
    requires Distinct(s) && Distinct(t) && forall v | v in t :: v !in Elems(s)
    ensures Distinct(s + t)
  {
    var r := s + t;
    forall i, j | 0 <= i < j < |r|
      ensures r[i] != r[j]
    {
      if i < |s| <= j {
        assert s[i] in Elems(s) && t[j - |s|] in t;
      }
    }
  }

  /** A component never reaches back across the rounds: whatever shares the
      component of a placed package is placed as well. */
  lemma ComponentPlaced(all: Packages, placed: set<string>, p: string, q: string)
    requires DependencyClosed(all, placed) && p in placed && q in Scc(GraphOf(all), p)
    ensures q in placed
  {
    hide Reach;
    ClosedReach(all, placed, p, q);
  }

  /** Position `k` of the output lies in the last batch exactly when it is past the others. */
  lemma LastBatchPosition(all: Packages, cmp: Comparator, batches: seq<seq<string>>, k: nat)
    requires batches != [] && TopoRun(all, cmp, batches) && k < |Flatten(batches)|
    ensures k < |Flatten(batches[..|batches| - 1])| <==> Flatten(batches)[k] in PlacedBy(batches[..|batches| - 1])
    ensures k >= |Flatten(batches[..|batches| - 1])| <==> Flatten(batches)[k] in batches[|batches| - 1]
  {
    hide SortedBy, LeastSinkCycle, Ready;
    var init, last := batches[..|batches| - 1], batches[|batches| - 1];
    FlattenElems(init);
    BatchAvailable(all, cmp, PlacedBy(init), last);
    if k < |Flatten(init)| {
      assert Flatten(init)[k] in Elems(Flatten(init));
    } else {
      assert Flatten(batches)[k] == last[k - |Flatten(init)|];
    }
  }

  /** Dependencies first: when `out[i]` depends on `out[j]` and the two are not in one
      component, all of the component of `out[j]` is output before `out[i]`. */
  lemma {:induction false} DependenciesFirst(all: Packages, cmp: Comparator, batches: seq<seq<string>>,
                                             i: nat, j: nat, k: nat)
    requires Closed(all) && TopoRun(all, cmp, batches)
    requires i < |Flatten(batches)| && j < |Flatten(batches)| && k < |Flatten(batches)|
    requires Flatten(batches)[i] in all && Flatten(batches)[j] in all[Flatten(batches)[i]].deps
    requires Flatten(batches)[k] in Scc(GraphOf(all), Flatten(batches)[j])
    requires Flatten(batches)[i] !in Scc(GraphOf(all), Flatten(batches)[j])
    ensures k < i
  {
    hide IsBatch, Scc, Ready;
    var out := Flatten(batches);
    var init, last := batches[..|batches| - 1], batches[|batches| - 1];
    var n := |Flatten(init)|;
    RunDependencyClosed(all, cmp, init);
    LastBatchPosition(all, cmp, batches, i);
    LastBatchPosition(all, cmp, batches, j);
    LastBatchPosition(all, cmp, batches, k);
    if i >= n {
      BatchDependencies(all, cmp, PlacedBy(init), last, out[i], out[j]);
      if j >= n {
        assert out[i] in Elems(last);
        BatchComponents(all, cmp, PlacedBy(init), last, out[j]);
      }
    }
    if j < n {
      ComponentPlaced(all, PlacedBy(init), out[j], out[k]);
      if i < n {
        DependenciesFirst(all, cmp, init, i, j, k);
      }
    }
  }

  /** A dependency cycle stays together: between two members of one component the
      output holds only members of that component. */
  lemma {:induction false} ComponentsContiguous(all: Packages, cmp: Comparator, batches: seq<seq<string>>,
                                                i: nat, j: nat, k: nat)
    requires Closed(all) && TopoRun(all, cmp, batches)
    requires i <= j <= k < |Flatten(batches)|
    requires Flatten(batches)[i] in Scc(GraphOf(all), Flatten(batches)[k])
    ensures Flatten(batches)[j] in Scc(GraphOf(all), Flatten(batches)[k])
  {
    hide IsBatch, Scc, Ready;
    var out := Flatten(batches);
    var init, last := batches[..|batches| - 1], batches[|batches| - 1];
    var n := |Flatten(init)|;
    RunDependencyClosed(all, cmp, init);
    LastBatchPosition(all, cmp, batches, i);
    LastBatchPosition(all, cmp, batches, j);
    LastBatchPosition(all, cmp, batches, k);
    RunDistinct(all, cmp, batches);
    if k < n {
      ComponentsContiguous(all, cmp, init, i, j, k);
    } else {
      BatchComponents(all, cmp, PlacedBy(init), last, out[k]);
      assert out[i] in last;
      assert out[j] in Elems(last);
    }
  }

  /** Every dependency is strictly earlier in the output. */
  ghost predicate Topological(all: Packages, out: seq<string>) {
    forall i, j | 0 <= i < |out| && 0 <= j < |out| && Edge(GraphOf(all), out[i], out[j]) :: j < i
  }

  lemma {:induction false} TopologicalPath(all: Packages, out: seq<string>, path: seq<string>, i: nat, j: nat)
    requires Topological(all, out) && Elems(out) == all.Keys && Distinct(out)
    requires Path(GraphOf(all), path) && |path| > 1
    requires i < |out| && j < |out| && out[i] == path[0] && out[j] == path[|path| - 1]
    ensures j < i
  {
    assert path[1] in Elems(out);
    var k :| 0 <= k < |out| && out[k] == path[1];
    if |path| > 2 {
      TopologicalPath(all, out, path[1..], k, j);
    }
  }

  /** The output is a topological order exactly when the dependency graph has no cycle. */
  lemma TopologicalIffAcyclic(all: Packages, cmp: Comparator, batches: seq<seq<string>>)
    requires Closed(all) && TopoRun(all, cmp, batches) && PlacedBy(batches) == all.Keys
    ensures Topological(all, Flatten(batches)) <==> Acyclic(GraphOf(all))
  {
    hide TopoRun;
    RunDistinct(all, cmp, batches);
    FlattenElems(batches);
    if Acyclic(GraphOf(all)) {
      AcyclicTopological(all, cmp, batches);
    }
    if Topological(all, Flatten(batches)) {
      TopologicalAcyclic(all, Flatten(batches));
    }
  }

  lemma AcyclicTopological(all: Packages, cmp: Comparator, batches: seq<seq<string>>)
    requires Closed(all) && TopoRun(all, cmp, batches) && Acyclic(GraphOf(all))
    ensures Topological(all, Flatten(batches))
  {
    hide TopoRun, Acyclic, Reach;
    var g, out := GraphOf(all), Flatten(batches);
    forall i, j | 0 <= i < |out| && 0 <= j < |out| && Edge(g, out[i], out[j])
      ensures j < i
    {
      SccSelf(g, out[j]);
      if out[i] in Scc(g, out[j]) {
        MutualEdgeIsCycle(g, out[i], out[j]);
      } else {
        DependenciesFirst(all, cmp, batches, i, j, j);
      }
    }
  }

  lemma TopologicalAcyclic(all: Packages, out: seq<string>)
    requires Topological(all, out) && Elems(out) == all.Keys && Distinct(out)
    ensures Acyclic(GraphOf(all))
  {
    hide Topological;
    forall path | Path(GraphOf(all), path) && |path| > 1
      ensures path[0] != path[|path| - 1]
    {
      PathEnds(GraphOf(all), path);
      assert path[0] in Elems(out) && path[|path| - 1] in Elems(out);
      var i :| 0 <= i < |out| && out[i] == path[0];
      var j :| 0 <= j < |out| && out[j] == path[|path| - 1];
      TopologicalPath(all, out, path, i, j);
    }
  }

  // ----------------------------------------------------------------- canonical output

  /** With no ties between packages, a round has one possible batch. */
  lemma BatchUnique(all: Packages, cmp: Comparator, placed: set<string>, s: seq<string>, t: seq<string>)
    requires Preorder(cmp) && Separates(all, cmp)
    requires IsBatch(all, cmp, placed, s) && IsBatch(all, cmp, placed, t)
    ensures s == t
  {
    hide Preorder, Reach, SortedBy, Distinct, IsComponent, IsSink, Cyclic;
    if Ready(all, placed) == {} {
      assert s[0] in Elems(s) && t[0] in Elems(t);
      Antisymmetric(cmp, all[s[0]], all[t[0]]);
      assert s[0] == t[0];
      ComponentsMeet(RestGraph(all, placed), Elems(s), Elems(t), s[0]);
    }
    SortedUnique(all, cmp, s, t);
  }

  lemma {:induction false} RunPrefix(all: Packages, cmp: Comparator, batches: seq<seq<string>>, i: nat)
    requires TopoRun(all, cmp, batches) && i < |batches|
    ensures TopoRun(all, cmp, batches[..i])
    ensures IsBatch(all, cmp, PlacedBy(batches[..i]), batches[i])
    ensures PlacedBy(batches[..i]) <= PlacedBy(batches)
  {
    hide IsBatch;
    var init := batches[..|batches| - 1];
    if i < |init| {
      RunPrefix(all, cmp, init, i);
      assert init[..i] == batches[..i];
    }
  }

  lemma {:induction false} RunsAgree(all: Packages, cmp: Comparator, a: seq<seq<string>>, b: seq<seq<string>>, i: nat)
    requires Preorder(cmp) && Separates(all, cmp)
    requires TopoRun(all, cmp, a) && TopoRun(all, cmp, b)
    requires i <= |a| && i <= |b|
    ensures a[..i] == b[..i]
  {
    hide IsBatch, Preorder, Separates;
    if i > 0 {
      RunsAgree(all, cmp, a, b, i - 1);
      RunPrefix(all, cmp, a, i - 1);
      RunPrefix(all, cmp, b, i - 1);
      BatchUnique(all, cmp, PlacedBy(a[..i - 1]), a[i - 1], b[i - 1]);
      assert a[..i] == a[..i - 1] + [a[i - 1]] && b[..i] == b[..i - 1] + [b[i - 1]];
    }
  }

  /** A run that has placed every package cannot be continued. */
  lemma CompleteRunEnds(all: Packages, cmp: Comparator, a: seq<seq<string>>, i: nat)
    requires TopoRun(all, cmp, a) && i <= |a| && PlacedBy(a[..i]) == all.Keys
    ensures i == |a|
  {
    hide Ready, LeastSinkCycle, SortedBy, Distinct;
    if i < |a| {
      RunPrefix(all, cmp, a, i);
      assert a[i][0] in a[i];
      BatchAvailable(all, cmp, all.Keys, a[i]);
    }
  }

  /** The rounds are determined by the package map and the comparator alone. */
  lemma CanonicalRun(all: Packages, cmp: Comparator, a: seq<seq<string>>, b: seq<seq<string>>)
    requires Preorder(cmp) && Separates(all, cmp)
    requires TopoRun(all, cmp, a) && PlacedBy(a) == all.Keys
    requires TopoRun(all, cmp, b) && PlacedBy(b) == all.Keys
    ensures a == b
  {
    hide TopoRun, Preorder, Separates;
    var n := if |a| <= |b| then |a| else |b|;
    RunsAgree(all, cmp, a, b, n);
    if |a| <= |b| {
      assert a[..n] == a;
      CompleteRunEnds(all, cmp, b, n);
    } else {
      assert b[..n] == b;
      CompleteRunEnds(all, cmp, a, n);
    }
    assert a[..n] == a && b[..n] == b;
  }

  // ------------------------------------------------------------------- the ordering loop

  /** The packages of `order` not placed yet
      and, when `ready` is set, with every dependency placed. */
  function Pending(all: Packages, order: seq<string>, placed: set<string>, ready: bool): (r: seq<string>)
    requires Elems(order) <= all.Keys && Distinct(order)
    ensures Distinct(r)
    ensures forall v :: v in r <==> v in order && v !in placed && (ready ==> DepsPlaced(all, placed, v))
  {
    if order == [] then []
    else
      var rest := Pending(all, order[1..], placed, ready);
      if order[0] !in placed && (ready ==> DepsPlaced(all, placed, order[0])) then [order[0]] + rest else rest
  }

  lemma ReadyBatch(all: Packages, cmp: Comparator, placed: set<string>, order: seq<string>)
    requires Preorder(cmp) && Distinct(order) && Elems(order) == all.Keys
    ensures forall v | v in Pending(all, order, placed, true) :: v in all
    ensures var ready := Sort(all, cmp, Pending(all, order, placed, true));
            if ready != [] then IsBatch(all, cmp, placed, ready) else Ready(all, placed) == {}
  {
    hide Preorder, DepsPlaced, SortedBy, LeastSinkCycle;
    var names := Pending(all, order, placed, true);
    forall v | v in names
      ensures v in all
    {
      assert v in Elems(order);
    }
    SortSorted(all, cmp, names);
    SortKeeps(all, cmp, names);
    var ready := Sort(all, cmp, names);
    assert forall v :: v in all <==> v in Elems(order);
    assert Elems(names) == Ready(all, placed);
    if ready != [] {
      assert ready[0] in Elems(ready);
    }
  }

  ghost predicate Listings(all: Packages, cycles: seq<seq<string>>) {
    forall i | 0 <= i < |cycles| :: cycles[i] != [] && forall v | v in cycles[i] :: v in all
  }

  /** Each cycle sorted on its own. */
  function SortEach(all: Packages, cmp: Comparator, cycles: seq<seq<string>>): (r: seq<seq<string>>)
    requires Listings(all, cycles)
    ensures |r| == |cycles| && Listings(all, r)
    ensures forall i | 0 <= i < |r| :: r[i] == Sort(all, cmp, cycles[i])
  {
    if cycles == [] then []
    else
      SortEach(all, cmp, cycles[..|cycles| - 1]) + [Sort(all, cmp, cycles[|cycles| - 1])]
  }

  /** The cycle whose first package comes first. */
  function FirstCycle(all: Packages, cmp: Comparator, cycles: seq<seq<string>>): (r: seq<string>)
    requires Listings(all, cycles) && cycles != []
    ensures r in cycles && r != [] && forall v | v in r :: v in all
  {
    var last := cycles[|cycles| - 1];
    if |cycles| == 1 then last
    else
      var best := FirstCycle(all, cmp, cycles[..|cycles| - 1]);
      if cmp(all[best[0]], all[last[0]]) <= 0 then best else last
  }

  lemma {:induction false} FirstCycleLeast(all: Packages, cmp: Comparator, cycles: seq<seq<string>>, i: nat)
    requires Listings(all, cycles) && Preorder(cmp) && i < |cycles|
    ensures cmp(all[FirstCycle(all, cmp, cycles)[0]], all[cycles[i][0]]) <= 0
  {
    var n := |cycles|;
    var last := cycles[n - 1];
    assert cmp(all[last[0]], all[last[0]]) < 0 <==> cmp(all[last[0]], all[last[0]]) > 0;
    if n > 1 {
      var best := FirstCycle(all, cmp, cycles[..n - 1]);
      assert cmp(all[best[0]], all[last[0]]) < 0 <==> cmp(all[last[0]], all[best[0]]) > 0;
      if i < n - 1 {
        FirstCycleLeast(all, cmp, cycles[..n - 1], i);
        if cmp(all[best[0]], all[last[0]]) > 0 {
          Transitive(cmp, all[last[0]], all[best[0]], all[cycles[i][0]]);
        }
      }
    }
  }

  lemma LaterLess(all: Packages, cmp: Comparator, cycles: seq<seq<string>>, last: PackageNode, j: nat)
    requires Listings(all, cycles) && Preorder(cmp) && j < |cycles|
    requires cmp(all[FirstCycle(all, cmp, cycles)[0]], last) > 0
    ensures cmp(all[cycles[j][0]], last) > 0
  {
    hide Preorder;
    FirstCycleLeast(all, cmp, cycles, j);
    hide FirstCycle;
    if cmp(all[cycles[j][0]], last) <= 0 {
      Transitive(cmp, all[FirstCycle(all, cmp, cycles)[0]], all[cycles[j][0]], last);
    }
  }

  /** As the stable sort has it: of the cycles whose first packages tie, the one found first. */
  lemma {:induction false} FirstCycleFirst(all: Packages, cmp: Comparator, cycles: seq<seq<string>>) returns (i: nat)
    requires Listings(all, cycles) && Preorder(cmp) && cycles != []
    ensures i < |cycles| && cycles[i] == FirstCycle(all, cmp, cycles)
    ensures forall j | 0 <= j < i :: cmp(all[cycles[j][0]], all[cycles[i][0]]) > 0
  {
    hide Preorder;
    var n := |cycles| - 1;
    i := n;
    if n > 0 {
      var init, last := cycles[..n], all[cycles[n][0]];
      var best := FirstCycle(all, cmp, init);
      if cmp(all[best[0]], last) <= 0 {
        i := FirstCycleFirst(all, cmp, init);
      } else {
        forall j | 0 <= j < n
          ensures cmp(all[cycles[j][0]], last) > 0
        {
          LaterLess(all, cmp, init, last, j);
        }
      }
    }
  }

  /** What the component search returned for the packages not in `placed`. */
  ghost predicate SinksOf(g: Graph, sinks: seq<seq<string>>) {
    && (forall i | 0 <= i < |sinks| :: Distinct(sinks[i]) && IsSinkCycle(g, Elems(sinks[i])))
    && (forall c | IsSinkCycle(g, c) :: exists i :: 0 <= i < |sinks| && Elems(sinks[i]) == c)
  }

  /** In a stalled round every remaining package has a remaining dependency, so the
      search finds a cyclic sink component. */
  lemma StalledHasSinks(all: Packages, placed: set<string>, sinks: seq<seq<string>>)
    requires Closed(all) && Ready(all, placed) == {} && all.Keys - placed != {}
    requires SinksOf(RestGraph(all, placed), sinks)
    ensures sinks != [] && Listings(all, sinks)
  {
    hide Reach, IsSinkCycle, HasEdge, Closed, Ready;
    var g := RestGraph(all, placed);
    StalledEdges(all, placed);
    var v :| v in all.Keys - placed;
    assert v in g;
    SinkCycleExists(g);
    var c :| IsSinkCycle(g, c);
    forall i | 0 <= i < |sinks|
      ensures sinks[i] != [] && forall v | v in sinks[i] :: v in all
    {
      SinkListing(all, placed, sinks[i]);
    }
  }

  /** The listing picked in a stalled round is the next batch. */
  lemma CycleBatch(all: Packages, cmp: Comparator, placed: set<string>, sinks: seq<seq<string>>)
    requires Preorder(cmp) && Ready(all, placed) == {}
    requires SinksOf(RestGraph(all, placed), sinks) && sinks != [] && Listings(all, sinks)
    ensures IsBatch(all, cmp, placed, FirstCycle(all, cmp, SortEach(all, cmp, sinks)))
  {
    hide Preorder, SortedBy, Distinct, IsSinkCycle, Ready, SinksOf, Listings, RestGraph, FirstCycle, SortEach;
    var g := RestGraph(all, placed);
    var first := FirstCycle(all, cmp, SortEach(all, cmp, sinks));
    FirstCycleSorted(all, cmp, g, sinks);
    assert first[0] in Elems(first);
    forall o, v | IsSinkCycle(g, o) && v in o && v in all
      ensures cmp(all[first[0]], all[v]) <= 0
    {
      FirstCycleBelow(all, cmp, g, sinks, o, v);
    }
  }

  lemma FirstCycleSorted(all: Packages, cmp: Comparator, g: Graph, sinks: seq<seq<string>>)
    requires Preorder(cmp) && SinksOf(g, sinks) && sinks != [] && Listings(all, sinks)
    ensures var first := FirstCycle(all, cmp, SortEach(all, cmp, sinks));
            Distinct(first) && IsSinkCycle(g, Elems(first)) && SortedBy(all, cmp, first)
  {
    hide Preorder, SortedBy, Distinct, IsSinkCycle;
    var cycles := SortEach(all, cmp, sinks);
    var f :| 0 <= f < |cycles| && cycles[f] == FirstCycle(all, cmp, cycles);
    SortSorted(all, cmp, sinks[f]);
    SortKeeps(all, cmp, sinks[f]);
  }

  lemma FirstCycleBelow(all: Packages, cmp: Comparator, g: Graph, sinks: seq<seq<string>>, o: set<string>, v: string)
    requires Preorder(cmp) && SinksOf(g, sinks) && sinks != [] && Listings(all, sinks)
    requires IsSinkCycle(g, o) && v in o && v in all
    ensures cmp(all[FirstCycle(all, cmp, SortEach(all, cmp, sinks))[0]], all[v]) <= 0
  {
    hide Preorder, SortedBy, Distinct, IsSinkCycle, Ready;
    var cycles := SortEach(all, cmp, sinks);
    var i :| 0 <= i < |sinks| && Elems(sinks[i]) == o;
    SortSorted(all, cmp, sinks[i]);
    SortKeeps(all, cmp, sinks[i]);
    assert v in Elems(cycles[i]);
    LeastFirst(all, cmp, cycles[i], v);
    FirstCycleLeast(all, cmp, cycles, i);
    Transitive(cmp, all[FirstCycle(all, cmp, cycles)[0]], all[cycles[i][0]], all[v]);
  }

  lemma SinkListing(all: Packages, placed: set<string>, sink: seq<string>)
    requires IsSinkCycle(RestGraph(all, placed), Elems(sink))
    ensures sink != [] && forall v | v in sink :: v in all
  {
    hide Reach, Scc;
    var v :| v in Elems(sink);
    assert forall v | v in sink :: v in Elems(sink);
  }

  lemma StalledEdges(all: Packages, placed: set<string>)
    requires Closed(all) && Ready(all, placed) == {}
    ensures forall v | v in RestGraph(all, placed) :: HasEdge(RestGraph(all, placed), v)
  {
    var g := RestGraph(all, placed);
    forall v | v in g
      ensures HasEdge(g, v)
    {
      assert v !in Ready(all, placed);
      var d :| d in all[v].deps && d !in placed;
      assert Edge(g, v, d);
    }
  }

  function NodesOf(all: Packages, names: seq<string>): (r: seq<PackageNode>)
    requires forall v | v in names :: v in all
    ensures |r| == |names| && forall i | 0 <= i < |r| :: r[i] == all[names[i]]
  {
    seq(|names|, i requires 0 <= i < |names| => all[names[i]])
  }

  /** Every in-repo peer names a known package; the first one that does not is reported. */
  ghost predicate PeersKnown(packages: seq<PackageNode>) {
    forall p, d | p in packages && d in p.deps :: d in ByName(packages)
  }

  /** The result of a run over `packages`, as a package list. */
  ghost predicate IsTopoOrder(packages: seq<PackageNode>, cmp: Comparator, batches: seq<seq<string>>,
                              out: seq<PackageNode>) {
    var all := ByName(packages);
    && TopoRun(all, cmp, batches)
    && PlacedBy(batches) == all.Keys
    && Listed(all, out, Flatten(batches))
  }

  ghost predicate Listed(all: Packages, out: seq<PackageNode>, names: seq<string>) {
    && |out| == |names|
    && forall i | 0 <= i < |out| :: names[i] in all && out[i] == all[names[i]]
  }

  lemma RunStart(all: Packages, cmp: Comparator)
    ensures TopoRun(all, cmp, []) && PlacedBy([]) == {} && Listed(all, [], Flatten([]))
  {
  }

  lemma RunStep(all: Packages, cmp: Comparator, batches: seq<seq<string>>, batch: seq<string>, out: seq<PackageNode>)
    requires TopoRun(all, cmp, batches) && Listed(all, out, Flatten(batches))
    requires IsBatch(all, cmp, PlacedBy(batches), batch)
    ensures forall v | v in batch :: v in all
    ensures TopoRun(all, cmp, batches + [batch])
    ensures PlacedBy(batches + [batch]) == PlacedBy(batches) + Elems(batch)
    ensures Listed(all, out + NodesOf(all, batch), Flatten(batches + [batch]))
    ensures batch != [] && batch[0] in all.Keys - PlacedBy(batches)
    ensures PlacedBy(batches) <= all.Keys ==> PlacedBy(batches) + Elems(batch) <= all.Keys
  {
    hide SortedBy, LeastSinkCycle, Ready, Distinct;
    assert (batches + [batch])[..|batches|] == batches;
    BatchAvailable(all, cmp, PlacedBy(batches), batch);
    assert batch[0] in batch;
  }

  method SinkCyclesOf(all: Packages, order: seq<string>, placed: set<string>) returns (sinks: seq<seq<string>>)
    requires Distinct(order) && Elems(order) == all.Keys
    ensures SinksOf(RestGraph(all, placed), sinks)
  {
    hide Distinct, IsSinkCycle;
    var pending := Pending(all, order, placed, false);
    assert Elems(pending) == RestGraph(all, placed).Keys by {
      assert forall v :: v in all <==> v in Elems(order);
    }
    sinks := SinkCycles.SinkCycles(RestGraph(all, placed), pending);
  }

  /** Peer `j` of package `i` is the first that names no package, in list order. */
  ghost predicate FirstMissingAt(packages: seq<PackageNode>, i: nat, j: nat) {
    && i < |packages| && j < |packages[i].deps| && NoPackage(packages, packages[i].deps[j])
    && (forall k, d | 0 <= k < i && d in packages[k].deps :: !NoPackage(packages, d))
    && (forall k | 0 <= k < j :: !NoPackage(packages, packages[i].deps[k]))
  }

  ghost predicate NoPackage(packages: seq<PackageNode>, short: string) {
    forall p | p in packages :: p.short != short
  }

  ghost predicate FirstMissing(packages: seq<PackageNode>, name: string, dependency: string) {
    exists i: nat, j: nat :: FirstMissingAt(packages, i, j) && packages[i].name == name &&
      packages[i].deps[j] == dependency
  }

  lemma NoPackageIff(packages: seq<PackageNode>, short: string)
    ensures NoPackage(packages, short) <==> short !in ByName(packages)
  {
    ByNameHas(packages);
  }

  method FindMissingPeer(packages: seq<PackageNode>) returns (r: TopoResult)
    ensures r.Ordered? <==> PeersKnown(packages)
    ensures r.MissingPeer? ==> FirstMissing(packages, r.name, r.dependency)
    ensures r.MissingPeer? ==> r.dependency !in ByName(packages)
  {
    hide ByName;
    forall d
      ensures NoPackage(packages, d) <==> d !in ByName(packages)
    {
      NoPackageIff(packages, d);
    }
    var byName := ByName(packages);
    for i := 0 to |packages|
      invariant forall k, d | 0 <= k < i && d in packages[k].deps :: d in byName
    {
      var deps := packages[i].deps;
      for j := 0 to |deps|
        invariant forall k | 0 <= k < j :: deps[k] in byName
      {
        if deps[j] !in byName {
          assert packages[i] in packages && deps[j] in packages[i].deps;
          assert FirstMissingAt(packages, i, j);
          return MissingPeer(packages[i].name, deps[j]);
        }
      }
    }
    r := Ordered([]);
  }

  lemma KnownPeersClosed(packages: seq<PackageNode>)
    requires PeersKnown(packages)
    ensures Closed(ByName(packages))
  {
    ByNameHas(packages);
  }

  /** The ordering loop. It reports a missing peer or returns a complete run; the
      source's remaining error, that a stalled round finds no cycle, cannot occur. */
  method TopoSort(packages: seq<PackageNode>, groupOrder: seq<string>, collate: Collation)
    returns (r: TopoResult, ghost batches: seq<seq<string>>)
    requires IsCollation(collate)
    ensures r.Ordered? <==> PeersKnown(packages)
    ensures r.Ordered? ==> IsTopoOrder(packages, PackageOrder(groupOrder, collate), batches, r.out)
    ensures r.MissingPeer? ==> FirstMissing(packages, r.name, r.dependency)
  {
    hide *;
    batches := [];
    r := FindMissingPeer(packages);
    if r.MissingPeer? {
      return;
    }
    var all := ByName(packages);
    var order := KeyOrder(packages);
    var cmp := PackageOrder(groupOrder, collate);
    ComparePackagesOrders(groupOrder, collate);
    KnownPeersClosed(packages);
    var remaining := all;
    var placed: set<string> := {};
    var out: seq<PackageNode> := [];
    RunStart(all, cmp);
    while remaining != map[]
      invariant placed <= all.Keys && remaining.Keys == all.Keys - placed
      invariant TopoRun(all, cmp, batches) && placed == PlacedBy(batches)
      invariant Listed(all, out, Flatten(batches))
      decreases remaining.Keys
    {
      ReadyBatch(all, cmp, placed, order);
      var ready := Sort(all, cmp, Pending(all, order, placed, true));
      if |ready| == 0 {
        var sinks := SinkCyclesOf(all, order, placed);
        StalledHasSinks(all, placed, sinks);
        CycleBatch(all, cmp, placed, sinks);
        if |sinks| == 0 {
          assert false;
        }
        ready := FirstCycle(all, cmp, SortEach(all, cmp, sinks));
      }
      RunStep(all, cmp, batches, ready, out);
      out, placed, remaining := Place(all, ready, out, placed, remaining);
      batches := batches + [ready];
    }
    assert remaining.Keys == {};
    assert placed == all.Keys;
    RunEnd(packages, cmp, batches, out);
    r := Ordered(out);
  }

  lemma RunEnd(packages: seq<PackageNode>, cmp: Comparator, batches: seq<seq<string>>, out: seq<PackageNode>)
    requires TopoRun(ByName(packages), cmp, batches) && PlacedBy(batches) == ByName(packages).Keys
    requires Listed(ByName(packages), out, Flatten(batches))
    ensures IsTopoOrder(packages, cmp, batches, out)
  {
    hide TopoRun, Listed;
  }

  /** Output the batch and move it out of `remaining`. */
  method Place(all: Packages, ready: seq<string>, out: seq<PackageNode>, placed: set<string>, remaining: Packages)
    returns (out': seq<PackageNode>, placed': set<string>, remaining': Packages)
    requires forall v | v in ready :: v in all
    ensures out' == out + NodesOf(all, ready)
    ensures placed' == placed + Elems(ready)
    ensures remaining'.Keys == remaining.Keys - Elems(ready)
  {
    out', placed', remaining' := out, placed, remaining;
    for i := 0 to |ready|
      invariant out' == out + NodesOf(all, ready)[..i]
      invariant placed' == placed + Elems(ready[..i])
      invariant remaining'.Keys == remaining.Keys - Elems(ready[..i])
    {
      assert ready[..i + 1] == ready[..i] + [ready[i]];
      out' := out' + [all[ready[i]]];
      placed' := placed' + {ready[i]};
      remaining' := remaining' - {ready[i]};
    }
    assert ready[..|ready|] == ready;
  }

  // ------------------------------------------------------- what the output promises

  /** Every package of the map is output exactly once, and nothing else is. */
  lemma OutputEachOnce(packages: seq<PackageNode>, cmp: Comparator, batches: seq<seq<string>>, out: seq<PackageNode>)
    requires IsTopoOrder(packages, cmp, batches, out)
    ensures forall i, j | 0 <= i < j < |out| :: out[i].short != out[j].short
    ensures forall p: PackageNode :: p in out <==> p.short in ByName(packages) && ByName(packages)[p.short] == p
  {
    hide TopoRun;
    var all, names := ByName(packages), Flatten(batches);
    ByNameHas(packages);
    RunDistinct(all, cmp, batches);
    FlattenElems(batches);
    forall p: PackageNode | p.short in all && all[p.short] == p
      ensures p in out
    {
      assert p.short in Elems(names);
      var i :| 0 <= i < |names| && names[i] == p.short;
      assert out[i] == p;
    }
  }

  /** With unique short names the output is a reordering of the input. */
  lemma OutputIsReordering(packages: seq<PackageNode>, cmp: Comparator, batches: seq<seq<string>>,
                           out: seq<PackageNode>)
    requires UniqueShort(packages) && IsTopoOrder(packages, cmp, batches, out)
    ensures multiset(out) == multiset(packages)
  {
    OutputEachOnce(packages, cmp, batches, out);
    ByNameUnique(packages);
    ByNameHas(packages);
    NodeCounts(out);
    NodeCounts(packages);
    forall p: PackageNode
      ensures multiset(out)[p] == multiset(packages)[p]
    {
      assert p in out <==> p in packages;
      assert p in multiset(out) <==> p in out;
      assert p in multiset(packages) <==> p in packages;
    }
  }

  lemma {:induction false} NodeCounts(s: seq<PackageNode>)
    requires UniqueShort(s)
    ensures forall p: PackageNode :: multiset(s)[p] <= 1
  {
    if s != [] {
      NodeCounts(s[1..]);
      assert s == [s[0]] + s[1..];
      assert s[0] !in s[1..];
    }
  }

  ghost predicate SameComponent(packages: seq<PackageNode>, a: PackageNode, b: PackageNode) {
    a.short in Scc(GraphOf(ByName(packages)), b.short)
  }

  /** Dependency-first order of the output list: a package comes after the whole
      component of each dependency that is not mutually dependent with it. */
  lemma OutputDependenciesFirst(packages: seq<PackageNode>, cmp: Comparator, batches: seq<seq<string>>,
                                out: seq<PackageNode>)
    requires PeersKnown(packages) && IsTopoOrder(packages, cmp, batches, out)
    ensures forall i, j, k | 0 <= i < |out| && 0 <= j < |out| && 0 <= k < |out|
                && out[j].short in out[i].deps && !SameComponent(packages, out[i], out[j])
                && SameComponent(packages, out[k], out[j]) :: k < i
  {
    hide TopoRun, Scc;
    ByNameHas(packages);
    KnownPeersClosed(packages);
    forall i, j, k | 0 <= i < |out| && 0 <= j < |out| && 0 <= k < |out|
                && out[j].short in out[i].deps && !SameComponent(packages, out[i], out[j])
                && SameComponent(packages, out[k], out[j])
      ensures k < i
    {
      DependenciesFirst(ByName(packages), cmp, batches, i, j, k);
    }
  }

  /** A dependency cycle is kept together in the output list. */
  lemma OutputContiguous(packages: seq<PackageNode>, cmp: Comparator, batches: seq<seq<string>>, out: seq<PackageNode>)
    requires PeersKnown(packages) && IsTopoOrder(packages, cmp, batches, out)
    ensures forall i, j, k | 0 <= i <= j <= k < |out| && SameComponent(packages, out[i], out[k]) ::
              SameComponent(packages, out[j], out[k])
  {
    hide TopoRun, Scc;
    ByNameHas(packages);
    KnownPeersClosed(packages);
    forall i, j, k | 0 <= i <= j <= k < |out| && SameComponent(packages, out[i], out[k])
      ensures SameComponent(packages, out[j], out[k])
    {
      ComponentsContiguous(ByName(packages), cmp, batches, i, j, k);
    }
  }

  lemma {:induction false} ByNamePermuted(p: seq<PackageNode>, q: seq<PackageNode>)
    requires UniqueShort(p) && multiset(p) == multiset(q)
    ensures UniqueShort(q) && ByName(p) == ByName(q)
  {
    assert forall x :: x in p <==> x in multiset(p);
    assert forall x :: x in q <==> x in multiset(q);
    NodeCounts(p);
    assert UniqueShort(q) by {
      forall i, j | 0 <= i < j < |q|
        ensures q[i].short != q[j].short
      {
        assert q[i] in p && q[j] in p;
        if q[i] == q[j] {
          TwiceCounted(q, i, j);
        }
      }
    }
    ByNameUnique(p);
    ByNameUnique(q);
    ByNameHas(p);
    ByNameHas(q);
  }

  lemma TwiceCounted(q: seq<PackageNode>, i: nat, j: nat)
    requires i < j < |q| && q[i] == q[j]
    ensures multiset(q)[q[i]] >= 2
  {
    assert q == q[..i] + [q[i]] + q[i + 1..j] + [q[j]] + q[j + 1..];
  }

  /** Canonical output: permuting the input changes nothing, when no two packages tie. */
  lemma CanonicalOutput(p: seq<PackageNode>, q: seq<PackageNode>, cmp: Comparator,
                        a: seq<seq<string>>, b: seq<seq<string>>,
                        outP: seq<PackageNode>, outQ: seq<PackageNode>)
    requires UniqueShort(p) && multiset(p) == multiset(q)
    requires Preorder(cmp) && Separates(ByName(p), cmp)
    requires IsTopoOrder(p, cmp, a, outP) && IsTopoOrder(q, cmp, b, outQ)
    ensures outP == outQ
  {
    hide TopoRun, Preorder, Separates;
    ByNamePermuted(p, q);
    CanonicalRun(ByName(p), cmp, a, b);
  }

  /** Two packages of one round stand in the order of the comparator. */
  lemma {:induction false} RoundOrder(all: Packages, cmp: Comparator, batches: seq<seq<string>>, k: nat, i: nat, j: nat)
    requires TopoRun(all, cmp, batches) && k < |batches| && i < j < |Flatten(batches)|
    requires Flatten(batches)[i] in batches[k] && Flatten(batches)[j] in batches[k]
    ensures Flatten(batches)[i] in all && Flatten(batches)[j] in all
    ensures cmp(all[Flatten(batches)[i]], all[Flatten(batches)[j]]) <= 0
  {
    hide IsBatch;
    var init, last := batches[..|batches| - 1], batches[|batches| - 1];
    RunDistinct(all, cmp, batches);
    assert Flatten(batches)[i] in Flatten(batches) && Flatten(batches)[j] in Flatten(batches);
    LastBatchPosition(all, cmp, batches, i);
    LastBatchPosition(all, cmp, batches, j);
    if k == |init| {
      var n := |Flatten(init)|;
      BatchSorted(all, cmp, PlacedBy(init), last, i - n, j - n);
    } else {
      PlacedEarlier(init, k, Flatten(batches)[i]);
      PlacedEarlier(init, k, Flatten(batches)[j]);
      RoundOrder(all, cmp, init, k, i, j);
    }
  }

  lemma BatchSorted(all: Packages, cmp: Comparator, placed: set<string>, batch: seq<string>, i: nat, j: nat)
    requires IsBatch(all, cmp, placed, batch) && i < j < |batch|
    ensures batch[i] in all && batch[j] in all && cmp(all[batch[i]], all[batch[j]]) <= 0
  {
    hide Ready, LeastSinkCycle, Distinct;
  }

  lemma {:induction false} PlacedEarlier(batches: seq<seq<string>>, k: nat, v: string)
    requires k < |batches| && v in batches[k]
    ensures v in PlacedBy(batches)
  {
    if k < |batches| - 1 {
      PlacedEarlier(batches[..|batches| - 1], k, v);
    }
  }

  ghost predicate CollatedBefore(collate: Collation, a: PackageNode, b: PackageNode) {
    collate(a.group, b.group) < 0 || (collate(a.group, b.group) == 0 && collate(a.short, b.short) < 0)
  }

  /** Of two packages placed in one round, the one of the group listed earlier is output first; where
      the list does not tell, the groups and then the short names decide by the collation. */
  lemma OutputGroupOrder(packages: seq<PackageNode>, groupOrder: seq<string>, collate: Collation,
                         batches: seq<seq<string>>, out: seq<PackageNode>, k: nat, i: nat, j: nat)
    requires IsCollation(collate) && IsTopoOrder(packages, PackageOrder(groupOrder, collate), batches, out)
    requires k < |batches| && i < |out| && j < |out| && i != j
    requires out[i].short in batches[k] && out[j].short in batches[k]
    ensures EarlierGroup(groupOrder, out[i].group, out[j].group) ==>
              out[j].group in groupOrder || |groupOrder| <= 9007199254740991 ==> i < j
    ensures var told := EarlierGroup(groupOrder, out[i].group, out[j].group)
                     || EarlierGroup(groupOrder, out[j].group, out[i].group);
      !told && CollatedBefore(collate, out[i], out[j]) ==> i < j
  {
    hide TopoRun, EarlierGroup;
    var all, cmp := ByName(packages), PackageOrder(groupOrder, collate);
    ByNameHas(packages);
    GroupsDecide(groupOrder, collate, out[i], out[j]);
    if j < i {
      assert Flatten(batches)[i] == out[i].short && Flatten(batches)[j] == out[j].short;
      RoundOrder(all, cmp, batches, k, j, i);
      ComparePackagesOrders(groupOrder, collate);
      assert cmp(out[i], out[j]) < 0 <==> cmp(out[j], out[i]) > 0;
    }
  }

  /** The comparator of the source separates packages whenever the collation tells
      their short names apart. */
  lemma CollationSeparates(packages: seq<PackageNode>, groupOrder: seq<string>, collate: Collation)
    requires IsCollation(collate)
    requires forall a, b | a in ByName(packages) && b in ByName(packages) && a != b :: collate(a, b) != 0
    ensures Preorder(PackageOrder(groupOrder, collate))
    ensures Separates(ByName(packages), PackageOrder(groupOrder, collate))
  {
    ComparePackagesOrders(groupOrder, collate);
    ByNameHas(packages);
    var all, cmp := ByName(packages), PackageOrder(groupOrder, collate);
    forall a, b | a in all && b in all && a != b
      ensures cmp(all[a], all[b]) != 0
    {
      assert collate(a, b) != 0;
    }
  }
}
