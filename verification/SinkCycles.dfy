/** The selection of cyclic sink components in dsh/scripts/package-graph.ts, and why a
    stalled ordering always has one to place. */
module SinkCycles {

  import opened Digraph
  import opened ComponentSearch

  // ------------------------------------------------------------- specification

  /** A component that contains a cycle, a self-dependency included. */
  ghost predicate Cyclic(g: Graph, c: set<string>) {
    exists v, w | v in c && w in c :: Edge(g, v, w)
  }

  /** No edge of `g` leaves `c`. */
  ghost predicate IsSink(g: Graph, c: set<string>) {
    forall v, w | v in c && Edge(g, v, w) :: w in c
  }

  ghost predicate IsSinkCycle(g: Graph, c: set<string>) {
    IsComponent(g, c) && IsSink(g, c) && Cyclic(g, c)
  }

  // ------------------------------------------------------------------ selection

  /** The filter at the end of the search. */
  predicate Selected(g: Graph, component: seq<string>)
    requires component != [] && forall v | v in component :: v in g
  {
    && (|component| > 1 || component[0] in g[component[0]])
    && forall v | v in component :: forall w | w in g[v] :: w !in g || w in component
  }

  /** The executable test keeps exactly the cyclic components no edge leaves. */
  lemma SelectedIsSinkCycle(g: Graph, component: seq<string>)
    requires Distinct(component) && IsComponent(g, Elems(component))
    ensures component != [] && forall v | v in component :: v in g
    ensures Selected(g, component) <==> IsSinkCycle(g, Elems(component))
  {
    hide Reach, Scc;
    var c := Elems(component);
    assert component != [] by {
      var v :| v in c;
    }
    assert forall v | v in component :: v in c;
    if |component| > 1 {
      WideIsCyclic(g, c, component[0], component[1]);
    } else {
      assert forall v | v in c :: v == component[0];
    }
    assert component[0] in c;
  }

  /** A component with two members contains an edge. */
  lemma WideIsCyclic(g: Graph, c: set<string>, a: string, b: string)
    requires IsComponent(g, c) && a in c && b in c && a != b
    ensures Cyclic(g, c)
  {
    hide Reach;
    assert c == Scc(g, a);
    var u, w := ReachExit(g, a, b, {a});
    ReachTrans(g, w, b, a);
    ReachEdge(g, a, w);
    assert w in c;
  }

  /** Two components that share a member are equal. */
  lemma ComponentsMeet(g: Graph, a: set<string>, b: set<string>, v: string)
    requires IsComponent(g, a) && IsComponent(g, b) && v in a && v in b
    ensures a == b
  {
  }

  /** `sinks` are the cyclic sink components among the first `k` components. */
  ghost predicate Filtered(g: Graph, components: seq<seq<string>>, k: nat, sinks: seq<seq<string>>) {
    && k <= |components|
    && (forall i | 0 <= i < |sinks| :: IsSinkCycle(g, Elems(sinks[i])) && Among(components, k, sinks[i]))
    && (forall i, j, v | 0 <= i < j < |sinks| && v in sinks[i] :: v !in sinks[j])
    && (forall a | 0 <= a < k && IsSinkCycle(g, Elems(components[a])) :: components[a] in sinks)
  }

  ghost predicate Among(components: seq<seq<string>>, k: nat, c: seq<string>) {
    exists a :: 0 <= a < k && a < |components| && components[a] == c
  }

  lemma FilterStep(g: Graph, components: seq<seq<string>>, k: nat, sinks: seq<seq<string>>)
    requires Partition(g, components) && Filtered(g, components, k, sinks) && k < |components|
    ensures Filtered(g, components, k + 1,
                     if IsSinkCycle(g, Elems(components[k])) then sinks + [components[k]] else sinks)
  {
    hide IsSinkCycle, IsComponent, Distinct, Elems, Among;
    forall i | 0 <= i < |sinks|
      ensures Among(components, k + 1, sinks[i])
    {
      AmongMore(components, k, sinks[i]);
    }
    AmongSelf(components, k);
    forall i, v | 0 <= i < |sinks| && v in sinks[i]
      ensures v !in components[k]
    {
      AmongDisjoint(g, components, k, sinks[i], v);
    }
  }

  lemma AmongMore(components: seq<seq<string>>, k: nat, c: seq<string>)
    requires Among(components, k, c)
    ensures Among(components, k + 1, c)
  {
  }

  lemma AmongSelf(components: seq<seq<string>>, k: nat)
    requires k < |components|
    ensures Among(components, k + 1, components[k])
  {
  }

  lemma AmongDisjoint(g: Graph, components: seq<seq<string>>, k: nat, c: seq<string>, v: string)
    requires Partition(g, components) && k < |components| && Among(components, k, c) && v in c
    ensures v !in components[k]
  {
    hide IsComponent, Distinct, Elems;
  }

  /** Nothing is lost by the filter: every cyclic sink component is one of the
      emitted components. */
  lemma FilterComplete(g: Graph, components: seq<seq<string>>, sinks: seq<seq<string>>, c: set<string>) returns (i: nat)
    requires Partition(g, components) && Filtered(g, components, |components|, sinks)
    requires IsSinkCycle(g, c)
    ensures i < |sinks| && Elems(sinks[i]) == c
  {
    hide Scc, IsSink, Cyclic, Distinct;
    var v :| v in c;
    var a :| 0 <= a < |components| && v in components[a];
    ComponentsMeet(g, c, Elems(components[a]), v);
    assert components[a] in sinks;
    i :| 0 <= i < |sinks| && sinks[i] == components[a];
  }

  lemma FilterSound(g: Graph, components: seq<seq<string>>, sinks: seq<seq<string>>)
    requires Partition(g, components) && Filtered(g, components, |components|, sinks)
    ensures forall i | 0 <= i < |sinks| :: Distinct(sinks[i]) && IsSinkCycle(g, Elems(sinks[i]))
    ensures forall i, j, v | 0 <= i < j < |sinks| && v in sinks[i] :: v !in sinks[j]
  {
    hide IsSinkCycle, IsComponent, Distinct;
  }

  lemma PartitionAt(g: Graph, components: seq<seq<string>>, k: nat)
    requires Partition(g, components) && k < |components|
    ensures Distinct(components[k]) && IsComponent(g, Elems(components[k]))
  {
  }

  /** The source's search as a whole: every returned list is one cyclic sink
      component, and every cyclic sink component is returned exactly once. */
  method SinkCycles(g: Graph, order: seq<string>) returns (sinks: seq<seq<string>>)
    requires Elems(order) == g.Keys
    ensures forall i | 0 <= i < |sinks| :: Distinct(sinks[i]) && IsSinkCycle(g, Elems(sinks[i]))
    ensures forall i, j, v | 0 <= i < j < |sinks| && v in sinks[i] :: v !in sinks[j]
    ensures forall c | IsSinkCycle(g, c) :: exists i :: 0 <= i < |sinks| && Elems(sinks[i]) == c
  {
    hide *;
    var components := Components(g, order);
    sinks := [];
    NothingFiltered(g, components);
    for k := 0 to |components|
      invariant Filtered(g, components, k, sinks)
    {
      PartitionAt(g, components, k);
      SelectedIsSinkCycle(g, components[k]);
      FilterStep(g, components, k, sinks);
      if Selected(g, components[k]) {
        sinks := sinks + [components[k]];
      }
    }
    FilterSound(g, components, sinks);
    forall c | IsSinkCycle(g, c)
      ensures exists i :: 0 <= i < |sinks| && Elems(sinks[i]) == c
    {
      var i := FilterComplete(g, components, sinks, c);
    }
  }

  lemma NothingFiltered(g: Graph, components: seq<seq<string>>)
    ensures Filtered(g, components, 0, [])
  {
  }

  // ------------------------------------------------------------------ existence

  ghost function ReachSet(g: Graph, v: string): set<string> {
    set w | w in g && Reach(g, v, w)
  }

  ghost predicate HasEdge(g: Graph, v: string) {
    exists w :: Edge(g, v, w)
  }

  lemma SomeEdge(g: Graph, v: string) returns (w: string)
    requires HasEdge(g, v)
    ensures Edge(g, v, w)
  {
    w :| Edge(g, v, w);
  }

  /** A non-empty graph in which every vertex has an edge has a cyclic sink component. */
  lemma SinkCycleExists(g: Graph)
    requires g.Keys != {}
    requires forall v | v in g :: HasEdge(g, v)
    ensures exists c :: IsSinkCycle(g, c)
  {
    hide Reach, Scc, ReachSet, HasEdge, Edge;
    var v0 :| v0 in g;
    var v := LeastReach(g, v0);
    var c := Scc(g, v);
    SccSelf(g, v);
    forall u | u in c
      ensures u in g && c == Scc(g, u)
    {
      SccSame(g, v, u);
      SccMember(g, v, u);
    }
    forall u, w | u in c && Edge(g, u, w)
      ensures w in c
    {
      LeastIsSink(g, v, u, w);
    }
    var w := SomeEdge(g, v);
    assert Cyclic(g, c);
    assert IsSinkCycle(g, c);
  }

  lemma SccMember(g: Graph, v: string, u: string)
    requires u in Scc(g, v)
    ensures u in g && Reach(g, v, u) && Reach(g, u, v)
  {
    hide Reach;
  }

  lemma LeastIsSink(g: Graph, v: string, u: string, w: string)
    requires v in g && u in Scc(g, v) && Edge(g, u, w)
    requires forall z | z in g && Reach(g, v, z) :: |ReachSet(g, v)| <= |ReachSet(g, z)|
    ensures w in Scc(g, v)
  {
    hide Reach;
    ReachEdge(g, u, w);
    ReachTrans(g, v, u, w);
    ReachSetShrinks(g, v, w);
    SetsOfSameSize(ReachSet(g, w), ReachSet(g, v));
    ReachSelf(g, v);
    assert v in ReachSet(g, v);
  }

  lemma ReachSetShrinks(g: Graph, v: string, w: string)
    requires Reach(g, v, w)
    ensures ReachSet(g, w) <= ReachSet(g, v)
  {
    hide Reach;
    forall u | u in ReachSet(g, w)
      ensures u in ReachSet(g, v)
    {
      ReachTrans(g, v, w, u);
    }
  }

  lemma SetsOfSameSize(a: set<string>, b: set<string>)
    requires a <= b && |b| <= |a|
    ensures a == b
  {
    assert b == a + (b - a);
    assert |b| == |a| + |b - a|;
  }

  /** Some vertex reaches no more vertices than any vertex it reaches. */
  lemma {:induction false} LeastReach(g: Graph, v: string) returns (least: string)
    requires v in g
    ensures least in g
    ensures forall w | w in g && Reach(g, least, w) :: |ReachSet(g, least)| <= |ReachSet(g, w)|
    decreases |ReachSet(g, v)|
  {
    hide Reach, ReachSet;
    if w :| w in g && Reach(g, v, w) && |ReachSet(g, w)| < |ReachSet(g, v)| {
      least := LeastReach(g, w);
    } else {
      least := v;
    }
  }

  /** In an acyclic graph every non-empty set of vertices has a member with no edge
      into the set. */
  lemma AcyclicHasMinimal(g: Graph, s: set<string>) returns (v: string)
    requires Acyclic(g) && s <= g.Keys && s != {}
    ensures v in s && forall w | Edge(g, v, w) :: w !in s
  {
    hide Reach, Scc, HasEdge, Acyclic, IsSinkCycle;
    var r := map k | k in s :: g[k];
    if forall u | u in r :: HasEdge(r, u) {
      SinkCycleExists(r);
      var c :| IsSinkCycle(r, c);
      SinkCycleIsCycle(r, g, c);
    }
    v :| v in r && !HasEdge(r, v);
    forall w | Edge(g, v, w)
      ensures w !in s
    {
      if w in s {
        EdgeGiven(r, v, w);
      }
    }
  }

  lemma EdgeGiven(g: Graph, v: string, w: string)
    requires Edge(g, v, w)
    ensures HasEdge(g, v)
  {
  }

  lemma SinkCycleIsCycle(r: Graph, g: Graph, c: set<string>)
    requires Subgraph(r, g) && IsSinkCycle(r, c)
    ensures !Acyclic(g)
  {
    hide Reach, Acyclic;
    var v, w :| v in c && w in c && Edge(r, v, w);
    assert w in Scc(r, v);
    SubgraphReach(r, g, w, v);
    MutualEdgeIsCycle(g, v, w);
  }
}
