/** Gate-graph validation of dsh/scripts/run-gates.ts: the checks made before any
    gate starts, and the depth-first search for a dependency cycle. */
module GateGraph {

  import opened Options
  import opened Digraph

  /** One gate and its dependency metadata; an absent list is empty. */
  datatype Gate = Gate(id: string, needs: seq<string>, after: seq<string>)

  function Predecessors(gate: Gate): seq<string> {
    gate.needs + gate.after
  }

  /** The gates by id, with their predecessor lists as values. */
  function GraphOf(gates: seq<Gate>): Graph {
    if gates == [] then map[]
    else
      var last := gates[|gates| - 1];
      GraphOf(gates[..|gates| - 1])[last.id := Predecessors(last)]
  }

  ghost predicate UniqueIds(gates: seq<Gate>) {
    forall i, j | 0 <= i < j < |gates| :: gates[i].id != gates[j].id
  }

  ghost predicate HasId(gates: seq<Gate>, id: string) {
    exists i :: 0 <= i < |gates| && gates[i].id == id
  }

  ghost predicate ClosedReferences(gates: seq<Gate>) {
    forall gate, id | gate in gates && id in Predecessors(gate) :: HasId(gates, id)
  }

  /** What a runnable aggregate is: non-empty, unambiguous, closed and acyclic. */
  ghost predicate ValidGates(gates: seq<Gate>) {
    gates != [] && UniqueIds(gates) && ClosedReferences(gates) && Acyclic(GraphOf(gates))
  }

  lemma {:induction false} GraphKeys(gates: seq<Gate>)
    ensures forall id :: id in GraphOf(gates) <==> HasId(gates, id)
  {
    if gates != [] {
      var init := gates[..|gates| - 1];
      GraphKeys(init);
      forall id
        ensures id in GraphOf(gates) <==> HasId(gates, id)
      {
        if HasId(init, id) {
          var i :| 0 <= i < |init| && init[i].id == id;
          assert gates[i].id == id;
        }
        if HasId(gates, id) {
          var i :| 0 <= i < |gates| && gates[i].id == id;
          assert i < |init| ==> init[i].id == id;
        }
      }
    }
  }

  lemma {:induction false} GraphEntry(gates: seq<Gate>, gate: Gate)
    requires UniqueIds(gates) && gate in gates
    ensures gate.id in GraphOf(gates) && GraphOf(gates)[gate.id] == Predecessors(gate)
  {
    var n := |gates| - 1;
    if gate != gates[n] {
      assert gates == gates[..n] + [gates[n]];
      GraphEntry(gates[..n], gate);
      var i :| 0 <= i < n && gates[i] == gate;
    }
  }

  /** The edges of the graph lead from a gate to each of its needs and to each gate it waits for. */
  lemma EdgeMeans(gates: seq<Gate>, a: string, b: string)
    requires UniqueIds(gates)
    ensures Edge(GraphOf(gates), a, b)
       <==> HasId(gates, b) && exists gate | gate in gates :: gate.id == a && (b in gate.needs || b in gate.after)
  {
    GraphKeys(gates);
    hide GraphOf;
    forall gate | gate in gates
      ensures gate.id in GraphOf(gates) && GraphOf(gates)[gate.id] == gate.needs + gate.after
    {
      GraphEntry(gates, gate);
    }
    if HasId(gates, a) {
      var i :| 0 <= i < |gates| && gates[i].id == a;
      assert gates[i] in gates;
    }
  }

  // -------------------------------------------------------------------- cycle search

  /** A closed walk: equal ends, at least one edge, each step a predecessor edge. */
  ghost predicate IsCycle(g: Graph, c: seq<string>) {
    Path(g, c) && |c| > 1 && c[0] == c[|c| - 1]
  }

  lemma {:induction false} PathSuffix(g: Graph, p: seq<string>, k: nat)
    requires Path(g, p) && k < |p|
    ensures Path(g, p[k..])
  {
    if k > 0 {
      PathSuffix(g, p[1..], k - 1);
      assert p[1..][k - 1..] == p[k..];
    }
  }

  lemma PathExtend(g: Graph, p: seq<string>, v: string)
    requires Path(g, p) && Edge(g, p[|p| - 1], v)
    ensures Path(g, p + [v])
  {
    var q := [p[|p| - 1], v];
    assert q[1..] == [v];
    PathAppend(g, p, q);
  }

  /** The finished ids in completion order: every predecessor finished earlier. */
  ghost predicate Finished(g: Graph, order: seq<string>) {
    && (forall i, j | 0 <= i < j < |order| :: order[i] != order[j])
    && forall i, w | 0 <= i < |order| && Edge(g, order[i], w) :: w in order[..i]
  }

  lemma {:induction false} FinishedPath(g: Graph, order: seq<string>, p: seq<string>, i: nat)
    requires Finished(g, order) && Path(g, p) && |p| > 1
    requires i < |order| && order[i] == p[0]
    ensures p[|p| - 1] in order[..i]
  {
    assert Edge(g, order[i], p[1]);
    var k :| 0 <= k < i && order[k] == p[1];
    if |p| > 2 {
      FinishedPath(g, order, p[1..], k);
      assert order[..k] <= order[..i];
      var m :| 0 <= m < k && order[m] == p[|p| - 1];
      assert order[..i][m] == order[m];
    }
  }

  /** A completion order of every id rules a cycle out. */
  lemma FinishedAcyclic(g: Graph, order: seq<string>)
    requires Finished(g, order) && forall v | v in g :: v in order
    ensures Acyclic(g)
  {
    forall p | Path(g, p) && |p| > 1
      ensures p[0] != p[|p| - 1]
    {
      var i :| 0 <= i < |order| && order[i] == p[0];
      FinishedPath(g, order, p, i);
      assert forall k | 0 <= k < i :: order[..i][k] == order[k];
    }
  }

  lemma FinishedAppend(g: Graph, order: seq<string>, id: string)
    requires Finished(g, order) && id !in order
    requires forall w | Edge(g, id, w) :: w in order
    ensures Finished(g, order + [id])
  {
    var more := order + [id];
    forall i, w | 0 <= i < |more| && Edge(g, more[i], w)
      ensures w in more[..i]
    {
      if i < |order| {
        assert more[..i] == order[..i];
      } else {
        assert more[..i] == order;
      }
    }
  }

  lemma PathOne(g: Graph, v: string)
    requires v in g
    ensures Path(g, [v])
  {
  }

  /** The open visits: `path` is a walk and `active` maps its entries to positions. */
  ghost predicate Marked(g: Graph, path: seq<string>, active: map<string, nat>, complete: set<string>) {
    && (path != [] ==> Path(g, path))
    && (forall i | 0 <= i < |path| :: path[i] in active && active[path[i]] == i)
    && (forall v | v in active :: active[v] < |path| && path[active[v]] == v)
    && (forall v | v in active :: v in g && v !in complete)
  }

  lemma MarkedPush(g: Graph, path: seq<string>, active: map<string, nat>, complete: set<string>, id: string)
    requires Marked(g, path, active, complete) && id in g && id !in active && id !in complete
    requires path != [] ==> Edge(g, path[|path| - 1], id)
    ensures Marked(g, path + [id], active[id := |path|], complete)
  {
    hide Path;
    if path != [] {
      PathExtend(g, path, id);
    } else {
      PathOne(g, id);
      assert path + [id] == [id];
    }
  }

  lemma MarkedPop(g: Graph, path: seq<string>, active: map<string, nat>, before: set<string>,
                  complete: set<string>, id: string)
    requires Marked(g, path, active, before) && id !in active
    requires Marked(g, path + [id], active[id := |path|], complete)
    ensures Marked(g, path, active, complete + {id})
  {
    var open := active[id := |path|];
    forall v | v in active
      ensures v in g && v !in complete + {id} && active[v] < |path| && path[active[v]] == v
    {
      assert v in open && open[v] == active[v];
    }
  }

  lemma ActiveNotComplete(g: Graph, path: seq<string>, active: map<string, nat>, complete: set<string>, id: string)
    requires Marked(g, path, active, complete) && id in active
    ensures id !in complete
  {
  }

  /** Meeting an open visit closes a cycle. */
  lemma MarkedCycle(g: Graph, path: seq<string>, active: map<string, nat>, complete: set<string>, id: string)
    requires Marked(g, path, active, complete) && id in active
    requires id in g && path != [] ==> Edge(g, path[|path| - 1], id)
    ensures active[id] < |path| && IsCycle(g, path[active[id]..] + [id])
  {
    PathSuffix(g, path, active[id]);
    PathExtend(g, path[active[id]..], id);
  }

  /** The closure variables of `findDependencyCycle`. */
  class CycleSearch {
    const graph: Graph
    var complete: set<string>
    var active: map<string, nat>
    var path: seq<string>
    ghost var order: seq<string>

    ghost predicate Valid()
      reads this
    {
      && Marked(graph, path, active, complete)
      && Finished(graph, order)
      && (forall v :: v in complete <==> v in order)
    }

    constructor (g: Graph)
      ensures graph == g && Valid() && path == [] && order == []
    {
      graph := g;
      complete, active, path, order := {}, map[], [], [];
    }

    method Visit(id: string) returns (cycle: Option<seq<string>>)
      requires Valid() && (path != [] && id in graph ==> Edge(graph, path[|path| - 1], id))
      modifies this
      ensures cycle.Some? ==> IsCycle(graph, cycle.value)
      ensures cycle.None? ==> Valid() && path == old(path) && active == old(active)
      ensures cycle.None? ==> old(complete) <= complete && (id in graph ==> id in complete)
      decreases graph.Keys - active.Keys
    {
      hide Marked, Finished, IsCycle;
      if id in complete {
        return None;
      }
      if id in active {
        var cycleStart := active[id];
        MarkedCycle(graph, path, active, complete, id);
        return Some(path[cycleStart..] + [id]);
      }
      if id !in graph {
        return None;
      }
      ghost var outer, outerActive := path, active;
      MarkedPush(graph, path, active, complete, id);
      active := active[id := |path|];
      path := path + [id];
      var predecessors := graph[id];
      for k := 0 to |predecessors|
        invariant Valid() && path == outer + [id] && active == outerActive[id := |outer|]
        invariant old(complete) <= complete
        invariant forall i | 0 <= i < k && predecessors[i] in graph :: predecessors[i] in complete
      {
        assert id in graph.Keys - outerActive.Keys && id !in graph.Keys - active.Keys;
        cycle := Visit(predecessors[k]);
        if cycle.Some? {
          return;
        }
      }
      ActiveNotComplete(graph, path, active, complete, id);
      assert path[..|path| - 1] == outer;
      assert active - {id} == outerActive;
      MarkedPop(graph, outer, outerActive, old(complete), complete, id);
      path := path[..|path| - 1];
      active := active - {id};
      FinishedAppend(graph, order, id);
      complete := complete + {id};
      order := order + [id];
      cycle := None;
    }
  }

  /** Sound and complete: a cycle is returned exactly when there is one. */
  method FindDependencyCycle(gates: seq<Gate>) returns (cycle: Option<seq<string>>)
    ensures cycle.Some? ==> IsCycle(GraphOf(gates), cycle.value)
    ensures cycle.None? <==> Acyclic(GraphOf(gates))
  {
    var g := GraphOf(gates);
    GraphKeys(gates);
    var search := new CycleSearch(g);
    for k := 0 to |gates|
      invariant search.graph == g && search.Valid() && search.path == []
      invariant forall i | 0 <= i < k :: gates[i].id in search.complete
    {
      assert HasId(gates, gates[k].id);
      cycle := search.Visit(gates[k].id);
      if cycle.Some? {
        return;
      }
    }
    FinishedAcyclic(g, search.order);
    cycle := None;
  }

  // ---------------------------------------------------------------------- validation

  datatype Validation =
    | Valid
    | NoGates
    | DuplicateId(id: string)
    | UnknownNeed(id: string, dependency: string)
    | UnknownAfter(id: string, predecessor: string)
    | Cycle(path: seq<string>)

  /** Entry `j` is the first of the list that no gate has for its id. */
  ghost predicate FirstUnknownAt(gates: seq<Gate>, references: seq<string>, j: nat) {
    j < |references| && !HasId(gates, references[j]) && forall k | 0 <= k < j :: HasId(gates, references[k])
  }

  ghost predicate AllKnown(gates: seq<Gate>, references: seq<string>) {
    forall d | d in references :: HasId(gates, d)
  }

  /** The first `k` gates refer to known gates only. */
  ghost predicate KnownUpTo(gates: seq<Gate>, k: nat)
    requires k <= |gates|
  {
    forall i | 0 <= i < k :: AllKnown(gates, gates[i].needs) && AllKnown(gates, gates[i].after)
  }

  ghost predicate RepeatsAt(gates: seq<Gate>, k: nat) {
    k < |gates| && UniqueIds(gates[..k]) && HasId(gates[..k], gates[k].id)
  }

  ghost predicate UnknownNeedAt(gates: seq<Gate>, d: string, k: nat, j: nat) {
    k < |gates| && KnownUpTo(gates, k) && FirstUnknownAt(gates, gates[k].needs, j) && gates[k].needs[j] == d
  }

  ghost predicate UnknownAfterAt(gates: seq<Gate>, d: string, k: nat, j: nat) {
    && k < |gates| && KnownUpTo(gates, k) && AllKnown(gates, gates[k].needs)
    && FirstUnknownAt(gates, gates[k].after, j) && gates[k].after[j] == d
  }

  method FirstUnknown(gates: seq<Gate>, ids: set<string>, references: seq<string>)
    returns (unknown: Option<string>, ghost j: nat)
    requires forall id :: id in ids <==> HasId(gates, id)
    ensures unknown.Some? ==> FirstUnknownAt(gates, references, j) && unknown.value == references[j]
    ensures unknown.None? ==> AllKnown(gates, references)
  {
    hide HasId;
    j := 0;
    for k := 0 to |references|
      invariant forall i | 0 <= i < k :: references[i] in ids
    {
      if references[k] !in ids {
        return Some(references[k]), k;
      }
    }
    unknown := None;
  }

  /** What a refusal says: the first id that is repeated; or, with unique ids, the first unknown
      reference, the needs of a gate before what it waits for; or, with all known, a cycle. */
  ghost predicate Refuses(gates: seq<Gate>, r: Validation) {
    match r
    case Valid => false
    case NoGates => gates == []
    case DuplicateId(id) => exists k: nat :: RepeatsAt(gates, k) && gates[k].id == id
    case UnknownNeed(id, d) =>
      UniqueIds(gates) && exists k: nat, j: nat :: UnknownNeedAt(gates, d, k, j) && gates[k].id == id
    case UnknownAfter(id, d) =>
      UniqueIds(gates) && exists k: nat, j: nat :: UnknownAfterAt(gates, d, k, j) && gates[k].id == id
    case Cycle(path) => UniqueIds(gates) && ClosedReferences(gates) && IsCycle(GraphOf(gates), path)
  }

  /** The gate graph is accepted exactly when it can be executed unambiguously, and a
      refusal names the first real defect. */
  method ValidateGateGraph(gates: seq<Gate>) returns (r: Validation)
    ensures r.Valid? <==> ValidGates(gates)
    ensures !r.Valid? ==> Refuses(gates, r)
  {
    hide Acyclic, IsCycle, HasId;
    if |gates| == 0 {
      return NoGates;
    }
    var ids: set<string> := {};
    assert forall id :: !HasId(gates[..0], id) by { NoIds(gates); }
    for k := 0 to |gates|
      invariant forall id :: id in ids <==> HasId(gates[..k], id)
      invariant UniqueIds(gates[..k])
    {
      assert gates[..k + 1] == gates[..k] + [gates[k]];
      if gates[k].id in ids {
        assert RepeatsAt(gates, k);
        RepeatedNotUnique(gates, k);
        return DuplicateId(gates[k].id);
      }
      HasOneMore(gates, k);
      UniqueOneMore(gates, k);
      ids := ids + {gates[k].id};
    }
    assert gates[..|gates|] == gates;
    for k := 0 to |gates|
      invariant KnownUpTo(gates, k)
    {
      var dependency, j := FirstUnknown(gates, ids, gates[k].needs);
      if dependency.Some? {
        assert UnknownNeedAt(gates, dependency.value, k, j);
        UnknownNotClosed(gates, k, dependency.value);
        return UnknownNeed(gates[k].id, dependency.value);
      }
      var predecessor, i := FirstUnknown(gates, ids, gates[k].after);
      if predecessor.Some? {
        assert UnknownAfterAt(gates, predecessor.value, k, i);
        UnknownNotClosed(gates, k, predecessor.value);
        return UnknownAfter(gates[k].id, predecessor.value);
      }
    }
    KnownClosed(gates);
    var cycle := FindDependencyCycle(gates);
    r := match cycle case Some(path) => Cycle(path) case None => Valid;
  }

  lemma NoIds(gates: seq<Gate>)
    ensures forall id :: !HasId(gates[..0], id)
  {
  }

  lemma RepeatedNotUnique(gates: seq<Gate>, k: nat)
    requires RepeatsAt(gates, k)
    ensures !UniqueIds(gates)
  {
    var i :| 0 <= i < k && gates[..k][i].id == gates[k].id;
    assert gates[i].id == gates[k].id;
  }

  lemma UniqueOneMore(gates: seq<Gate>, k: nat)
    requires k < |gates| && UniqueIds(gates[..k]) && !HasId(gates[..k], gates[k].id)
    ensures UniqueIds(gates[..k + 1])
  {
    var init, more := gates[..k], gates[..k + 1];
    assert forall i | 0 <= i < k :: more[i] == init[i];
  }

  lemma UnknownNotClosed(gates: seq<Gate>, k: nat, d: string)
    requires k < |gates| && (d in gates[k].needs || d in gates[k].after) && !HasId(gates, d)
    ensures !ClosedReferences(gates)
  {
    assert gates[k] in gates && d in Predecessors(gates[k]);
  }

  lemma KnownClosed(gates: seq<Gate>)
    requires KnownUpTo(gates, |gates|)
    ensures ClosedReferences(gates)
  {
    forall gate, id | gate in gates && id in Predecessors(gate)
      ensures HasId(gates, id)
    {
      var i :| 0 <= i < |gates| && gates[i] == gate;
      assert AllKnown(gates, gates[i].needs) && AllKnown(gates, gates[i].after);
    }
  }

  lemma HasOneMore(gates: seq<Gate>, k: nat)
    requires k < |gates|
    ensures forall id :: HasId(gates[..k + 1], id) <==> HasId(gates[..k], id) || id == gates[k].id
  {
    forall id
      ensures HasId(gates[..k + 1], id) <==> HasId(gates[..k], id) || id == gates[k].id
    {
      if HasId(gates[..k], id) {
        var i :| 0 <= i < k && gates[..k][i].id == id;
        assert gates[..k + 1][i].id == id;
      }
      if HasId(gates[..k + 1], id) {
        var i :| 0 <= i < k + 1 && gates[..k + 1][i].id == id;
        assert i < k ==> gates[..k][i].id == id;
      }
      assert gates[..k + 1][k].id == gates[k].id;
    }
  }
}
