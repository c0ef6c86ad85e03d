/** The component search of dsh/scripts/package-graph.ts: one depth-first pass
    that assigns indices and low links, keeps open packages on a stack, and pops
    a whole strongly connected component at each component root. Packages are
    referred to by short name, the key of the source's maps. */
module ComponentSearch {

  import opened Digraph

  // ------------------------------------------------------------------ sequences

  ghost predicate Distinct(s: seq<string>) {
    forall i, j | 0 <= i < j < |s| :: s[i] != s[j]
  }

  ghost function Elems(s: seq<string>): (r: set<string>)
    ensures forall x :: x in r <==> x in s
  {
    set x | x in s
  }

  // ------------------------------------------------------------- specification

  /** `c` is one whole strongly connected component of `g`. */
  ghost predicate IsComponent(g: Graph, c: set<string>) {
    c != {} && forall v | v in c :: v in g && c == Scc(g, v)
  }

  // -------------------------------------------------------------- search state

  /** The search's variables: `active` names the visits that have not returned. */
  datatype Marks = Marks(
    next: nat,
    index: map<string, nat>,
    low: map<string, nat>,
    stack: seq<string>,
    components: seq<seq<string>>,
    active: set<string>)

  ghost predicate Numbered(g: Graph, m: Marks) {
    && m.index.Keys <= g.Keys
    && m.low.Keys == m.index.Keys
    && (forall v | v in m.index :: m.index[v] < m.next)
    && (forall v | v in m.stack :: v in m.index)
    && (forall i, j | 0 <= i < j < |m.stack| :: m.index[m.stack[i]] < m.index[m.stack[j]])
    && (forall v | v in m.active :: v in m.stack)
  }

  ghost predicate InComponent(m: Marks, v: string) {
    exists i :: 0 <= i < |m.components| && v in m.components[i]
  }

  /** Emitted components are whole, and split the indexed names with the stack. */
  ghost predicate Emitted(g: Graph, m: Marks) {
    && (forall i | 0 <= i < |m.components| ::
          Distinct(m.components[i]) && IsComponent(g, Elems(m.components[i])))
    && (forall i, j, v | 0 <= i < j < |m.components| && v in m.components[i] :: v !in m.components[j])
    && (forall v :: v in m.index && v !in m.stack <==> InComponent(m, v))
  }

  lemma EmittedFrame(g: Graph, m: Marks, n: Marks)
    requires Emitted(g, m) && n.components == m.components
    requires forall v :: v in n.index && v !in n.stack <==> v in m.index && v !in m.stack
    ensures Emitted(g, n)
  {
    hide Reach, Descends, InComponent, IsComponent, Distinct;
    assert forall v :: InComponent(n, v) <==> InComponent(m, v) by {
      forall v ensures InComponent(n, v) <==> InComponent(m, v) {
        SameComponents(m, n, v);
      }
    }
  }

  /** A name mutually reachable with an emitted one is off the stack too. */
  lemma EmittedWhole(g: Graph, m: Marks, z: string, x: string)
    requires Emitted(g, m) && z in m.index && z !in m.stack
    requires Reach(g, z, x) && Reach(g, x, z)
    ensures x !in m.stack
  {
    hide Reach;
    assert InComponent(m, z);
    var e :| 0 <= e < |m.components| && z in m.components[e];
    ReachIn(g, z, x);
    assert z in Elems(m.components[e]);
    assert x in Scc(g, z);
    assert x in Elems(m.components[e]);
    InComponentAt(m, e, x);
  }

  lemma SameComponents(m: Marks, n: Marks, v: string)
    requires n.components == m.components
    ensures InComponent(n, v) <==> InComponent(m, v)
  {
  }

  /** A finished visit leaves no unindexed successor behind. */
  ghost predicate Explored(g: Graph, m: Marks) {
    forall v, w | v in m.index && v !in m.active && Edge(g, v, w) :: w in m.index
  }

  /** A stack entry reaches every entry above it. */
  ghost predicate Upward(g: Graph, m: Marks) {
    forall i, j | 0 <= i <= j < |m.stack| :: Reach(g, m.stack[i], m.stack[j])
  }

  ghost predicate ActiveBelow(g: Graph, m: Marks, v: string, w: string)
    requires Numbered(g, m) && v in m.stack
  {
    w in m.active && m.index[w] <= m.index[v] && Reach(g, v, w)
  }

  /** Every stack entry reaches an active entry at or below itself. */
  ghost predicate Downward(g: Graph, m: Marks)
    requires Numbered(g, m)
  {
    forall v | v in m.stack :: Descends(g, m, v)
  }

  ghost predicate Descends(g: Graph, m: Marks, v: string)
    requires Numbered(g, m) && v in m.stack
  {
    exists w :: ActiveBelow(g, m, v, w)
  }

  lemma DescentTo(g: Graph, m: Marks, v: string) returns (w: string)
    requires Numbered(g, m) && v in m.stack && Descends(g, m, v)
    ensures ActiveBelow(g, m, v, w)
  {
    w :| ActiveBelow(g, m, v, w);
  }

  lemma DescentFrom(g: Graph, m: Marks, v: string, w: string)
    requires Numbered(g, m) && v in m.stack && ActiveBelow(g, m, v, w)
    ensures Descends(g, m, v)
  {
  }

  ghost predicate Inv(g: Graph, m: Marks) {
    && Numbered(g, m) && Emitted(g, m) && Explored(g, m) && Upward(g, m) && Downward(g, m)
  }

  ghost const Start := Marks(0, map[], map[], [], [], {})

  lemma StartInv(g: Graph)
    ensures Inv(g, Start)
  {
  }

  // ------------------------------------------------------------- state changes

  ghost function Push(m: Marks, x: string): Marks {
    m.(next := m.next + 1, index := m.index[x := m.next], low := m.low[x := m.next],
       stack := m.stack + [x], active := m.active + {x})
  }

  ghost predicate CanVisit(g: Graph, m: Marks, x: string) {
    x in g && x !in m.index && forall w | w in m.active :: Reach(g, w, x)
  }

  lemma PushInv(g: Graph, m: Marks, x: string)
    requires Inv(g, m) && CanVisit(g, m, x)
    ensures Inv(g, Push(m, x))
  {
    hide Reach, Descends, Emitted;
    var n := Push(m, x);
    ReachSelf(g, x);
    assert Numbered(g, n);
    EmittedFrame(g, m, n);
    forall i, j | 0 <= i <= j < |n.stack|
      ensures Reach(g, n.stack[i], n.stack[j])
    {
      if i < j == |m.stack| {
        assert m.stack[i] in m.stack;
        var w := DescentTo(g, m, m.stack[i]);
        ReachTrans(g, m.stack[i], w, x);
      }
    }
    forall v | v in n.stack
      ensures Descends(g, n, v)
    {
      if v == x {
        DescentFrom(g, n, x, x);
      } else {
        var w := DescentTo(g, m, v);
        DescentFrom(g, n, v, w);
      }
    }
  }

  /** `m` continues `before`: nothing recorded earlier has changed. */
  ghost predicate Extends(before: Marks, m: Marks) {
    && before.next <= m.next
    && before.index.Keys <= m.index.Keys
    && before.index.Keys <= before.low.Keys && m.index.Keys <= m.low.Keys
    && (forall v | v in before.index :: m.index[v] == before.index[v] && m.low[v] == before.low[v])
    && before.components <= m.components
    && before.stack <= m.stack
  }

  /** The low link of `x` is the index of a stack entry that `x` reaches. */
  ghost predicate LowWitness(g: Graph, m: Marks, x: string)
    requires Numbered(g, m) && x in m.index
  {
    exists y :: LowIs(g, m, x, y)
  }

  ghost predicate LowIs(g: Graph, m: Marks, x: string, y: string)
    requires Numbered(g, m) && x in m.index
  {
    y in m.stack && m.index[y] == m.low[x] && Reach(g, x, y)
  }

  /** No edge from an entry above position `from` of the stack goes below `bound`
      into the first `to` entries. */
  ghost predicate CrossBound(g: Graph, m: Marks, from: nat, to: nat, bound: nat)
    requires Numbered(g, m) && to <= from <= |m.stack|
  {
    forall i, j | from <= i < |m.stack| && 0 <= j < to && Edge(g, m.stack[i], m.stack[j]) ::
      bound <= m.index[m.stack[j]]
  }

  /** What one returned visit of `x` achieved from state `before` to state `m`. */
  ghost predicate Visited(g: Graph, before: Marks, m: Marks, x: string) {
    && Inv(g, m) && Extends(before, m) && m.active == before.active
    && x in m.index && m.index[x] == before.next && m.low[x] <= m.index[x]
    && (x in m.stack ==> LowWitness(g, m, x))
    && (x !in m.stack ==> m.low[x] == m.index[x])
    && CrossBound(g, m, |before.stack|, |before.stack|, m.low[x])
  }

  /** The state of the loop over `deps`, its first `k` successors handled. */
  ghost predicate Scanning(g: Graph, before: Marks, m: Marks, x: string, deps: seq<string>, k: nat) {
    && Inv(g, m) && Extends(before, m) && m.active == before.active + {x}
    && |before.stack| < |m.stack| && m.stack[|before.stack|] == x
    && x in m.index && m.index[x] == before.next && m.low[x] <= m.index[x]
    && x !in before.index
    && LowWitness(g, m, x)
    && CrossBound(g, m, |before.stack| + 1, |before.stack|, m.low[x])
    && k <= |deps|
    && Handled(g, before, m, x, deps, k)
  }

  /** The first `k` successors are indexed, and the low link of `x` is at or below those that
      were on the stack when its visit began. */
  ghost predicate Handled(g: Graph, before: Marks, m: Marks, x: string, deps: seq<string>, k: nat)
    requires x in m.low && k <= |deps|
  {
    && (forall i | 0 <= i < k && deps[i] in g :: deps[i] in m.index)
    && (forall i | 0 <= i < k && deps[i] in before.stack ::
          deps[i] in m.index && m.low[x] <= m.index[deps[i]])
  }

  lemma ScanStart(g: Graph, m: Marks, x: string, deps: seq<string>)
    requires Inv(g, m) && CanVisit(g, m, x)
    ensures Scanning(g, m, Push(m, x), x, deps, 0)
  {
    hide Reach, Emitted, Explored, Upward, Downward;
    PushInv(g, m, x);
    ReachSelf(g, x);
    assert LowIs(g, Push(m, x), x, x);
  }

  ghost function SetLow(m: Marks, x: string, value: nat): Marks {
    m.(low := m.low[x := value])
  }

  ghost function Min(a: nat, b: nat): nat {
    if a <= b then a else b
  }

  lemma SetLowInv(g: Graph, m: Marks, x: string, value: nat)
    requires Inv(g, m) && x in m.index
    ensures Inv(g, SetLow(m, x, value))
  {
    hide Reach, Descends, Emitted;
    var n := SetLow(m, x, value);
    EmittedFrame(g, m, n);
    forall v | v in n.stack
      ensures Descends(g, n, v)
    {
      var w := DescentTo(g, m, v);
      DescentFrom(g, n, v, w);
    }
  }

  /** After the recursive visit of an unindexed successor. */
  lemma ScanTree(g: Graph, before: Marks, m: Marks, n: Marks, x: string, deps: seq<string>, k: nat)
    requires Scanning(g, before, m, x, deps, k) && k < |deps|
    requires Edge(g, x, deps[k]) && deps[k] !in m.index
    requires Visited(g, m, n, deps[k])
    ensures Scanning(g, before, SetLow(n, x, Min(n.low[x], n.low[deps[k]])), x, deps, k + 1)
  {
    hide Reach, Edge, Emitted, Explored, Upward, Downward, CrossBound, Inv, LowWitness, Handled;
    var t := deps[k];
    var r := SetLow(n, x, Min(n.low[x], n.low[t]));
    InvNumbered(g, n);
    InvNumbered(g, m);
    SetLowInv(g, n, x, Min(n.low[x], n.low[t]));
    ScanTreeLow(g, before, m, n, x, t);
    ScanTreeCross(g, before, m, n, x, t);
    ScanTreeHandled(g, before, m, n, x, deps, k);
  }

  lemma ScanTreeHandled(g: Graph, before: Marks, m: Marks, n: Marks, x: string, deps: seq<string>, k: nat)
    requires k < |deps| && Numbered(g, m) && Extends(m, n) && x in m.index
    requires before.stack <= m.stack && deps[k] !in m.index && deps[k] in n.index
    requires Handled(g, before, m, x, deps, k)
    ensures Handled(g, before, SetLow(n, x, Min(n.low[x], n.low[deps[k]])), x, deps, k + 1)
  {
    hide Edge, Reach;
    assert deps[k] !in before.stack by {
      assert forall v | v in before.stack :: v in m.stack;
    }
  }

  lemma InvNumbered(g: Graph, m: Marks)
    requires Inv(g, m)
    ensures Numbered(g, m)
  {
  }

  lemma ScanTreeLow(g: Graph, before: Marks, m: Marks, n: Marks, x: string, t: string)
    requires Numbered(g, m) && x in m.index && LowWitness(g, m, x) && m.low[x] <= m.index[x]
    requires Visited(g, m, n, t) && Edge(g, x, t) && t !in m.index
    ensures Numbered(g, n) && Numbered(g, SetLow(n, x, Min(n.low[x], n.low[t])))
    ensures LowWitness(g, SetLow(n, x, Min(n.low[x], n.low[t])), x)
  {
    hide Reach, Edge, Emitted, Explored, Upward, Downward, CrossBound;
    var r := SetLow(n, x, Min(n.low[x], n.low[t]));
    if n.low[t] < n.low[x] {
      var y :| LowIs(g, n, t, y);
      ReachEdge(g, x, t);
      ReachTrans(g, x, t, y);
      assert LowIs(g, r, x, y);
    } else {
      var y :| LowIs(g, m, x, y);
      assert LowIs(g, r, x, y);
    }
  }

  lemma ScanTreeCross(g: Graph, before: Marks, m: Marks, n: Marks, x: string, t: string)
    requires Numbered(g, m) && Numbered(g, n) && Extends(m, n)
    requires x in m.index && t in n.index
    requires |before.stack| < |m.stack|
    requires CrossBound(g, m, |before.stack| + 1, |before.stack|, m.low[x])
    requires CrossBound(g, n, |m.stack|, |m.stack|, n.low[t])
    ensures Numbered(g, SetLow(n, x, Min(n.low[x], n.low[t])))
    ensures CrossBound(g, SetLow(n, x, Min(n.low[x], n.low[t])), |before.stack| + 1, |before.stack|,
        Min(n.low[x], n.low[t]))
  {
    hide Reach, Edge;
    var r := SetLow(n, x, Min(n.low[x], n.low[t]));
    forall i, j | |before.stack| < i < |r.stack| && 0 <= j < |before.stack| && Edge(g, r.stack[i], r.stack[j])
      ensures Min(n.low[x], n.low[t]) <= r.index[r.stack[j]]
    {
      assert m.stack[j] == n.stack[j];
      if i < |m.stack| {
        assert m.stack[i] == n.stack[i];
      }
    }
  }

  /** After a successor that was indexed before its turn. */
  lemma ScanIndexed(g: Graph, before: Marks, m: Marks, x: string, deps: seq<string>, k: nat)
    requires Scanning(g, before, m, x, deps, k) && k < |deps|
    requires Edge(g, x, deps[k]) && deps[k] in m.index
    ensures deps[k] in m.stack ==>
              Scanning(g, before, SetLow(m, x, Min(m.low[x], m.index[deps[k]])), x, deps, k + 1)
    ensures deps[k] !in m.stack ==> Scanning(g, before, m, x, deps, k + 1)
  {
    hide Reach, Edge, Emitted, Explored, Upward, Downward, Inv, LowWitness, Handled;
    var t := deps[k];
    InvNumbered(g, m);
    if t in m.stack {
      var low := Min(m.low[x], m.index[t]);
      SetLowInv(g, m, x, low);
      InvNumbered(g, SetLow(m, x, low));
      ScanIndexedLow(g, m, x, t);
      ScanIndexedHandled(g, before, m, SetLow(m, x, low), x, deps, k);
    } else {
      ScanIndexedHandled(g, before, m, m, x, deps, k);
    }
  }

  lemma ScanIndexedHandled(g: Graph, before: Marks, m: Marks, n: Marks, x: string, deps: seq<string>, k: nat)
    requires k < |deps| && x in m.low && x in n.low && Handled(g, before, m, x, deps, k)
    requires before.stack <= m.stack && deps[k] in m.index
    requires n.index == m.index && n.low[x] <= m.low[x]
    requires deps[k] in m.stack ==> n.low[x] <= m.index[deps[k]]
    ensures Handled(g, before, n, x, deps, k + 1)
  {
    assert forall v | v in before.stack :: v in m.stack;
  }

  lemma ScanIndexedLow(g: Graph, m: Marks, x: string, t: string)
    requires Numbered(g, m) && x in m.index && LowWitness(g, m, x) && t in m.stack && Edge(g, x, t)
    ensures Numbered(g, SetLow(m, x, Min(m.low[x], m.index[t])))
    ensures LowWitness(g, SetLow(m, x, Min(m.low[x], m.index[t])), x)
  {
    hide Reach, Edge;
    var r := SetLow(m, x, Min(m.low[x], m.index[t]));
    var y :| LowIs(g, m, x, y);
    ReachEdge(g, x, t);
    assert LowIs(g, r, x, if m.index[t] < m.low[x] then t else y);
  }

  // ------------------------------------------------------------- end of a visit

  ghost function Retire(m: Marks, x: string): Marks {
    m.(active := m.active - {x})
  }

  /** In a list with ascending keys, the keys below that of entry `k` are those before it. */
  lemma KeyPosition(stack: seq<string>, key: map<string, nat>, k: nat, v: string)
    requires k < |stack| && v in stack && forall u | u in stack :: u in key
    requires forall i, j | 0 <= i < j < |stack| :: key[stack[i]] < key[stack[j]]
    ensures key[v] < key[stack[k]] <==> v in stack[..k]
    ensures v in stack[..k] <==> v !in stack[k..]
  {
    var i :| 0 <= i < |stack| && stack[i] == v;
    if i < k {
      assert stack[..k][i] == v;
    } else {
      assert stack[k..][i - k] == v;
    }
  }

  lemma StackKeys(g: Graph, m: Marks)
    requires Inv(g, m)
    ensures forall u | u in m.stack :: u in m.index
    ensures forall i, j | 0 <= i < j < |m.stack| :: m.index[m.stack[i]] < m.index[m.stack[j]]
  {
    hide Emitted, Explored, Upward, Downward;
  }

  lemma StackPosition(g: Graph, before: Marks, m: Marks, x: string, v: string)
    requires Inv(g, m) && before.stack <= m.stack
    requires |before.stack| < |m.stack| && m.stack[|before.stack|] == x && v in m.stack
    ensures m.index[v] < m.index[x] <==> v in before.stack
    ensures v in before.stack <==> v !in m.stack[|before.stack|..]
  {
    hide *;
    StackKeys(g, m);
    assert m.stack[..|before.stack|] == before.stack;
    KeyPosition(m.stack, m.index, |before.stack|, v);
  }

  /** A visit whose low link points below itself leaves its entries on the stack. */
  lemma RetireVisited(g: Graph, before: Marks, m: Marks, x: string)
    requires x in g && Scanning(g, before, m, x, g[x], |g[x]|) && x !in before.active
    requires m.low[x] != m.index[x]
    ensures Visited(g, before, Retire(m, x), x)
  {
    hide Reach, Descends, Emitted;
    var n := Retire(m, x);
    var y :| LowIs(g, m, x, y);
    var z := DescentTo(g, m, y);
    ReachTrans(g, x, y, z);
    assert z != x;
    forall v | v in n.stack
      ensures Descends(g, n, v)
    {
      var w := DescentTo(g, m, v);
      if w == x {
        ReachTrans(g, v, x, z);
        DescentFrom(g, n, v, z);
      } else {
        DescentFrom(g, n, v, w);
      }
    }
    EmittedFrame(g, m, n);
    PopExplored(g, m, n, x);
    assert LowIs(g, n, x, y);
    CrossFromRoot(g, before, m, x);
  }

  lemma CrossFromRoot(g: Graph, before: Marks, m: Marks, x: string)
    requires x in g && Scanning(g, before, m, x, g[x], |g[x]|)
    ensures CrossBound(g, m, |before.stack|, |before.stack|, m.low[x])
  {
    hide Reach, Descends, Emitted;
    var k := |before.stack|;
    forall i, j | k <= i < |m.stack| && 0 <= j < k && Edge(g, m.stack[i], m.stack[j])
      ensures m.low[x] <= m.index[m.stack[j]]
    {
      if i == k {
        assert before.stack[j] == m.stack[j];
        var d :| 0 <= d < |g[x]| && g[x][d] == m.stack[j];
      }
    }
  }

  /** At a component root, the stack from the root upwards is one component. */
  lemma RootComponent(g: Graph, before: Marks, m: Marks, x: string)
    requires x in g && Scanning(g, before, m, x, g[x], |g[x]|)
    requires Numbered(g, before)
    requires CanVisit(g, before, x)
    requires m.low[x] == m.index[x]
    ensures Elems(m.stack[|before.stack|..]) == Scc(g, x)
  {
    hide Reach, Descends, Emitted;
    var k := |before.stack|;
    var c := Elems(m.stack[k..]);
    assert m.stack[k..][0] == x;
    forall v | v in c
      ensures v in Scc(g, x)
    {
      var i :| 0 <= i < |m.stack| - k && m.stack[k..][i] == v;
      assert m.stack[k + i] == v;
      assert Reach(g, m.stack[k], m.stack[k + i]);
      var w := DescentTo(g, m, v);
      if w != x {
        ReachTrans(g, v, w, x);
      }
    }
    forall y | y in Scc(g, x)
      ensures y in c
    {
      if y !in c {
        var v, z := ReachExit(g, x, y, c);
        ReachTrans(g, z, y, x);
        RootClosed(g, before, m, x, v, z);
      }
    }
  }

  /** An edge out of the popped range that leads back to the root stays in it. */
  lemma RootClosed(g: Graph, before: Marks, m: Marks, x: string, v: string, z: string)
    requires x in g && Scanning(g, before, m, x, g[x], |g[x]|)
    requires Numbered(g, before)
    requires m.low[x] == m.index[x]
    requires v in m.stack[|before.stack|..]
    requires Edge(g, v, z) && Reach(g, x, v) && Reach(g, z, x)
    ensures z in m.stack[|before.stack|..]
  {
    hide Reach, Descends, Emitted;
    var k := |before.stack|;
    CrossFromRoot(g, before, m, x);
    var i :| 0 <= i < |m.stack| - k && m.stack[k..][i] == v;
    assert m.stack[k + i] == v;
    assert z in m.index by {
      if v == x {
        var d :| 0 <= d < |g[x]| && g[x][d] == z;
      } else {
        StackPosition(g, before, m, x, v);
      }
    }
    assert m.stack[k] == x;
    ReachEdge(g, v, z);
    ReachTrans(g, x, v, z);
    assert z in m.stack by {
      if z !in m.stack {
        EmittedWhole(g, m, z, x);
      }
    }
    var j :| 0 <= j < |m.stack| && m.stack[j] == z;
    StackPosition(g, before, m, x, z);
  }

  /** The state after the component at stack position `k` has been popped. */
  ghost function Pop(m: Marks, x: string, k: nat, component: seq<string>): Marks
    requires k <= |m.stack|
  {
    m.(stack := m.stack[..k], components := m.components + [component], active := m.active - {x})
  }

  lemma PopVisited(g: Graph, before: Marks, m: Marks, x: string, component: seq<string>)
    requires x in g && Scanning(g, before, m, x, g[x], |g[x]|)
    requires Inv(g, before) && CanVisit(g, before, x)
    requires m.low[x] == m.index[x]
    requires Distinct(component) && Elems(component) == Elems(m.stack[|before.stack|..])
    ensures Visited(g, before, Pop(m, x, |before.stack|, component), x)
  {
    hide Reach, Edge, Descends, Emitted, IsComponent, Scc, Distinct;
    var k := |before.stack|;
    var n := Pop(m, x, k, component);
    assert m.stack[..k] == before.stack;
    PopWhole(g, before, m, x, component);
    PopPositions(g, before, m, x, component);
    PopNumbered(g, before, m, x, component);
    PopEmitted(g, m, n, component);
    PopExplored(g, m, n, x);
    PopDownward(g, m, n, x);
  }

  /** What leaves the stack is what the visit put there. */
  lemma PopPositions(g: Graph, before: Marks, m: Marks, x: string, component: seq<string>)
    requires x in g && Scanning(g, before, m, x, g[x], |g[x]|)
    requires Inv(g, before) && CanVisit(g, before, x)
    requires Elems(component) == Elems(m.stack[|before.stack|..])
    ensures forall v | v in m.stack :: v in component <==> v !in before.stack
    ensures forall v | v in m.stack :: v in before.stack <==> m.index[v] < m.index[x]
  {
    hide Reach, Edge, Descends, Emitted, IsComponent, Scc, Distinct;
    forall v | v in m.stack
      ensures v in component <==> v !in before.stack
      ensures v in before.stack <==> m.index[v] < m.index[x]
    {
      StackPosition(g, before, m, x, v);
      assert v in component <==> v in Elems(component);
    }
  }

  lemma PopWhole(g: Graph, before: Marks, m: Marks, x: string, component: seq<string>)
    requires x in g && Scanning(g, before, m, x, g[x], |g[x]|)
    requires Numbered(g, before) && CanVisit(g, before, x)
    requires m.low[x] == m.index[x]
    requires Elems(component) == Elems(m.stack[|before.stack|..])
    ensures IsComponent(g, Elems(component))
    ensures forall v | v in component :: v in m.stack
  {
    hide Reach, Edge, Descends, Emitted, Scc, Upward, Explored, CrossBound;
    RootComponent(g, before, m, x);
    SccSelf(g, x);
    assert x in Elems(component);
    forall v | v in component
      ensures v in g && Elems(component) == Scc(g, v)
      ensures v in m.stack
    {
      assert v in Elems(component);
      SccSame(g, x, v);
      assert v in m.stack[|before.stack|..];
    }
  }

  lemma PopNumbered(g: Graph, before: Marks, m: Marks, x: string, component: seq<string>)
    requires Numbered(g, m) && Numbered(g, before)
    requires before.stack <= m.stack && m.active == before.active + {x}
    requires x !in before.index
    ensures Numbered(g, Pop(m, x, |before.stack|, component))
  {
    var n := Pop(m, x, |before.stack|, component);
    assert n.stack == before.stack;
    assert forall v | v in n.active :: v in before.active;
  }

  lemma PopExplored(g: Graph, m: Marks, n: Marks, x: string)
    requires x in g && Explored(g, m) && n.index == m.index && n.active == m.active - {x}
    requires forall i | 0 <= i < |g[x]| && g[x][i] in g :: g[x][i] in m.index
    ensures Explored(g, n)
  {
    forall v, w | v in n.index && v !in n.active && Edge(g, v, w)
      ensures w in n.index
    {
      if v == x {
        var i :| 0 <= i < |g[x]| && g[x][i] == w;
      }
    }
  }

  lemma PopDownward(g: Graph, m: Marks, n: Marks, x: string)
    requires Numbered(g, m) && Downward(g, m) && Numbered(g, n)
    requires n.index == m.index && n.active == m.active - {x}
    requires x in m.index && n.stack <= m.stack
    requires forall v | v in n.stack :: m.index[v] < m.index[x]
    ensures Downward(g, n)
  {
    hide Reach, Descends;
    forall v | v in n.stack
      ensures Descends(g, n, v)
    {
      var w := DescentTo(g, m, v);
      assert w != x;
      DescentFrom(g, n, v, w);
    }
  }

  lemma PopEmitted(g: Graph, m: Marks, n: Marks, component: seq<string>)
    requires Numbered(g, m) && Emitted(g, m)
    requires Distinct(component) && IsComponent(g, Elems(component))
    requires n.components == m.components + [component] && n.index == m.index
    requires forall v | v in m.stack :: v in component <==> v !in n.stack
    requires forall v | v in component :: v in m.stack
    requires forall v | v in n.stack :: v in m.stack
    ensures Emitted(g, n)
  {
    hide Reach, Descends, InComponent, IsComponent, Distinct;
    forall v
      ensures InComponent(n, v) <==> InComponent(m, v) || v in component
    {
      OneMoreComponent(m, n, component, v);
    }
    forall i, v | 0 <= i < |m.components| && v in m.components[i]
      ensures v !in component
    {
      OneMoreComponent(m, n, component, v);
      InComponentAt(m, i, v);
    }
  }

  lemma InComponentAt(m: Marks, i: nat, v: string)
    requires i < |m.components| && v in m.components[i]
    ensures InComponent(m, v)
  {
  }

  lemma OneMoreComponent(m: Marks, n: Marks, component: seq<string>, v: string)
    requires n.components == m.components + [component]
    ensures InComponent(n, v) <==> InComponent(m, v) || v in component
  {
    if InComponent(m, v) {
      var i :| 0 <= i < |m.components| && v in m.components[i];
      assert v in n.components[i];
    }
    if v in component {
      assert v in n.components[|m.components|];
    }
  }

  // -------------------------------------------------------------- the search

  /** The closure variables of the source's search and its recursive visit. A map
      read below stands for the source's checked lookup: that the key is present is
      a proof obligation here, and a thrown error there. */
  class Search {
    const graph: Graph
    var nextIndex: nat
    var indices: map<string, nat>
    var lowLinks: map<string, nat>
    var stack: seq<string>
    var stacked: set<string>
    var components: seq<seq<string>>
    ghost var active: set<string>

    ghost function Current(): Marks
      reads this
    {
      Marks(nextIndex, indices, lowLinks, stack, components, active)
    }

    ghost predicate Valid()
      reads this
    {
      Inv(graph, Current()) && stacked == Elems(stack)
    }

    constructor (g: Graph)
      ensures graph == g && Valid() && Current() == Start
    {
      graph := g;
      nextIndex, indices, lowLinks := 0, map[], map[];
      stack, stacked, components, active := [], {}, [], {};
      new;
      StartInv(g);
    }

    method Visit(name: string)
      requires Valid() && CanVisit(graph, Current(), name)
      modifies this
      ensures Valid() && Visited(graph, old(Current()), Current(), name)
      decreases graph.Keys - indices.Keys
    {
      hide Inv, Visited, Scanning, CanVisit, Reach, Elems;
      ghost var before := Current();
      var index := nextIndex;
      nextIndex := nextIndex + 1;
      indices := indices[name := index];
      lowLinks := lowLinks[name := index];
      stack := stack + [name];
      stacked := stacked + {name};
      active := active + {name};
      CanVisitFacts(graph, before, name);
      var deps := graph[name];
      ScanStart(graph, before, name, deps);
      assert Current() == Push(before, name);
      ElemsAppend(before.stack, name);

      for k := 0 to |deps|
        invariant stacked == Elems(stack)
        invariant Scanning(graph, before, Current(), name, deps, k)
      {
        ScanFacts(graph, before, Current(), name, deps, k);
        var target := deps[k];
        ghost var m := Current();
        if target !in graph {
          ScanForeign(graph, before, m, name, deps, k);
          continue;
        }
        if target !in indices {
          ScanCanVisit(graph, before, m, name, deps, k);
          Visit(target);
          ScanTree(graph, before, m, Current(), name, deps, k);
          VisitedFacts(graph, m, Current(), target);
          lowLinks := lowLinks[name := if lowLinks[name] <= lowLinks[target] then lowLinks[name] else lowLinks[target]];
        } else {
          ScanIndexed(graph, before, m, name, deps, k);
          if target in stacked {
            lowLinks := lowLinks[name := if lowLinks[name] <= indices[target] then lowLinks[name] else indices[target]];
          }
        }
      }

      ghost var m := Current();
      ScanFacts(graph, before, m, name, deps, |deps|);
      if lowLinks[name] != indices[name] {
        RetireVisited(graph, before, m, name);
        active := active - {name};
        VisitedFacts(graph, before, Current(), name);
        return;
      }
      var component := PopComponent(name, |before.stack|);
      ComponentElems(m.stack, component, |before.stack|);
      PopVisited(graph, before, m, name, component);
      components := components + [component];
      active := active - {name};
      VisitedFacts(graph, before, Current(), name);
    }

    /** The pop loop: everything from the top of the stack down to `name`. */
    method PopComponent(name: string, ghost k: nat) returns (component: seq<string>)
      requires k < |stack| && stack[k] == name && stacked == Elems(stack) && Distinct(stack)
      modifies `stack, `stacked
      ensures stack == old(stack)[..k] && stacked == Elems(stack)
      ensures |component| == |old(stack)| - k
      ensures forall i | 0 <= i < |component| :: component[i] == old(stack)[|old(stack)| - 1 - i]
    {
      ghost var all := stack;
      if |stack| == 0 {
        assert false;
      }
      var member := stack[|stack| - 1];
      stack := stack[..|stack| - 1];
      stacked := stacked - {member};
      component := [member];
      while member != name
        invariant 0 < |component| <= |all| - k
        invariant stack == all[..|all| - |component|]
        invariant stacked == Elems(stack)
        invariant member == all[|all| - |component|]
        invariant forall i | 0 <= i < |component| :: component[i] == all[|all| - 1 - i]
        decreases |stack|
      {
        if |stack| == 0 {
          assert false;
        }
        var next := stack[|stack| - 1];
        stack := stack[..|stack| - 1];
        stacked := stacked - {next};
        component := component + [next];
        member := next;
      }
    }
  }

  lemma CanVisitFacts(g: Graph, m: Marks, x: string)
    requires Inv(g, m) && CanVisit(g, m, x)
    ensures x in g && x !in m.index && x !in m.active
  {
    hide Reach, Emitted, Explored, Upward, Downward;
  }

  lemma ElemsAppend(s: seq<string>, x: string)
    ensures Elems(s + [x]) == Elems(s) + {x}
  {
  }

  lemma ScanFacts(g: Graph, before: Marks, m: Marks, x: string, deps: seq<string>, k: nat)
    requires Scanning(g, before, m, x, deps, k)
    ensures Inv(g, m) && x in m.index && x in m.low && m.index.Keys <= g.Keys && x !in before.index
    ensures m.low.Keys == m.index.Keys && before.index.Keys <= m.index.Keys
    ensures |before.stack| < |m.stack| && m.stack[|before.stack|] == x && Distinct(m.stack)
  {
    hide Reach, Emitted, Explored, Upward, Downward, CrossBound, LowWitness;
  }

  lemma ScanForeign(g: Graph, before: Marks, m: Marks, x: string, deps: seq<string>, k: nat)
    requires Inv(g, before) && Scanning(g, before, m, x, deps, k) && k < |deps| && deps[k] !in g
    ensures Scanning(g, before, m, x, deps, k + 1)
  {
    hide Reach, Emitted, Explored, Upward, Downward, CrossBound, LowWitness;
    assert forall v | v in before.stack :: v in g;
  }

  lemma ScanCanVisit(g: Graph, before: Marks, m: Marks, x: string, deps: seq<string>, k: nat)
    requires x in g && CanVisit(g, before, x) && Scanning(g, before, m, x, deps, k)
    requires k < |deps| && Edge(g, x, deps[k]) && deps[k] !in m.index
    ensures CanVisit(g, m, deps[k])
  {
    hide Reach, Emitted, Explored, Upward, Downward, CrossBound, LowWitness, Numbered, Extends;
    ReachEdge(g, x, deps[k]);
    forall w | w in m.active
      ensures Reach(g, w, deps[k])
    {
      if w != x {
        ReachTrans(g, w, x, deps[k]);
      }
    }
  }

  lemma VisitedFacts(g: Graph, m: Marks, n: Marks, t: string)
    requires Visited(g, m, n, t)
    ensures Inv(g, n) && n.low.Keys == n.index.Keys && m.index.Keys <= n.index.Keys && t in n.index
    ensures n.active == m.active && m.components <= n.components
  {
    hide Reach, Emitted, Explored, Upward, Downward, CrossBound, LowWitness;
  }

  lemma ComponentElems(all: seq<string>, component: seq<string>, k: nat)
    requires k <= |all| && Distinct(all) && |component| == |all| - k
    requires forall i | 0 <= i < |component| :: component[i] == all[|all| - 1 - i]
    ensures Distinct(component) && Elems(component) == Elems(all[k..])
  {
    forall v
      ensures v in component <==> v in all[k..]
    {
      if v in component {
        var i :| 0 <= i < |component| && component[i] == v;
        assert all[k..][|component| - 1 - i] == v;
      }
      if v in all[k..] {
        var i :| 0 <= i < |component| && all[k..][i] == v;
        assert component[|component| - 1 - i] == v;
      }
    }
  }

  // ------------------------------------------------------------------- results

  /** `components` are exactly the strongly connected components of `g`. */
  ghost predicate Partition(g: Graph, components: seq<seq<string>>) {
    && (forall i | 0 <= i < |components| ::
          Distinct(components[i]) && IsComponent(g, Elems(components[i])))
    && (forall i, j, v | 0 <= i < j < |components| && v in components[i] :: v !in components[j])
    && (forall v | v in g :: exists i :: 0 <= i < |components| && v in components[i])
  }

  /** Visit every package in map order: the emitted components partition `g`. */
  method Components(g: Graph, order: seq<string>) returns (components: seq<seq<string>>)
    requires Elems(order) == g.Keys
    ensures Partition(g, components)
  {
    hide Inv, Visited, CanVisit, Reach, Partition, Elems;
    var search := new Search(g);
    for k := 0 to |order|
      invariant search.graph == g && search.Valid() && search.active == {}
      invariant forall i | 0 <= i < k :: order[i] in search.indices
    {
      ghost var m := search.Current();
      if order[k] !in search.indices {
        VisitTop(g, m, order, k);
        search.Visit(order[k]);
        VisitedFacts(g, m, search.Current(), order[k]);
      }
    }
    components := search.components;
    AllEmitted(g, search.Current(), order);
  }

  lemma VisitTop(g: Graph, m: Marks, order: seq<string>, k: nat)
    requires Elems(order) == g.Keys && m.active == {} && k < |order| && order[k] !in m.index
    ensures CanVisit(g, m, order[k])
  {
    assert order[k] in Elems(order);
  }

  /** With no visit open the stack is empty, so every name has been emitted. */
  lemma AllEmitted(g: Graph, m: Marks, order: seq<string>)
    requires Inv(g, m) && m.active == {} && Elems(order) == g.Keys
    requires forall i | 0 <= i < |order| :: order[i] in m.index
    ensures Partition(g, m.components)
  {
    hide Reach, Descends, IsComponent, Distinct, Explored, Upward, InComponent;
    assert m.stack == [] by {
      if m.stack != [] {
        assert m.stack[0] in m.stack;
        var w := DescentTo(g, m, m.stack[0]);
      }
    }
    forall v | v in g
      ensures exists i :: 0 <= i < |m.components| && v in m.components[i]
    {
      assert v in Elems(order);
      assert InComponent(m, v);
      EmittedAt(m, v);
    }
  }

  lemma EmittedAt(m: Marks, v: string)
    requires InComponent(m, v)
    ensures exists i :: 0 <= i < |m.components| && v in m.components[i]
  {
  }
}
