/** Directed graphs keyed by name: the edge relation every dependency-ordering
    argument of this project is about. A successor name that is not itself a key
    is not an edge: the sources skip such names. */
module Digraph {

  type Graph = map<string, seq<string>>

  predicate Edge(g: Graph, a: string, b: string) {
    a in g && b in g && b in g[a]
  }

  /** `p` is a non-empty walk along edges of `g`. */
  ghost predicate Path(g: Graph, p: seq<string>) {
    |p| > 0 && p[0] in g && (|p| > 1 ==> Edge(g, p[0], p[1]) && Path(g, p[1..]))
  }

  ghost predicate PathBetween(g: Graph, p: seq<string>, a: string, b: string) {
    Path(g, p) && p[0] == a && p[|p| - 1] == b
  }

  ghost predicate Reach(g: Graph, a: string, b: string) {
    exists p :: PathBetween(g, p, a, b)
  }

  /** The strongly connected component of `a`. */
  ghost function Scc(g: Graph, a: string): set<string> {
    set b | b in g && Reach(g, a, b) && Reach(g, b, a)
  }

  /** No walk of at least one edge returns to its start. */
  ghost predicate Acyclic(g: Graph) {
    forall p :: Path(g, p) && |p| > 1 ==> p[0] != p[|p| - 1]
  }

  lemma {:induction false} PathEnds(g: Graph, p: seq<string>)
    requires Path(g, p)
    ensures forall i | 0 <= i < |p| :: p[i] in g
  {
    if |p| > 1 {
      PathEnds(g, p[1..]);
    }
  }

  lemma {:induction false} PathAppend(g: Graph, p: seq<string>, q: seq<string>)
    requires Path(g, p) && Path(g, q) && p[|p| - 1] == q[0]
    ensures Path(g, p + q[1..])
  {
    if |p| == 1 {
      assert p + q[1..] == q;
    } else {
      PathAppend(g, p[1..], q);
      assert (p + q[1..])[1..] == p[1..] + q[1..];
    }
  }

  lemma ReachSelf(g: Graph, a: string)
    requires a in g
    ensures Reach(g, a, a)
  {
    assert PathBetween(g, [a], a, a);
  }

  lemma ReachEdge(g: Graph, a: string, b: string)
    requires Edge(g, a, b)
    ensures Reach(g, a, b)
  {
    assert [a, b][1..] == [b];
    assert PathBetween(g, [a, b], a, b);
  }

  lemma ReachTrans(g: Graph, a: string, b: string, c: string)
    requires Reach(g, a, b) && Reach(g, b, c)
    ensures Reach(g, a, c)
  {
    var p :| PathBetween(g, p, a, b);
    var q :| PathBetween(g, q, b, c);
    PathAppend(g, p, q);
    assert PathBetween(g, p + q[1..], a, c);
  }

  lemma ReachIn(g: Graph, a: string, b: string)
    requires Reach(g, a, b)
    ensures a in g && b in g
  {
    var p :| PathBetween(g, p, a, b);
    PathEnds(g, p);
  }

  /** A walk that starts in `inside` and ends outside it crosses one edge out. */
  lemma ReachExit(g: Graph, a: string, b: string, inside: set<string>) returns (u: string, w: string)
    requires Reach(g, a, b) && a in inside && b !in inside
    ensures u in inside && w !in inside && Edge(g, u, w)
    ensures Reach(g, a, u) && Reach(g, w, b)
  {
    var p :| PathBetween(g, p, a, b);
    u, w := PathExit(g, p, inside);
  }

  lemma {:induction false} PathExit(g: Graph, p: seq<string>, inside: set<string>) returns (u: string, w: string)
    requires Path(g, p) && p[0] in inside && p[|p| - 1] !in inside
    ensures u in inside && w !in inside && Edge(g, u, w)
    ensures Reach(g, p[0], u) && Reach(g, w, p[|p| - 1])
  {
    if p[1] in inside {
      u, w := PathExit(g, p[1..], inside);
      ReachEdge(g, p[0], p[1]);
      ReachTrans(g, p[0], p[1], u);
    } else {
      u, w := p[0], p[1];
      ReachSelf(g, p[0]);
      assert PathBetween(g, p[1..], w, p[|p| - 1]);
    }
  }

  /** Every member of a component has that same component. */
  lemma SccSame(g: Graph, a: string, b: string)
    requires b in Scc(g, a)
    ensures Scc(g, a) == Scc(g, b)
  {
    forall c | c in g
      ensures c in Scc(g, a) <==> c in Scc(g, b)
    {
      if c in Scc(g, a) {
        ReachTrans(g, b, a, c);
        ReachTrans(g, c, a, b);
      }
      if c in Scc(g, b) {
        ReachTrans(g, a, b, c);
        ReachTrans(g, c, b, a);
      }
    }
  }

  lemma SccSelf(g: Graph, a: string)
    requires a in g
    ensures a in Scc(g, a)
  {
    ReachSelf(g, a);
  }

  /** `r` keeps some of the keys of `g`, with their successor lists. */
  ghost predicate Subgraph(r: Graph, g: Graph) {
    forall k | k in r :: k in g && r[k] == g[k]
  }

  lemma {:induction false} SubgraphPath(r: Graph, g: Graph, p: seq<string>)
    requires Subgraph(r, g) && Path(r, p)
    ensures Path(g, p)
  {
    if |p| > 1 {
      SubgraphPath(r, g, p[1..]);
    }
  }

  lemma SubgraphReach(r: Graph, g: Graph, a: string, b: string)
    requires Subgraph(r, g) && Reach(r, a, b)
    ensures Reach(g, a, b)
  {
    var p :| PathBetween(r, p, a, b);
    SubgraphPath(r, g, p);
    assert PathBetween(g, p, a, b);
  }

  lemma MutualEdgeIsCycle(g: Graph, a: string, b: string)
    requires Edge(g, a, b) && Reach(g, b, a)
    ensures !Acyclic(g)
  {
    var p :| PathBetween(g, p, b, a);
    var cycle := [a] + p;
    assert cycle[1..] == p;
    assert Path(g, cycle) && |cycle| > 1 && cycle[0] == cycle[|cycle| - 1];
  }
}
