/** Edits whose texts neither contain nor overlap one another, on any text: they act on the pieces
    between each other's sites alone and can be applied in either order, and around one another's
    sites they meet the conditions for fitting at every stage. */
module ApartEdits {

  import opened ExactEdits
  import opened EditWindows

  /** Copies of `a` and copies of `b` can neither contain nor overlap one another. */
  ghost predicate Apart(a: string, b: string) {
    a != "" && b != "" && !Includes(a, b) && !Includes(b, a) && NoOverlap(a, b) && NoOverlap(b, a)
  }

  /** Where a copy of `f` stands around a copy of `r` it keeps apart from. */
  lemma ApartPlace(u: string, r: string, v: string, f: string, q: nat)
    requires Apart(f, r) && OccursAt(u + r + v, f, q)
    ensures (q + |f| <= |u| && OccursAt(u, f, q)) || (q >= |u| + |r| && OccursAt(v, f, q - |u| - |r|))
  {
    hide NoOverlap, Includes;
    var text := u + r + v;
    if q + |f| <= |u| {
      assert u[q..q + |f|] == text[q..q + |f|];
    } else if q >= |u| + |r| {
      var j := q - |u| - |r|;
      assert v[j..j + |f|] == text[q..q + |f|];
    } else if q <= |u| && q + |f| >= |u| + |r| {
      SliceOccurs(text, f, r, q, |u| - q);
    } else if q >= |u| && q + |f| <= |u| + |r| {
      SliceOccurs(text, r, f, |u|, q - |u|);
    } else if q < |u| {
      TailMeets(u, r, v, f, q, q + |f| - |u|);
    } else {
      HeadMeets(u, r, v, f, q, |u| + |r| - q);
    }
  }

  lemma FirstApart(u: string, r: string, v: string, f: string)
    requires Apart(f, r)
    ensures IndexOf(u + r + v, f)
         == if IndexOf(u, f) >= 0 then IndexOf(u, f) else if IndexOf(v, f) >= 0 then |u| + |r| + IndexOf(v, f) else -1
  {
    hide IndexOf, Apart, OccursAt;
    var text := u + r + v;
    IndexOfFirst(text, f);
    IndexOfFirst(u, f);
    IndexOfFirst(v, f);
    var q, i, j := IndexOf(text, f), IndexOf(u, f), IndexOf(v, f);
    if q >= 0 { ApartPlace(u, r, v, f, q); }
    if i >= 0 {
      assert text == "" + u + (r + v);
      OccursInside(text, f, "", u, r + v, i);
    } else if j >= 0 {
      assert text == (u + r) + v + "";
      OccursInside(text, f, u + r, v, "", j);
    }
  }

  /** Two lists of pieces, the last of one and the first of the other grown together. */
  function Graft(a: seq<string>, r: string, b: seq<string>): seq<string>
    requires a != [] && b != []
  {
    a[..|a| - 1] + [a[|a| - 1] + r + b[0]] + b[1..]
  }

  lemma GraftFirst(x: string, a: seq<string>, r: string, b: seq<string>)
    requires a != [] && b != []
    ensures Graft([x] + a, r, b) == [x] + Graft(a, r, b)
  {
    assert ([x] + a)[..|a|] == [x] + a[..|a| - 1];
  }

  lemma SplitAt(text: string, f: string, i: nat, head: string, tail: string)
    requires f != "" && IndexOf(text, f) == i && text[..i] == head && text[i + |f|..] == tail
    ensures Split(text, f) == [head] + Split(tail, f)
  {
    hide *;
    SplitFound(text, f, i);
  }

  lemma SplitEnd(u: string, r: string, v: string, f: string)
    requires Apart(f, r) && IndexOf(u, f) == -1 && IndexOf(v, f) == -1
    ensures Split(u + r + v, f) == [u + r + v]
  {
    hide *;
    ApartNonEmpty(f, r);
    FirstApart(u, r, v, f);
    SplitNone(u + r + v, f);
  }

  lemma SplitTail(u: string, r: string, v: string, f: string, j: nat)
    requires Apart(f, r) && IndexOf(u, f) == -1 && IndexOf(v, f) == j
    ensures Split(u + r + v, f) == [u + r + v[..j]] + Split(v[j + |f|..], f)
  {
    hide *;
    ApartNonEmpty(f, r);
    FirstApart(u, r, v, f);
    TailSlices(u, r, v, j, |f|);
    SplitAt(u + r + v, f, |u| + |r| + j, u + r + v[..j], v[j + |f|..]);
  }

  lemma SplitHead(u: string, r: string, v: string, f: string, i: nat)
    requires Apart(f, r) && IndexOf(u, f) == i
    ensures Split(u + r + v, f) == [u[..i]] + Split(u[i + |f|..] + r + v, f)
  {
    hide *;
    ApartNonEmpty(f, r);
    FirstApart(u, r, v, f);
    SplitHeadAt(u + r + v, u, r, v, f, i);
  }

  lemma SplitHeadAt(text: string, u: string, r: string, v: string, f: string, i: nat)
    requires f != "" && i + |f| <= |u| && text == u + r + v && IndexOf(text, f) == i
    ensures Split(text, f) == [u[..i]] + Split(u[i + |f|..] + r + v, f)
  {
    hide *;
    HeadSlices(u, r, v, i, |f|);
    SplitAt(text, f, i, u[..i], u[i + |f|..] + r + v);
  }

  /** Splitting passes over a text the separator keeps apart from. */
  lemma {:induction false} SplitApart(u: string, r: string, v: string, f: string)
    requires Apart(f, r)
    ensures Split(u, f) != [] && Split(v, f) != []
    ensures Split(u + r + v, f) == Graft(Split(u, f), r, Split(v, f))
    decreases |u|
  {
    hide *;
    ApartNonEmpty(f, r);
    var i, j := IndexOf(u, f), IndexOf(v, f);
    if i >= 0 {
      SplitFound(u, f, i);
      SplitHead(u, r, v, f, i);
      SplitApart(u[i + |f|..], r, v, f);
      GraftFirst(u[..i], Split(u[i + |f|..], f), r, Split(v, f));
    } else if j >= 0 {
      SplitNone(u, f);
      SplitFound(v, f, j);
      SplitTail(u, r, v, f, j);
      GraftOne(u, r, v[..j], Split(v[j + |f|..], f));
    } else {
      SplitNone(u, f);
      SplitNone(v, f);
      SplitEnd(u, r, v, f);
      GraftOne(u, r, v, []);
      assert [v] + [] == [v] && [u + r + v] + [] == [u + r + v];
    }
  }

  lemma HeadSlices(u: string, r: string, v: string, i: nat, n: nat)
    requires i + n <= |u|
    ensures (u + r + v)[..i] == u[..i] && (u + r + v)[i + n..] == u[i + n..] + r + v
  {
  }

  lemma TailSlices(u: string, r: string, v: string, i: nat, n: nat)
    requires i + n <= |v|
    ensures (u + r + v)[..|u| + |r| + i] == u + r + v[..i]
    ensures (u + r + v)[|u| + |r| + i + n..] == v[i + n..]
  {
  }

  lemma GraftOne(u: string, r: string, x: string, more: seq<string>)
    ensures Graft([u], r, [x] + more) == [u + r + x] + more
  {
  }

  lemma {:induction false} JoinGraft(a: seq<string>, r: string, b: seq<string>, g: string)
    requires a != [] && b != []
    ensures Join(Graft(a, r, b), g) == Join(a, g) + r + Join(b, g)
  {
    if |a| == 1 {
      assert Graft(a, r, b) == [a[0] + r + b[0]] + b[1..];
      assert Graft(a, r, b)[1..] == b[1..];
    } else {
      assert [a[0]] + a[1..] == a;
      GraftFirst(a[0], a[1..], r, b);
      JoinGraft(a[1..], r, b, g);
      assert ([a[0]] + Graft(a[1..], r, b))[1..] == Graft(a[1..], r, b);
    }
  }

  lemma ApplyAround(u: string, r: string, v: string, f: string, g: string)
    requires Apart(f, r)
    ensures Apply(u + r + v, f, g) == Apply(u, f, g) + r + Apply(v, f, g)
    ensures Count(u + r + v, f) == Count(u, f) + Count(v, f)
  {
    hide Split, Join, Apart;
    SplitApart(u, r, v, f);
    JoinGraft(Split(u, f), r, Split(v, f), g);
  }

  function ApplyEach(pieces: seq<string>, f: string, g: string): (r: seq<string>)
    ensures |r| == |pieces| && forall i | 0 <= i < |r| :: r[i] == Apply(pieces[i], f, g)
  {
    seq(|pieces|, i requires 0 <= i < |pieces| => Apply(pieces[i], f, g))
  }

  function CountAll(pieces: seq<string>, f: string): int {
    if pieces == [] then 0 else Count(pieces[0], f) + CountAll(pieces[1..], f)
  }

  /** An edit whose source form keeps apart from a separator acts on each piece alone. */
  lemma {:induction false} ApplyJoined(pieces: seq<string>, r: string, f: string, g: string)
    requires pieces != [] && Apart(f, r)
    ensures Apply(Join(pieces, r), f, g) == Join(ApplyEach(pieces, f, g), r)
    ensures Count(Join(pieces, r), f) == CountAll(pieces, f)
  {
    hide Apply, Apart, Count;
    var each := ApplyEach(pieces, f, g);
    if |pieces| > 1 {
      ApplyJoined(pieces[1..], r, f, g);
      ApplyAround(pieces[0], r, Join(pieces[1..], r), f, g);
      assert each[1..] == ApplyEach(pieces[1..], f, g);
    }
  }

  /** An edit leaves the count of every text it keeps apart from. */
  lemma CountKept(text: string, find: string, replace: string, s: string)
    requires Apart(s, find) && Apart(s, replace)
    ensures Count(Apply(text, find, replace), s) == Count(text, s)
  {
    assert find != "";
    hide Apart, Count, Split, Join;
    var pieces := Split(text, find);
    JoinSplit(text, find);
    ApplyJoined(pieces, find, s, s);
    ApplyJoined(pieces, replace, s, s);
  }

  lemma {:induction false} EachLacks(pieces: seq<string>, f: string, g: string, s: string)
    requires Apart(s, f) && Apart(s, g) && Lacks(pieces, s)
    ensures Lacks(ApplyEach(pieces, f, g), s)
  {
    hide Apply, Apart, Count, Includes;
    forall i | 0 <= i < |pieces|
      ensures !Includes(ApplyEach(pieces, f, g)[i], s)
    {
      assert !Includes(pieces[i], s);
      CountKept(pieces[i], f, g, s);
      ApartNonEmpty(s, f);
      CountZero(pieces[i], s);
      CountZero(Apply(pieces[i], f, g), s);
    }
  }

  lemma ApartNonEmpty(a: string, b: string)
    requires Apart(a, b)
    ensures a != "" && b != ""
  {
  }

  /** Two edits that keep apart can be applied in either order. */
  lemma ApplyCommutes(text: string, f: string, g: string, find: string, replace: string)
    requires Apart(f, find) && Apart(f, replace) && Apart(find, f) && Apart(find, g) && Unbordered(find)
    ensures Apply(Apply(text, f, g), find, replace) == Apply(Apply(text, find, replace), f, g)
  {
    ApartNonEmpty(f, find);
    hide Apart, Unbordered, Split, Join, Lacks, Includes;
    var pieces := Split(text, find);
    JoinSplit(text, find);
    SplitLacks(text, find);
    ApplyJoined(pieces, replace, f, g);
    ApplyJoined(pieces, find, f, g);
    EachLacks(pieces, f, g, find);
    SplitJoin(ApplyEach(pieces, f, g), find);
  }

  /** A form that keeps apart from the form at a site meets neither the site nor crosses a gap
      beside it. */
  lemma ApartLocal(form: string, lead: string, site: string, follow: string, gap: string, other: string)
    requires Apart(form, site)
    ensures Keeps(form, false, lead, site, follow)
    ensures !Crosses(form, site, gap, other) && !Crosses(form, other, gap, site)
  {
    hide OccursAt, Apart;
    forall q: nat | OccursAt(lead + site + follow, form, q)
      ensures q + |form| <= |lead| || q >= |lead| + |site|
    {
      ApartPlace(lead, site, follow, form, q);
    }
    forall m: nat
      ensures !LaidOver(form, site, gap, other, m) && !LaidOver(form, other, gap, site, m)
    {
      ApartLaid(form, site, gap, other, m);
    }
  }

  lemma ApartLaid(form: string, site: string, gap: string, other: string, m: nat)
    requires Apart(form, site)
    ensures !LaidOver(form, site, gap, other, m) && !LaidOver(form, other, gap, site, m)
  {
    hide Includes, IndexOf;
    if 1 <= m && m + |gap| < |form| {
      ApartEnds(form, site, m);
      ApartStarts(form, site, m + |gap|);
    }
  }

  lemma ApartEnds(form: string, site: string, m: nat)
    requires Apart(form, site) && 1 <= m < |form|
    ensures !EndsAlike(form[..m], site)
  {
    hide Includes;
    if m >= |site| {
      assert form[..m][m - |site|..] == form[m - |site|..m];
      if form[m - |site|..m] == site {
        OccursIncluded(form, site, m - |site|);
      }
    }
  }

  lemma ApartStarts(form: string, site: string, n: nat)
    requires Apart(form, site) && 1 <= n < |form|
    ensures !StartsAlike(form[n..], site)
  {
    hide Includes;
    var k := |form| - n;
    assert form[|form| - k..] == form[n..];
    if k >= |site| {
      assert form[n..][..|site|] == form[n..n + |site|];
      if form[n..n + |site|] == site {
        OccursIncluded(form, site, n);
      }
    }
  }
}
