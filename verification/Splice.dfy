/** Back-to-front replacement of disjoint source ranges, as at the end of
    `rewriteMarkdown` in dsh/scripts/project-doc-site.ts. */
module Splice {

  import opened Sorting

  datatype Replacement = Replacement(start: nat, end: nat, value: string)

  ghost predicate InSource(source: string, r: Replacement) {
    r.start <= r.end <= |source|
  }

  /** Pairwise disjoint source ranges with distinct starts, in any order. */
  ghost predicate Disjoint(source: string, rs: seq<Replacement>) {
    && (forall i | 0 <= i < |rs| :: InSource(source, rs[i]))
    && (forall i, j | 0 <= i < j < |rs| ::
          rs[i].start != rs[j].start && (rs[i].end <= rs[j].start || rs[j].end <= rs[i].start))
  }

  /** Source order: each range ends before the next one starts. */
  ghost predicate Ascending(source: string, rs: seq<Replacement>, from: nat) {
    rs != [] ==> from <= rs[0].start && InSource(source, rs[0]) && Ascending(source, rs[1..], rs[0].end)
  }

  /** Simultaneous substitution from offset `from`: the gaps as they are and in order,
      each range replaced by its value. */
  ghost function Substitute(source: string, rs: seq<Replacement>, from: nat): string
    requires from <= |source| && Ascending(source, rs, from)
  {
    if rs == [] then source[from..]
    else source[from..rs[0].start] + rs[0].value + Substitute(source, rs[1..], rs[0].end)
  }

  /** The replacements from the last start to the first. */
  function SortDescending(rs: seq<Replacement>): (out: seq<Replacement>)
    ensures multiset(out) == multiset(rs)
  {
    Sort(ByStart(), rs)
  }

  function ByStart(): (Replacement, Replacement) -> int {
    (a: Replacement, b: Replacement) => b.start - a.start
  }

  ghost predicate Descending(rs: seq<Replacement>) {
    forall i, j | 0 <= i < j < |rs| :: rs[i].start >= rs[j].start
  }

  lemma SortIsDescending(rs: seq<Replacement>)
    ensures Descending(SortDescending(rs))
  {
    hide Sort;
    SortSorted(ByStart(), (set r | r in rs), rs);
    var out := SortDescending(rs);
    forall i, j | 0 <= i < j < |out|
      ensures out[i].start >= out[j].start
    {
      assert ByStart()(out[i], out[j]) <= 0;
    }
  }

  function Reverse(rs: seq<Replacement>): (out: seq<Replacement>)
    ensures |out| == |rs|
    ensures forall i | 0 <= i < |rs| :: out[i] == rs[|rs| - 1 - i]
  {
    if rs == [] then [] else [rs[|rs| - 1]] + Reverse(rs[..|rs| - 1])
  }

  /** Ranges of a list are disjoint whatever order the list is in. */
  lemma {:induction false} DisjointPermuted(source: string, rs: seq<Replacement>, out: seq<Replacement>)
    requires Disjoint(source, rs) && multiset(out) == multiset(rs)
    ensures Disjoint(source, out)
  {
    forall i | 0 <= i < |out|
      ensures out[i] in rs
    {
      assert out[i] in multiset(out);
    }
    forall i, j | 0 <= i < j < |out|
      ensures out[i].start != out[j].start && (out[i].end <= out[j].start || out[j].end <= out[i].start)
    {
      if out[i] == out[j] {
        assert out == out[..i] + [out[i]] + out[i + 1..j] + [out[j]] + out[j + 1..];
        assert multiset(rs)[out[i]] >= 2;
        CountOnce(source, rs, out[i]);
      }
      var a :| 0 <= a < |rs| && rs[a] == out[i];
      var b :| 0 <= b < |rs| && rs[b] == out[j];
    }
  }

  lemma {:induction false} CountOnce(source: string, rs: seq<Replacement>, r: Replacement)
    requires Disjoint(source, rs)
    ensures multiset(rs)[r] <= 1
  {
    if rs != [] {
      CountOnce(source, rs[1..], r);
      assert rs == [rs[0]] + rs[1..];
      if r == rs[0] {
        assert r !in rs[1..];
      }
    }
  }

  lemma {:induction false} DescendingReversed(source: string, rs: seq<Replacement>)
    requires Disjoint(source, rs) && Descending(rs)
    ensures Ascending(source, Reverse(rs), 0)
  {
    if rs != [] {
      AscendingFrom(source, Reverse(rs), 0);
    }
  }

  lemma {:induction false} AscendingFrom(source: string, rs: seq<Replacement>, from: nat)
    requires forall i | 0 <= i < |rs| :: InSource(source, rs[i])
    requires forall i, j | 0 <= i < j < |rs| :: rs[i].end <= rs[j].start
    requires rs != [] ==> from <= rs[0].start
    ensures Ascending(source, rs, from)
  {
    if rs != [] {
      AscendingFrom(source, rs[1..], rs[0].end);
    }
  }

  /** Two source-ordered listings of the same ranges are the same list. */
  lemma {:induction false} AscendingUnique(source: string, a: seq<Replacement>, b: seq<Replacement>, from: nat)
    requires Ascending(source, a, from) && Ascending(source, b, from)
    requires Disjoint(source, a) && multiset(a) == multiset(b)
    ensures a == b
  {
    assert |multiset(a)| == |multiset(b)|;
    if a != [] {
      SameFirst(source, a, b, from);
      SameTails(a, b);
      AscendingTail(source, a, from);
      AscendingUnique(source, a[1..], b[1..], a[0].end);
      assert a == [a[0]] + a[1..] && b == [b[0]] + b[1..];
    }
  }

  lemma AscendingTail(source: string, a: seq<Replacement>, from: nat)
    requires a != [] && Ascending(source, a, from) && Disjoint(source, a)
    ensures Ascending(source, a[1..], a[0].end) && Disjoint(source, a[1..])
  {
  }

  lemma SameFirst(source: string, a: seq<Replacement>, b: seq<Replacement>, from: nat)
    requires a != [] && b != [] && Ascending(source, a, from) && Ascending(source, b, from)
    requires Disjoint(source, a) && multiset(a) == multiset(b)
    ensures a[0] == b[0]
  {
    hide Ascending;
    assert a[0] in multiset(b) && b[0] in multiset(a);
    FirstIsLeast(source, a, from, b[0]);
    FirstIsLeast(source, b, from, a[0]);
    var k :| 0 <= k < |a| && a[k] == b[0];
  }

  lemma SameTails(a: seq<Replacement>, b: seq<Replacement>)
    requires a != [] && b != [] && a[0] == b[0] && multiset(a) == multiset(b)
    ensures multiset(a[1..]) == multiset(b[1..])
  {
    assert a == [a[0]] + a[1..] && b == [b[0]] + b[1..];
    assert multiset(a[1..]) == multiset(a) - multiset{a[0]};
    assert multiset(b[1..]) == multiset(b) - multiset{b[0]};
  }

  lemma {:induction false} FirstIsLeast(source: string, rs: seq<Replacement>, from: nat, r: Replacement)
    requires Ascending(source, rs, from) && r in rs
    ensures rs[0].start <= r.start && from <= r.start
  {
    if r != rs[0] {
      assert r in rs[1..];
      FirstIsLeast(source, rs[1..], rs[0].end, r);
    }
  }

  // ----------------------------------------------------------------------- the splice

  /** Splicing one range leaves what comes after it to the earlier splices' result. */
  lemma {:induction false} SubstituteSplit(source: string, rs: seq<Replacement>, from: nat, k: nat)
    requires from <= |source| && Ascending(source, rs, from) && 1 <= k <= |rs|
    ensures Ascending(source, rs[k..], rs[k - 1].end) && rs[k - 1].start <= rs[k - 1].end <= |source|
    ensures from <= rs[k - 1].start
  {
    if k > 1 {
      SubstituteSplit(source, rs[1..], rs[0].end, k - 1);
      assert rs[1..][k - 1..] == rs[k..];
    }
  }

  /** The text after the ranges from `k` on have been replaced: the source up to the end
      of range `k - 1`, then the substitution of the rest. */
  ghost function Spliced(source: string, rs: seq<Replacement>, k: nat): string
    requires Ascending(source, rs, 0) && k <= |rs|
  {
    if k == 0 then Substitute(source, rs, 0)
    else
      SubstituteSplit(source, rs, 0, k);
      source[..rs[k - 1].end] + Substitute(source, rs[k..], rs[k - 1].end)
  }

  lemma SliceRange(source: string, from: nat, r: Replacement, tail: string)
    requires InSource(source, r) && from <= r.start
    ensures r.end <= |source[..r.end] + tail|
    ensures source[..from] + (source[from..r.start] + r.value + tail)
         == (source[..r.end] + tail)[..r.start] + r.value + (source[..r.end] + tail)[r.end..]
  {
    var after := source[..r.end] + tail;
    assert after[..r.start] == source[..r.start] && after[r.end..] == tail;
    assert source[..from] + source[from..r.start] == source[..r.start];
  }

  lemma SubstituteFirst(source: string, rs: seq<Replacement>, from: nat)
    requires rs != [] && from <= |source| && Ascending(source, rs, from)
    ensures Ascending(source, rs[1..], rs[0].end)
    ensures Substitute(source, rs, from)
         == source[from..rs[0].start] + rs[0].value + Substitute(source, rs[1..], rs[0].end)
  {
  }

  lemma SplicedStep(source: string, rs: seq<Replacement>, k: nat)
    requires Ascending(source, rs, 0) && k < |rs|
    ensures InSource(source, rs[k]) && rs[k].end <= |Spliced(source, rs, k + 1)|
    ensures Spliced(source, rs, k)
         == Spliced(source, rs, k + 1)[..rs[k].start] + rs[k].value + Spliced(source, rs, k + 1)[rs[k].end..]
  {
    SubstituteSplit(source, rs, 0, k + 1);
    var tail := Substitute(source, rs[k + 1..], rs[k].end);
    assert Spliced(source, rs, k + 1) == source[..rs[k].end] + tail;
    if k > 0 {
      var from := rs[k - 1].end;
      SubstituteSplit(source, rs, 0, k);
      SubstituteFirst(source, rs[k..], from);
      assert rs[k..][0] == rs[k] && rs[k..][1..] == rs[k + 1..];
      assert Spliced(source, rs, k) == source[..from] + (source[from..rs[k].start] + rs[k].value + tail);
      SliceRange(source, from, rs[k], tail);
    } else {
      SubstituteFirst(source, rs, 0);
      assert rs[1..] == rs[k + 1..];
      assert Spliced(source, rs, k) == source[0..rs[k].start] + rs[k].value + tail;
      SliceRange(source, 0, rs[k], tail);
      assert source[..0] + (source[0..rs[k].start] + rs[k].value + tail) == source[0..rs[k].start] + rs[k].value + tail;
    }
  }

  /** The splice loop of `rewriteMarkdown`: on disjoint ranges in any order it is the
      simultaneous substitution of their source-ordered listing. */
  method SpliceAll(source: string, replacements: seq<Replacement>) returns (projected: string)
    requires Disjoint(source, replacements)
    ensures exists rs :: Ascending(source, rs, 0) && multiset(rs) == multiset(replacements)
              && projected == Substitute(source, rs, 0)
  {
    hide *;
    projected := source;
    var sorted := SortDescending(replacements);
    SortIsDescending(replacements);
    DisjointPermuted(source, replacements, sorted);
    DescendingReversed(source, sorted);
    ghost var rs := Reverse(sorted);
    NothingSpliced(source, rs);
    for i := 0 to |sorted|
      invariant projected == Spliced(source, rs, |rs| - i)
    {
      var r := sorted[i];
      assert rs[|rs| - i - 1] == r;
      SplicedStep(source, rs, |rs| - i - 1);
      RangeOrdered(source, r);
      projected := projected[..r.start] + r.value + projected[r.end..];
    }
    ReverseCounts(sorted);
    EverythingSpliced(source, rs);
  }

  lemma EverythingSpliced(source: string, rs: seq<Replacement>)
    requires Ascending(source, rs, 0)
    ensures Spliced(source, rs, 0) == Substitute(source, rs, 0)
  {
  }

  lemma RangeOrdered(source: string, r: Replacement)
    requires InSource(source, r)
    ensures r.start <= r.end
  {
  }

  lemma NothingSpliced(source: string, rs: seq<Replacement>)
    requires Ascending(source, rs, 0)
    ensures Spliced(source, rs, |rs|) == source
  {
    if rs != [] {
      SubstituteSplit(source, rs, 0, |rs|);
      assert rs[|rs|..] == [];
    }
  }

  lemma {:induction false} ReverseCounts(rs: seq<Replacement>)
    ensures multiset(Reverse(rs)) == multiset(rs)
  {
    if rs != [] {
      ReverseCounts(rs[..|rs| - 1]);
      assert rs == rs[..|rs| - 1] + [rs[|rs| - 1]];
    }
  }

  /** The listing in the contract is unique, so the order of the replacements is irrelevant. */
  lemma SubstitutionIsCanonical(source: string, p: seq<Replacement>, q: seq<Replacement>,
                                a: seq<Replacement>, b: seq<Replacement>)
    requires Disjoint(source, p) && multiset(p) == multiset(q)
    requires Ascending(source, a, 0) && multiset(a) == multiset(p)
    requires Ascending(source, b, 0) && multiset(b) == multiset(q)
    ensures Substitute(source, a, 0) == Substitute(source, b, 0)
  {
    DisjointPermuted(source, p, a);
    AscendingUnique(source, a, b, 0);
  }
}
