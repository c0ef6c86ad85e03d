/** The library sort, which is stable: an insertion sort by a comparator. */
module Sorting {

  ghost predicate Sorted<T>(cmp: (T, T) -> int, s: seq<T>) {
    forall i, j | 0 <= i < j < |s| :: cmp(s[i], s[j]) <= 0
  }

  /** On these members, the comparator is a total preorder. */
  ghost predicate PreorderOn<T>(cmp: (T, T) -> int, members: set<T>) {
    && (forall a, b | a in members && b in members :: cmp(a, b) < 0 <==> cmp(b, a) > 0)
    && (forall a, b, c | a in members && b in members && c in members && cmp(a, b) <= 0 && cmp(b, c) <= 0 ::
          cmp(a, c) <= 0)
  }

  lemma Transitive<T>(cmp: (T, T) -> int, members: set<T>, a: T, b: T, c: T)
    requires PreorderOn(cmp, members) && a in members && b in members && c in members
    requires cmp(a, b) <= 0 && cmp(b, c) <= 0
    ensures cmp(a, c) <= 0
  {
  }

  lemma Opposite<T>(cmp: (T, T) -> int, members: set<T>, a: T, b: T)
    requires PreorderOn(cmp, members) && a in members && b in members
    ensures cmp(a, b) < 0 <==> cmp(b, a) > 0
  {
  }

  function Insert<T>(cmp: (T, T) -> int, s: seq<T>, x: T): (r: seq<T>)
    ensures multiset(r) == multiset(s) + multiset{x}
  {
    if s == [] || cmp(s[|s| - 1], x) <= 0 then s + [x]
    else
      assert s == s[..|s| - 1] + [s[|s| - 1]];
      Insert(cmp, s[..|s| - 1], x) + [s[|s| - 1]]
  }

  function Sort<T>(cmp: (T, T) -> int, s: seq<T>): (r: seq<T>)
    ensures multiset(r) == multiset(s)
  {
    if s == [] then []
    else
      assert s == s[..|s| - 1] + [s[|s| - 1]];
      Insert(cmp, Sort(cmp, s[..|s| - 1]), s[|s| - 1])
  }

  /** Sorting and inserting add no members. */
  lemma SameMember<T>(r: seq<T>, s: seq<T>, v: T)
    requires multiset(r) == multiset(s) && v in r
    ensures v in s
  {
    assert v in multiset(r);
  }

  lemma InsertMember<T>(cmp: (T, T) -> int, s: seq<T>, x: T, v: T)
    requires v in Insert(cmp, s, x)
    ensures v in s || v == x
  {
    assert v in multiset(Insert(cmp, s, x));
  }

  lemma {:induction false} InsertSorted<T>(cmp: (T, T) -> int, members: set<T>, s: seq<T>, x: T)
    requires PreorderOn(cmp, members) && x in members && (forall v | v in s :: v in members) && Sorted(cmp, s)
    ensures Sorted(cmp, Insert(cmp, s, x))
  {
    hide PreorderOn;
    var n := |s|;
    if s != [] && cmp(s[n - 1], x) > 0 {
      InsertSorted(cmp, members, s[..n - 1], x);
      InsertBelow(cmp, members, s, x);
    } else {
      forall i | 0 <= i < n
        ensures cmp(s[i], x) <= 0
      {
        if i < n - 1 {
          Transitive(cmp, members, s[i], s[n - 1], x);
        }
      }
    }
  }

  lemma InsertBelow<T>(cmp: (T, T) -> int, members: set<T>, s: seq<T>, x: T)
    requires PreorderOn(cmp, members) && x in members && (forall v | v in s :: v in members) && Sorted(cmp, s)
    requires s != [] && cmp(s[|s| - 1], x) > 0
    ensures var r := Insert(cmp, s[..|s| - 1], x); forall i | 0 <= i < |r| :: cmp(r[i], s[|s| - 1]) <= 0
  {
    hide PreorderOn;
    var init, last := s[..|s| - 1], s[|s| - 1];
    Opposite(cmp, members, x, last);
    hide Insert;
    var r := Insert(cmp, init, x);
    forall i | 0 <= i < |r|
      ensures cmp(r[i], last) <= 0
    {
      InsertMember(cmp, init, x, r[i]);
      if r[i] in init {
        var k :| 0 <= k < |init| && init[k] == r[i];
        assert s[k] == r[i];
      } else {
        assert r[i] == x && cmp(last, x) > 0;
      }
    }
  }

  lemma {:induction false} SortSorted<T>(cmp: (T, T) -> int, members: set<T>, s: seq<T>)
    requires PreorderOn(cmp, members) && forall v | v in s :: v in members
    ensures Sorted(cmp, Sort(cmp, s))
  {
    hide PreorderOn;
    if s != [] {
      var init, last := s[..|s| - 1], s[|s| - 1];
      SortSorted(cmp, members, init);
      forall v | v in Sort(cmp, init)
        ensures v in members
      {
        SameMember(Sort(cmp, init), init, v);
      }
      InsertSorted(cmp, members, Sort(cmp, init), last);
    }
  }

  /** The elements that tie with `v`, in their order. */
  ghost function Tied<T>(cmp: (T, T) -> int, s: seq<T>, v: T): seq<T> {
    if s == [] then []
    else
      var rest := Tied(cmp, s[..|s| - 1], v);
      if cmp(s[|s| - 1], v) == 0 then rest + [s[|s| - 1]] else rest
  }

  lemma TiedLast<T>(cmp: (T, T) -> int, s: seq<T>, x: T, v: T)
    ensures Tied(cmp, s + [x], v) == if cmp(x, v) == 0 then Tied(cmp, s, v) + [x] else Tied(cmp, s, v)
  {
    assert (s + [x])[..|s|] == s;
  }

  lemma NotBothTied<T>(cmp: (T, T) -> int, members: set<T>, last: T, x: T, v: T)
    requires PreorderOn(cmp, members) && last in members && x in members && v in members
    requires cmp(last, x) > 0 && cmp(last, v) == 0
    ensures cmp(x, v) != 0
  {
    if cmp(x, v) == 0 {
      Opposite(cmp, members, x, v);
      Opposite(cmp, members, v, x);
      Transitive(cmp, members, last, v, x);
    }
  }

  lemma {:induction false} InsertStable<T>(cmp: (T, T) -> int, members: set<T>, s: seq<T>, x: T, v: T)
    requires PreorderOn(cmp, members) && x in members && v in members && forall e | e in s :: e in members
    ensures Tied(cmp, Insert(cmp, s, x), v) == Tied(cmp, s + [x], v)
  {
    hide PreorderOn, Tied;
    if s != [] && cmp(s[|s| - 1], x) > 0 {
      var init, last := s[..|s| - 1], s[|s| - 1];
      assert s == init + [last];
      InsertStable(cmp, members, init, x, v);
      var inserted := Insert(cmp, init, x);
      assert Insert(cmp, s, x) == inserted + [last];
      TiedLast(cmp, init, x, v);
      TiedLast(cmp, init, last, v);
      TiedLast(cmp, s, x, v);
      TiedLast(cmp, inserted, last, v);
      if cmp(last, v) == 0 {
        NotBothTied(cmp, members, last, x, v);
      }
    }
  }

  /** Elements that tie keep their order. */
  lemma {:induction false} SortStable<T>(cmp: (T, T) -> int, members: set<T>, s: seq<T>, v: T)
    requires PreorderOn(cmp, members) && v in members && forall e | e in s :: e in members
    ensures Tied(cmp, Sort(cmp, s), v) == Tied(cmp, s, v)
  {
    hide PreorderOn;
    if s != [] {
      var init, last := s[..|s| - 1], s[|s| - 1];
      SortStable(cmp, members, init, v);
      forall e | e in Sort(cmp, init)
        ensures e in members
      {
        SameMember(Sort(cmp, init), init, e);
      }
      InsertStable(cmp, members, Sort(cmp, init), last, v);
      TiedLast(cmp, Sort(cmp, init), last, v);
    }
  }
}
