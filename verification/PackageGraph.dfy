/** Dependency-first package ordering: dsh/scripts/package-graph.ts. */
module PackageGraph {

  import opened Digraph
  import opened ComponentSearch
  import Sorting

  /** One harness package and its in-repo peer-dependency names. */
  datatype PackageNode = PackageNode(short: string, name: string, group: string, rel: string, deps: seq<string>)

  /** The `byName` map: package by short name. */
  type Packages = map<string, PackageNode>

  type Comparator = (PackageNode, PackageNode) -> int

  type Collation = (string, string) -> int

  datatype TopoResult =
    | Ordered(out: seq<PackageNode>)
    | MissingPeer(name: string, dependency: string)

  // -------------------------------------------------------------- map of packages

  /** The packages by short name; the last duplicate wins. */
  function ByName(packages: seq<PackageNode>): Packages {
    if packages == [] then map[]
    else
      var last := packages[|packages| - 1];
      ByName(packages[..|packages| - 1])[last.short := last]
  }

  /** The iteration order of that map: first insertion of each key. */
  function KeyOrder(packages: seq<PackageNode>): (order: seq<string>)
    ensures Distinct(order) && Elems(order) == ByName(packages).Keys
  {
    if packages == [] then []
    else
      var order := KeyOrder(packages[..|packages| - 1]);
      var short := packages[|packages| - 1].short;
      if short in order then order else order + [short]
  }

  ghost predicate UniqueShort(packages: seq<PackageNode>) {
    forall i, j | 0 <= i < j < |packages| :: packages[i].short != packages[j].short
  }

  lemma {:induction false} ByNameHas(packages: seq<PackageNode>)
    ensures forall k | k in ByName(packages) :: ByName(packages)[k] in packages && ByName(packages)[k].short == k
    ensures forall p | p in packages :: p.short in ByName(packages)
  {
    if packages != [] {
      ByNameHas(packages[..|packages| - 1]);
      assert packages == packages[..|packages| - 1] + [packages[|packages| - 1]];
    }
  }

  lemma {:induction false} ByNameUnique(packages: seq<PackageNode>)
    requires UniqueShort(packages)
    ensures forall p | p in packages :: p.short in ByName(packages) && ByName(packages)[p.short] == p
  {
    if packages != [] {
      var init := packages[..|packages| - 1];
      ByNameUnique(init);
      assert packages == init + [packages[|packages| - 1]];
    }
  }

  /** Of several packages with one short name the map holds the last. */
  lemma {:induction false} ByNameLast(packages: seq<PackageNode>, k: string)
    requires k in ByName(packages)
    ensures exists i :: 0 <= i < |packages| && packages[i] == ByName(packages)[k] && packages[i].short == k
              && forall j | i < j < |packages| :: packages[j].short != k
  {
    var n := |packages| - 1;
    if packages[n].short != k {
      ByNameLast(packages[..n], k);
      var i :| 0 <= i < n && packages[..n][i] == ByName(packages[..n])[k] && packages[..n][i].short == k
        && forall j | i < j < n :: packages[..n][j].short != k;
      assert packages[i] == packages[..n][i];
      assert forall j | i < j < n :: packages[j] == packages[..n][j];
    }
  }

  // ------------------------------------------------------------------ comparison

  const MAX_SAFE_INTEGER := 0x1F_FFFF_FFFF_FFFF

  /** The first place of a group in the order, or -1. */
  function IndexOf(groups: seq<string>, group: string): (index: int)
    ensures -1 <= index < |groups|
    ensures index == -1 <==> group !in groups
    ensures index >= 0 ==> groups[index] == group && group !in groups[..index]
  {
    if groups == [] then -1
    else if groups[0] == group then 0
    else
      var rest := IndexOf(groups[1..], group);
      if rest == -1 then -1 else
      assert groups[..rest + 1] == [groups[0]] + groups[1..][..rest];
      rest + 1
  }

  function GroupRank(groupOrder: seq<string>, group: string): int {
    var index := IndexOf(groupOrder, group);
    if index == -1 then MAX_SAFE_INTEGER else index
  }

  function ComparePackages(a: PackageNode, b: PackageNode, groupOrder: seq<string>, collate: Collation): int {
    var byRank := GroupRank(groupOrder, a.group) - GroupRank(groupOrder, b.group);
    if byRank != 0 then byRank
    else
      var byGroup := collate(a.group, b.group);
      if byGroup != 0 then byGroup else collate(a.short, b.short)
  }

  function PackageOrder(groupOrder: seq<string>, collate: Collation): Comparator {
    (a: PackageNode, b: PackageNode) => ComparePackages(a, b, groupOrder, collate)
  }

  /** What `localeCompare` is relied on for: a total preorder of strings. */
  ghost predicate IsCollation(collate: Collation) {
    && (forall a, b :: collate(a, b) < 0 <==> collate(b, a) > 0)
    && (forall a, b, c :: collate(a, b) <= 0 && collate(b, c) <= 0 ==> collate(a, c) <= 0)
  }

  ghost predicate Preorder(cmp: Comparator) {
    && (forall a, b :: cmp(a, b) < 0 <==> cmp(b, a) > 0)
    && (forall a, b, c :: cmp(a, b) <= 0 && cmp(b, c) <= 0 ==> cmp(a, c) <= 0)
  }

  /** Rank, then group, then short name is again a total preorder, and packages
      tie only when the collation ties their short names. */
  lemma ComparePackagesOrders(groupOrder: seq<string>, collate: Collation)
    requires IsCollation(collate)
    ensures Preorder(PackageOrder(groupOrder, collate))
    ensures forall a, b | PackageOrder(groupOrder, collate)(a, b) == 0 :: collate(a.short, b.short) == 0
  {
    var cmp := PackageOrder(groupOrder, collate);
    forall a, b, c | cmp(a, b) <= 0 && cmp(b, c) <= 0
      ensures cmp(a, c) <= 0
    {
      CompareTransitive(a, b, c, groupOrder, collate);
    }
    forall a: PackageNode, b: PackageNode
      ensures cmp(a, b) < 0 <==> cmp(b, a) > 0
    {
      assert collate(a.group, b.group) < 0 <==> collate(b.group, a.group) > 0;
    }
  }

  /** `a` is listed, and `b` is not listed up to where `a` first is. */
  ghost predicate EarlierGroup(groupOrder: seq<string>, a: string, b: string) {
    exists i :: 0 <= i < |groupOrder| && groupOrder[i] == a && b !in groupOrder[..i + 1]
  }

  lemma {:induction false} IndexFirst(groups: seq<string>, group: string, k: nat)
    requires k < |groups| && groups[k] == group
    ensures 0 <= IndexOf(groups, group) <= k
  {
    if groups[0] != group {
      IndexFirst(groups[1..], group, k - 1);
    }
  }

  lemma ListedBefore(groups: seq<string>, group: string, n: nat)
    requires n <= |groups|
    ensures group in groups[..n] <==> 0 <= IndexOf(groups, group) < n
  {
    var x := IndexOf(groups, group);
    if 0 <= x < n {
      assert groups[..n][x] == group;
    }
    if k :| 0 <= k < n && groups[..n][k] == group {
      IndexFirst(groups, group, k);
    }
  }

  lemma EarlierIff(groupOrder: seq<string>, a: string, b: string)
    ensures var x, y := IndexOf(groupOrder, a), IndexOf(groupOrder, b);
      EarlierGroup(groupOrder, a, b) <==> x >= 0 && (y == -1 || x < y)
  {
    hide IndexOf;
    var x := IndexOf(groupOrder, a);
    if EarlierGroup(groupOrder, a, b) {
      var i :| 0 <= i < |groupOrder| && groupOrder[i] == a && b !in groupOrder[..i + 1];
      ListedBefore(groupOrder, b, i + 1);
      ListedBefore(groupOrder, a, i + 1);
      assert groupOrder[..i + 1][i] == a;
    }
    if x >= 0 {
      ListedBefore(groupOrder, b, x + 1);
    }
  }

  /** Which of two packages comes first: that of the group listed earlier, a listed group before an
      unlisted one; where the list does not tell, that of the smaller group by the collation, and
      where the groups tie, that of the smaller short name. */
  lemma GroupsDecide(groupOrder: seq<string>, collate: Collation, a: PackageNode, b: PackageNode)
    requires IsCollation(collate)
    ensures var cmp := PackageOrder(groupOrder, collate);
      && (EarlierGroup(groupOrder, a.group, b.group) && (b.group in groupOrder || |groupOrder| <= 9007199254740991) ==>
            cmp(a, b) < 0 && cmp(b, a) > 0)
      && (!EarlierGroup(groupOrder, a.group, b.group) && !EarlierGroup(groupOrder, b.group, a.group) ==>
            var tie := if collate(a.group, b.group) != 0 then collate(a.group, b.group) else collate(a.short, b.short);
            (cmp(a, b) < 0 <==> tie < 0) && (cmp(a, b) > 0 <==> tie > 0))
  {
    hide EarlierGroup, IndexOf;
    EarlierIff(groupOrder, a.group, b.group);
    EarlierIff(groupOrder, b.group, a.group);
  }

  lemma CompareTransitive(a: PackageNode, b: PackageNode, c: PackageNode, groupOrder: seq<string>, collate: Collation)
    requires IsCollation(collate)
    requires ComparePackages(a, b, groupOrder, collate) <= 0 && ComparePackages(b, c, groupOrder, collate) <= 0
    ensures ComparePackages(a, c, groupOrder, collate) <= 0
  {
    hide GroupRank;
    assert collate(a.group, c.group) < 0 <==> collate(c.group, a.group) > 0;
    if collate(a.group, c.group) == 0 {
      assert collate(c.group, a.group) <= 0;
      assert collate(b.group, a.group) < 0 <==> collate(a.group, b.group) > 0;
      assert collate(c.group, b.group) < 0 <==> collate(b.group, c.group) > 0;
    }
  }

  // --------------------------------------------------------------------- sorting

  ghost predicate SortedBy(all: Packages, cmp: Comparator, names: seq<string>)
    requires forall v | v in names :: v in all
  {
    forall i, j | 0 <= i < j < |names| :: cmp(all[names[i]], all[names[j]]) <= 0
  }

  /** Package names compared through their packages. */
  function ByPackage(all: Packages, cmp: Comparator): (string, string) -> int {
    (a: string, b: string) => if a in all && b in all then cmp(all[a], all[b]) else 0
  }

  function Sort(all: Packages, cmp: Comparator, names: seq<string>): (r: seq<string>)
    requires forall v | v in names :: v in all
    ensures multiset(r) == multiset(names) && |r| == |names|
    ensures forall v | v in r :: v in all
  {
    var r := Sorting.Sort(ByPackage(all, cmp), names);
    assert |multiset(r)| == |multiset(names)|;
    assert forall v | v in r :: v in multiset(r);
    r
  }

  lemma Transitive(cmp: Comparator, a: PackageNode, b: PackageNode, c: PackageNode)
    requires Preorder(cmp) && cmp(a, b) <= 0 && cmp(b, c) <= 0
    ensures cmp(a, c) <= 0
  {
  }

  lemma Antisymmetric(cmp: Comparator, a: PackageNode, b: PackageNode)
    requires Preorder(cmp) && cmp(a, b) <= 0 && cmp(b, a) <= 0
    ensures cmp(a, b) == 0
  {
    assert cmp(a, b) < 0 <==> cmp(b, a) > 0;
  }

  /** A sorted list starts with a least member. */
  lemma LeastFirst(all: Packages, cmp: Comparator, names: seq<string>, v: string)
    requires (forall u | u in names :: u in all) && v in names
    requires Preorder(cmp) && SortedBy(all, cmp, names)
    ensures cmp(all[names[0]], all[v]) <= 0
  {
    var i :| 0 <= i < |names| && names[i] == v;
    if i == 0 {
      assert cmp(all[v], all[v]) < 0 <==> cmp(all[v], all[v]) > 0;
    }
  }

  lemma SortSorted(all: Packages, cmp: Comparator, names: seq<string>)
    requires (forall v | v in names :: v in all) && Preorder(cmp)
    ensures SortedBy(all, cmp, Sort(all, cmp, names))
  {
    var order, r := ByPackage(all, cmp), Sort(all, cmp, names);
    forall a, b | a in all && b in all
      ensures order(a, b) < 0 <==> order(b, a) > 0
    {
    }
    assert Sorting.PreorderOn(order, all.Keys);
    Sorting.SortSorted(order, all.Keys, names);
    forall i, j | 0 <= i < j < |r|
      ensures cmp(all[r[i]], all[r[j]]) <= 0
    {
      assert order(r[i], r[j]) <= 0;
    }
  }

  lemma SortKeeps(all: Packages, cmp: Comparator, names: seq<string>)
    requires (forall v | v in names :: v in all) && Distinct(names)
    ensures Distinct(Sort(all, cmp, names)) && Elems(Sort(all, cmp, names)) == Elems(names)
  {
    var r := Sort(all, cmp, names);
    assert forall v :: v in r <==> v in multiset(r);
    assert forall v :: v in names <==> v in multiset(names);
    DistinctCounts(names);
    CountsDistinct(r);
  }

  lemma {:induction false} DistinctCounts(s: seq<string>)
    requires Distinct(s)
    ensures forall v :: multiset(s)[v] <= 1
  {
    if s != [] {
      DistinctCounts(s[1..]);
      assert s == [s[0]] + s[1..];
      assert s[0] !in s[1..];
    }
  }

  lemma {:induction false} CountsDistinct(s: seq<string>)
    requires forall v :: multiset(s)[v] <= 1
    ensures Distinct(s)
  {
    if s != [] {
      assert s == [s[0]] + s[1..];
      forall v ensures multiset(s[1..])[v] <= 1 {
        assert multiset(s)[v] <= 1;
      }
      CountsDistinct(s[1..]);
      assert s[0] !in s[1..] by {
        assert multiset(s)[s[0]] == 1 + multiset(s[1..])[s[0]];
      }
    }
  }

  /** Under a comparator that separates the names, a set has one sorted listing. */
  lemma {:induction false} SortedUnique(all: Packages, cmp: Comparator, s: seq<string>, t: seq<string>)
    requires (forall v | v in s :: v in all) && (forall v | v in t :: v in all)
    requires Preorder(cmp) && Separates(all, cmp)
    requires Distinct(s) && Distinct(t) && Elems(s) == Elems(t)
    requires SortedBy(all, cmp, s) && SortedBy(all, cmp, t)
    ensures s == t
  {
    hide Preorder, SortedBy, Distinct, Elems;
    SuffixesSorted(all, cmp, s);
    SuffixesSorted(all, cmp, t);
    assert t != [] ==> t[0] in Elems(t);
    if s != [] {
      assert s[0] in Elems(s);
      assert t != [] && t[0] in Elems(t);
      assert s[0] in t && t[0] in s;
      LeastFirst(all, cmp, s, t[0]);
      LeastFirst(all, cmp, t, s[0]);
      Antisymmetric(cmp, all[s[0]], all[t[0]]);
      TailElems(s, t);
      SortedUnique(all, cmp, s[1..], t[1..]);
      assert s == [s[0]] + s[1..] && t == [t[0]] + t[1..];
    }
  }

  lemma SuffixesSorted(all: Packages, cmp: Comparator, s: seq<string>)
    requires (forall v | v in s :: v in all) && Distinct(s) && SortedBy(all, cmp, s)
    ensures s != [] ==> Distinct(s[1..]) && SortedBy(all, cmp, s[1..])
  {
  }

  lemma TailElems(s: seq<string>, t: seq<string>)
    requires s != [] && t != [] && s[0] == t[0]
    requires Distinct(s) && Distinct(t) && Elems(s) == Elems(t)
    ensures Elems(s[1..]) == Elems(t[1..])
  {
    assert s == [s[0]] + s[1..] && t == [t[0]] + t[1..];
    forall v
      ensures v in s[1..] <==> v in t[1..]
    {
      assert v in Elems(s) <==> v in Elems(t);
    }
  }

  /** No two packages tie. */
  ghost predicate Separates(all: Packages, cmp: Comparator) {
    forall a, b | a in all && b in all && a != b :: cmp(all[a], all[b]) != 0
  }
}
