/** The exact-string edits of dsh/scripts/rescope-vendor.ts: how an edit site is
    classified, what applying it does, and when the reverse edit undoes it. */
module ExactEdits {

  // ------------------------------------------------------------------- library strings

  predicate OccursAt(text: string, s: string, i: nat) {
    i + |s| <= |text| && text[i..i + |s|] == s
  }

  /** `text.indexOf(s)` */
  function IndexOf(text: string, s: string): (i: int)
    ensures i >= -1
    ensures i >= 0 ==> i + |s| <= |text|
  {
    if |s| <= |text| && text[..|s|] == s then 0
    else if text == "" then -1
    else
      var rest := IndexOf(text[1..], s);
      if rest == -1 then -1 else rest + 1
  }

  /** `text.includes(s)` */
  predicate Includes(text: string, s: string) {
    IndexOf(text, s) >= 0
  }

  lemma {:induction false} IndexOfFirst(text: string, s: string)
    ensures IndexOf(text, s) >= 0 ==> OccursAt(text, s, IndexOf(text, s))
    ensures forall j: nat | OccursAt(text, s, j) :: 0 <= IndexOf(text, s) <= j
  {
    if |s| <= |text| && text[..|s|] == s {
    } else if text == "" {
    } else {
      IndexOfFirst(text[1..], s);
      forall j: nat | OccursAt(text, s, j)
        ensures 0 <= IndexOf(text, s) <= j
      {
        assert j > 0;
        assert OccursAt(text[1..], s, j - 1);
      }
    }
  }

  lemma IncludesIff(text: string, s: string)
    ensures Includes(text, s) <==> exists i: nat :: OccursAt(text, s, i)
  {
    IndexOfFirst(text, s);
  }

  lemma OccursCharacter(text: string, s: string, q: nat, j: nat)
    requires OccursAt(text, s, q) && j < |s|
    ensures q + j < |text| && text[q + j] == s[j]
  {
    assert text[q..q + |s|][j] == text[q + j];
  }

  lemma LacksCharacter(text: string, s: string, c: char)
    requires c in s && c !in text
    ensures !Includes(text, s)
  {
    IncludesIff(text, s);
    hide OccursAt, Includes;
    var j :| 0 <= j < |s| && s[j] == c;
    forall q: nat
      ensures !OccursAt(text, s, q)
    {
      if OccursAt(text, s, q) {
        OccursCharacter(text, s, q, j);
      }
    }
  }

  function Characters(text: string): seq<string> {
    if text == "" then [] else [[text[0]]] + Characters(text[1..])
  }

  /** `text.split(s)`; the empty separator splits into single characters. */
  function Split(text: string, s: string): (pieces: seq<string>)
    ensures s != "" ==> pieces != []
    decreases |text|
  {
    if s == "" then Characters(text)
    else
      var i := IndexOf(text, s);
      if i == -1 then [text] else [text[..i]] + Split(text[i + |s|..], s)
  }

  /** `pieces.join(s)` */
  function Join(pieces: seq<string>, s: string): string {
    if pieces == [] then ""
    else if |pieces| == 1 then pieces[0]
    else pieces[0] + s + Join(pieces[1..], s)
  }

  /** The number of separators `split` removes. */
  function Count(text: string, s: string): int {
    |Split(text, s)| - 1
  }

  // --------------------------------------------------------------------- classification

  datatype EditState = Pending | Applied | Invalid

  function ExactEditState(text: string, find: string, replace: string, expected: int): EditState {
    var hits := Count(text, find);
    var landed := Count(text, replace);
    if Includes(replace, find) then
      if landed == expected then Applied
      else if landed == 0 && hits == expected then Pending else Invalid
    else if Includes(find, replace) then
      if hits == 0 then if landed == expected then Applied else Invalid
      else if hits == expected then Pending else Invalid
    else if hits == 0 && landed == expected then Applied
    else if hits == expected && landed == 0 then Pending else Invalid
  }

  /** The apply step: `text.split(find).join(replace)`. */
  function Apply(text: string, find: string, replace: string): string {
    Join(Split(text, find), replace)
  }

  lemma MutualInclusion(a: string, b: string)
    requires Includes(a, b) && Includes(b, a)
    ensures a == b
  {
    IncludesIff(a, b);
    IncludesIff(b, a);
    var i: nat :| OccursAt(a, b, i);
    var j: nat :| OccursAt(b, a, j);
    assert i == 0 && a[0..|b|] == b;
  }

  /** "Applied" in one direction is "pending" in the other. */
  lemma AppliedIsReversePending(text: string, find: string, replace: string, expected: int)
    requires expected >= 1 && find != replace
    ensures ExactEditState(text, find, replace, expected) == Applied
       <==> ExactEditState(text, replace, find, expected) == Pending
  {
    if Includes(find, replace) && Includes(replace, find) {
      MutualInclusion(find, replace);
    }
  }

  // ------------------------------------------------------------------ splitting and joining

  /** No proper non-empty prefix is also a suffix, so two copies never overlap. */
  predicate Unbordered(s: string) {
    forall k | 1 <= k < |s| :: s[..k] != s[|s| - k..]
  }

  /** No proper suffix of `a` is a proper prefix of `b`. */
  predicate NoOverlap(a: string, b: string) {
    forall k | 1 <= k < |a| && k < |b| :: a[|a| - k..] != b[..k]
  }

  ghost predicate Lacks(pieces: seq<string>, s: string) {
    forall i | 0 <= i < |pieces| :: !Includes(pieces[i], s)
  }

  lemma {:induction false} JoinSplit(text: string, s: string)
    requires s != ""
    ensures Join(Split(text, s), s) == text
    decreases |text|
  {
    hide IndexOf, Split;
    IndexOfFirst(text, s);
    var i := IndexOf(text, s);
    if i >= 0 {
      SplitFound(text, s, i);
      JoinSplit(text[i + |s|..], s);
      var pieces := [text[..i]] + Split(text[i + |s|..], s);
      assert pieces[1..] == Split(text[i + |s|..], s);
      assert text == text[..i] + text[i..i + |s|] + text[i + |s|..];
    } else {
      SplitNone(text, s);
    }
  }

  lemma OccursInside(text: string, s: string, u: string, v: string, w: string, j: nat)
    requires text == u + v + w && OccursAt(v, s, j)
    ensures OccursAt(text, s, |u| + j)
  {
    assert text[|u| + j..|u| + j + |s|] == v[j..j + |s|];
  }

  lemma {:induction false} SplitLacks(text: string, s: string)
    requires s != ""
    ensures Lacks(Split(text, s), s)
    decreases |text|
  {
    IndexOfFirst(text, s);
    var i := IndexOf(text, s);
    if i >= 0 {
      SplitLacks(text[i + |s|..], s);
      IndexOfFirst(text[..i], s);
      if Includes(text[..i], s) {
        OccursInside(text, s, "", text[..i], text[i..], IndexOf(text[..i], s));
      }
    }
  }

  /** An occurrence that ends inside a copy of `s` shares a border with it. */
  lemma OverlapLeft(u: string, s: string, v: string, j: nat, k: nat)
    requires OccursAt(u + s + v, s, j) && j < |u| && 1 <= k < |s| && j + |s| == |u| + k
    ensures s[|s| - k..] == s[..k]
  {
    var text := u + s + v;
    assert s[|s| - k..] == text[j..j + |s|][|s| - k..] == text[|u|..|u| + k];
    assert text[|u|..|u| + k] == s[..k];
  }

  /** So does one that starts inside it. */
  lemma OverlapRight(u: string, s: string, v: string, j: nat, k: nat)
    requires OccursAt(u + s + v, s, j) && j > |u| && 1 <= k < |s| && j + k == |u| + |s|
    ensures s[|s| - k..] == s[..k]
  {
    var text := u + s + v;
    assert s[..k] == text[j..j + |s|][..k] == text[j..j + k];
    assert text[j..j + k] == s[|s| - k..];
  }

  /** An occurrence that meets an unbordered copy of `s` in the middle is that copy. */
  lemma MeetsMiddle(u: string, s: string, v: string, j: nat)
    requires s != "" && Unbordered(s) && OccursAt(u + s + v, s, j)
    ensures j + |s| <= |u| || j == |u| || j >= |u| + |s|
  {
    if |u| < j + |s| && j < |u| {
      OverlapLeft(u, s, v, j, j + |s| - |u|);
    }
    if |u| < j < |u| + |s| {
      OverlapRight(u, s, v, j, |u| + |s| - j);
    }
  }

  lemma FirstAround(u: string, s: string, v: string)
    requires s != "" && Unbordered(s)
    ensures IndexOf(u + s + v, s) == if Includes(u, s) then IndexOf(u, s) else |u|
  {
    hide IndexOf, Unbordered;
    var text := u + s + v;
    IndexOfFirst(text, s);
    IndexOfFirst(u, s);
    assert OccursAt(text, s, |u|);
    var i := IndexOf(text, s);
    MeetsMiddle(u, s, v, i);
    if Includes(u, s) {
      OccursInside(text, s, "", u, s + v, IndexOf(u, s));
    }
    if i + |s| <= |u| {
      assert u[i..i + |s|] == text[i..i + |s|];
      assert OccursAt(u, s, i);
    }
  }

  /** Around an unbordered separator the two sides split independently. */
  lemma {:induction false} SplitAround(u: string, s: string, v: string)
    requires s != "" && Unbordered(s)
    ensures Split(u + s + v, s) == Split(u, s) + Split(v, s)
    decreases |u|
  {
    hide IndexOf, Unbordered, Split;
    var text := u + s + v;
    FirstAround(u, s, v);
    var i := IndexOf(text, s);
    SplitFound(text, s, i);
    if Includes(u, s) {
      SplitFound(u, s, i);
      SplitAround(u[i + |s|..], s, v);
      assert text[i + |s|..] == u[i + |s|..] + s + v;
      assert text[..i] == u[..i];
      var rest := Split(u[i + |s|..], s);
      assert [u[..i]] + rest + Split(v, s) == [u[..i]] + (rest + Split(v, s));
    } else {
      SplitNone(u, s);
      assert text[..i] == u && text[i + |s|..] == v;
    }
  }

  lemma SplitNone(text: string, s: string)
    requires s != "" && IndexOf(text, s) == -1
    ensures Split(text, s) == [text]
  {
    hide IndexOf;
  }

  lemma SplitFound(text: string, s: string, i: nat)
    requires s != "" && IndexOf(text, s) == i
    ensures Split(text, s) == [text[..i]] + Split(text[i + |s|..], s)
  {
    hide IndexOf, Characters;
  }

  /** A piece and a separator behind it hold no earlier copy of the separator. */
  ghost predicate Aligned(pieces: seq<string>, s: string)
    requires pieces != []
  {
    && (forall i | 0 <= i < |pieces| - 1 :: IndexOf(pieces[i] + s, s) == |pieces[i]|)
    && !Includes(pieces[|pieces| - 1], s)
  }

  /** What stands behind a copy does not make an earlier one. */
  lemma FirstBefore(u: string, s: string, v: string)
    requires s != ""
    ensures IndexOf(u + s + v, s) == |u| <==> IndexOf(u + s, s) == |u|
    ensures 0 <= IndexOf(u + s + v, s) <= |u|
  {
    hide IndexOf, OccursAt;
    var text, short := u + s + v, u + s;
    IndexOfFirst(text, s);
    IndexOfFirst(short, s);
    OccursHere(u, s, v);
    OccursHere(u, s, "");
    assert u + s + "" == short;
    forall j: nat | j <= |u|
      ensures OccursAt(text, s, j) <==> OccursAt(short, s, j)
    {
      OccursBefore(u, s, v, j);
    }
  }

  lemma OccursHere(u: string, s: string, v: string)
    ensures OccursAt(u + s + v, s, |u|)
  {
  }

  lemma OccursBefore(u: string, s: string, v: string, j: nat)
    requires j <= |u|
    ensures OccursAt(u + s + v, s, j) <==> OccursAt(u + s, s, j)
  {
    assert (u + s + v)[j..j + |s|] == (u + s)[j..j + |s|];
  }

  /** For every separator: what was joined is split into the same pieces if and only if the
      pieces are aligned with it. */
  lemma {:induction false} SplitJoinExact(pieces: seq<string>, s: string)
    requires s != "" && pieces != []
    ensures Split(Join(pieces, s), s) == pieces <==> Aligned(pieces, s)
  {
    hide Split, IndexOf;
    var head := pieces[0];
    if |pieces| == 1 {
      SplitOne(head, s);
      assert pieces == [head];
    } else {
      var rest := pieces[1..];
      SplitJoinExact(rest, s);
      FirstBefore(head, s, Join(rest, s));
      SplitFirst(head, s, Join(rest, s), rest);
      AlignedFirst(pieces, s);
    }
  }

  lemma SplitOne(text: string, s: string)
    requires s != ""
    ensures Split(text, s) == [text] <==> !Includes(text, s)
  {
    hide IndexOf;
    if IndexOf(text, s) == -1 {
      SplitNone(text, s);
    } else {
      SplitFound(text, s, IndexOf(text, s));
    }
  }

  lemma SplitFirst(u: string, s: string, v: string, rest: seq<string>)
    requires s != "" && 0 <= IndexOf(u + s + v, s) <= |u|
    ensures Split(u + s + v, s) == [u] + rest <==> IndexOf(u + s + v, s) == |u| && Split(v, s) == rest
  {
    hide IndexOf;
    var text := u + s + v;
    var i := IndexOf(text, s);
    SplitFound(text, s, i);
    hide Split;
    if i == |u| {
      assert text[..i] == u && text[i + |s|..] == v;
      assert ([u] + rest)[1..] == rest && ([u] + Split(v, s))[1..] == Split(v, s);
    } else {
      assert |text[..i]| == i;
      assert ([text[..i]] + Split(text[i + |s|..], s))[0] == text[..i] && ([u] + rest)[0] == u;
    }
  }

  lemma AlignedFirst(pieces: seq<string>, s: string)
    requires |pieces| > 1
    ensures Aligned(pieces, s) <==> IndexOf(pieces[0] + s, s) == |pieces[0]| && Aligned(pieces[1..], s)
  {
    hide IndexOf;
    var rest := pieces[1..];
    assert forall i | 0 <= i < |rest| :: rest[i] == pieces[i + 1];
    if Aligned(rest, s) && IndexOf(pieces[0] + s, s) == |pieces[0]| {
      forall i | 0 <= i < |pieces| - 1
        ensures IndexOf(pieces[i] + s, s) == |pieces[i]|
      {
        if i > 0 {
          assert pieces[i] == rest[i - 1];
        }
      }
    }
  }

  /** Pieces without copies of a separator that does not overlap itself are aligned with it. */
  lemma UnborderedAligned(pieces: seq<string>, s: string)
    requires s != "" && Unbordered(s) && pieces != [] && Lacks(pieces, s)
    ensures Aligned(pieces, s)
  {
    hide IndexOf, Unbordered;
    forall i | 0 <= i < |pieces| - 1
      ensures IndexOf(pieces[i] + s, s) == |pieces[i]|
    {
      FirstAround(pieces[i], s, "");
      assert pieces[i] + s + "" == pieces[i] + s;
      assert !Includes(pieces[i], s);
    }
    assert !Includes(pieces[|pieces| - 1], s);
  }

  /** With such a separator, what was joined can be split again if and only if no piece
      contains the separator. */
  lemma SplitJoin(pieces: seq<string>, s: string)
    requires s != "" && Unbordered(s) && pieces != []
    ensures Split(Join(pieces, s), s) == pieces <==> Lacks(pieces, s)
  {
    hide IndexOf, Split, Aligned, Unbordered;
    SplitJoinExact(pieces, s);
    SplitLacks(Join(pieces, s), s);
    if Lacks(pieces, s) {
      UnborderedAligned(pieces, s);
    }
  }

  // -------------------------------------------------------------------------- applying

  lemma JoinFirst(pieces: seq<string>, s: string)
    requires |pieces| > 1
    ensures Join(pieces, s) == pieces[0] + s + Join(pieces[1..], s)
  {
  }

  /** The first separator of aligned pieces is the first copy in the joined text. */
  lemma AlignedStarts(pieces: seq<string>, s: string)
    requires s != "" && |pieces| > 1 && Aligned(pieces, s)
    ensures IndexOf(Join(pieces, s), s) == |pieces[0]|
  {
    hide IndexOf;
    JoinFirst(pieces, s);
    FirstBefore(pieces[0], s, Join(pieces[1..], s));
  }

  /** A joined text of more than one piece has a copy of the separator behind the first. */
  lemma JoinedHas(pieces: seq<string>, s: string)
    requires |pieces| > 1
    ensures OccursAt(Join(pieces, s), s, |pieces[0]|) && 0 <= IndexOf(Join(pieces, s), s) <= |pieces[0]|
  {
    hide IndexOf;
    JoinFirst(pieces, s);
    OccursHere(pieces[0], s, Join(pieces[1..], s));
    IndexOfFirst(Join(pieces, s), s);
  }

  lemma StripFirst(p: seq<string>, q: seq<string>, s: string)
    requires |p| > 1 && |q| > 1 && |p[0]| == |q[0]| && Join(p, s) == Join(q, s)
    ensures p[0] == q[0] && Join(p[1..], s) == Join(q[1..], s)
  {
    JoinFirst(p, s);
    JoinFirst(q, s);
    hide Join;
    var n := |p[0]|;
    assert p[0] == Join(p, s)[..n] && q[0] == Join(q, s)[..n];
    assert Join(p[1..], s) == Join(p, s)[n + |s|..] && Join(q[1..], s) == Join(q, s)[n + |s|..];
  }

  /** Lists that join alike with both separators are the same, if each is aligned with one. */
  lemma {:induction false} SameLists(p: seq<string>, q: seq<string>, f: string, r: string)
    requires f != "" && r != "" && p != [] && q != [] && Aligned(p, f) && Aligned(q, r)
    requires Join(p, f) == Join(q, f) && Join(p, r) == Join(q, r)
    ensures p == q
    decreases |p|
  {
    hide IndexOf;
    if |p| > 1 && |q| > 1 {
      hide Join, Aligned;
      AlignedStarts(p, f);
      JoinedHas(q, f);
      AlignedStarts(q, r);
      JoinedHas(p, r);
      StripFirst(p, q, f);
      StripFirst(p, q, r);
      AlignedFirst(p, f);
      AlignedFirst(q, r);
      SameLists(p[1..], q[1..], f, r);
      assert p == [p[0]] + p[1..] && q == [q[0]] + q[1..];
    } else if |p| > 1 {
      JoinedHas(p, r);
    } else if |q| > 1 {
      JoinedHas(q, f);
    }
  }

  /** The swapped edit restores the text if and only if the pieces between the sites are aligned
      with the target form; and only then its sites are the inserted copies. */
  lemma ApplyUndone(text: string, find: string, replace: string)
    requires find != "" && replace != ""
    ensures Split(Apply(text, find, replace), replace) == Split(text, find) <==> Aligned(Split(text, find), replace)
    ensures Apply(Apply(text, find, replace), replace, find) == text <==> Aligned(Split(text, find), replace)
  {
    hide Split, Join, Aligned;
    var p, q := Split(text, find), Split(Apply(text, find, replace), replace);
    SplitJoinExact(p, replace);
    JoinSplit(text, find);
    if Join(q, find) == text {
      JoinSplit(Apply(text, find, replace), replace);
      SplitJoinExact(p, find);
      SplitJoinExact(q, replace);
      SameLists(p, q, find, replace);
    }
  }

  lemma OccursIncluded(text: string, s: string, i: nat)
    requires OccursAt(text, s, i)
    ensures Includes(text, s)
  {
    IndexOfFirst(text, s);
  }

  lemma SliceOccurs(text: string, part: string, s: string, from: nat, i: nat)
    requires from + |part| <= |text| && text[from..from + |part|] == part
    requires OccursAt(text, s, from + i) && i + |s| <= |part|
    ensures Includes(part, s)
  {
    forall k | 0 <= k < |s|
      ensures part[i + k] == s[k]
    {
      assert text[from..from + |part|][i + k] == text[from + i..from + i + |s|][k];
    }
    assert part[i..i + |s|] == s;
    OccursIncluded(part, s, i);
  }

  lemma TailMeets(u: string, r: string, v: string, f: string, q: nat, k: nat)
    requires OccursAt(u + r + v, f, q) && q < |u| && 1 <= k < |f| && k < |r| && q + |f| == |u| + k
    ensures !NoOverlap(f, r)
  {
    var text := u + r + v;
    assert f[|f| - k..] == text[q..q + |f|][|f| - k..] == text[|u|..|u| + k];
    assert text[|u|..|u| + k] == r[..k];
  }

  lemma HeadMeets(u: string, r: string, v: string, f: string, q: nat, k: nat)
    requires OccursAt(u + r + v, f, q) && q > |u| && 1 <= k < |r| && k < |f| && q + k == |u| + |r|
    ensures !NoOverlap(r, f)
  {
    var text := u + r + v;
    assert f[..k] == text[q..q + |f|][..k] == text[q..q + k];
    assert text[q..q + k] == r[|r| - k..];
  }

  // ------------------------------------------------------------------------ convergence

  lemma CountZero(text: string, s: string)
    requires s != ""
    ensures Count(text, s) >= 0
    ensures Count(text, s) == 0 <==> !Includes(text, s)
  {
    hide IndexOf;
    if Includes(text, s) {
      SplitFound(text, s, IndexOf(text, s));
    } else {
      SplitNone(text, s);
    }
  }

  /** A piece with the separators beside it; in front of the first stands `lead`. */
  function Window(lead: string, pieces: seq<string>, s: string, i: nat): string
    requires i < |pieces|
  {
    (if i > 0 then s else lead) + pieces[i] + if i < |pieces| - 1 then s else ""
  }

  /** `find` stands in a piece with the separators beside it. */
  ghost predicate Reforms(lead: string, pieces: seq<string>, s: string, find: string) {
    exists i | 0 <= i < |pieces| :: Includes(Window(lead, pieces, s, i), find)
  }

  lemma ReformsRest(lead: string, pieces: seq<string>, s: string, find: string)
    requires |pieces| > 1
    ensures Reforms(lead, pieces, s, find) <==> Includes(lead + pieces[0] + s, find) || Reforms(s, pieces[1..], s, find)
  {
    hide Includes;
    var rest := pieces[1..];
    assert Window(lead, pieces, s, 0) == lead + pieces[0] + s;
    forall i | 0 <= i < |rest|
      ensures Window(s, rest, s, i) == Window(lead, pieces, s, i + 1)
    {
    }
    if Reforms(lead, pieces, s, find) && !Includes(lead + pieces[0] + s, find) {
      var i :| 0 <= i < |pieces| && Includes(Window(lead, pieces, s, i), find);
      assert Includes(Window(s, rest, s, i - 1), find);
    }
  }

  /** A text that does not contain the separator stands in a joined text if and only if it stands in
      one of its windows. */
  lemma {:induction false} ReformsIff(lead: string, pieces: seq<string>, s: string, find: string)
    requires pieces != [] && !Includes(find, s)
    ensures Includes(lead + Join(pieces, s), find) <==> Reforms(lead, pieces, s, find)
    decreases |pieces|
  {
    hide Includes, Reforms, Window;
    if |pieces| == 1 {
      ReformsOne(lead, pieces, s, find);
    } else {
      ReformsIff(s, pieces[1..], s, find);
      ReformsRest(lead, pieces, s, find);
      JoinFirst(pieces, s);
      var u, v := lead + pieces[0], Join(pieces[1..], s);
      assert lead + Join(pieces, s) == u + s + v;
      WithoutSeparator(u, s, v, find);
    }
  }

  lemma ReformsOne(lead: string, pieces: seq<string>, s: string, find: string)
    requires |pieces| == 1
    ensures Includes(lead + Join(pieces, s), find) <==> Reforms(lead, pieces, s, find)
  {
    hide Includes;
    assert Window(lead, pieces, s, 0) == lead + pieces[0] == lead + Join(pieces, s);
  }

  /** A text that does not contain `s` stands in front of its end or behind its start. */
  lemma WithoutSeparator(u: string, s: string, v: string, find: string)
    requires !Includes(find, s)
    ensures Includes(u + s + v, find) <==> Includes(u + s, find) || Includes(s + v, find)
  {
    var text := u + s + v;
    IncludesIff(text, find);
    IncludesIff(u + s, find);
    IncludesIff(s + v, find);
    hide Includes, OccursAt, IndexOf;
    if i: nat :| OccursAt(u + s, find, i) {
      OccursInside(text, find, "", u + s, v, i);
    }
    if i: nat :| OccursAt(s + v, find, i) {
      assert text == u + (s + v) + "";
      OccursInside(text, find, u, s + v, "", i);
    }
    if q: nat :| OccursAt(text, find, q) {
      OccursEitherSide(u, s, v, find, q);
    }
  }

  lemma OccursEitherSide(u: string, s: string, v: string, find: string, q: nat)
    requires !Includes(find, s) && OccursAt(u + s + v, find, q)
    ensures Includes(u + s, find) || Includes(s + v, find)
  {
    hide Includes;
    var text := u + s + v;
    if q + |find| <= |u| + |s| {
      SliceOccurs(text, u + s, find, 0, q);
    } else if q >= |u| {
      SliceOccurs(text, s + v, find, |u|, q - |u|);
    } else {
      SliceOccurs(text, find, s, q, |u| - q);
    }
  }

  /** A pending edit whose pieces are aligned with its target form: it is undone by its swap, and it
      is applied after one application if and only if it is an insertion or the source form is not
      formed anew. For a replacement that means: in no piece with the copies beside it. */
  lemma PendingConverges(text: string, find: string, replace: string, expected: int)
    requires expected >= 1 && find != "" && replace != "" && find != replace && Aligned(Split(text, find), replace)
    requires ExactEditState(text, find, replace, expected) == Pending
    ensures var after, pieces := Apply(text, find, replace), Split(text, find);
      && Split(after, replace) == pieces && Apply(after, replace, find) == text
      && ExactEditState(text, replace, find, expected) == Applied
      && (ExactEditState(after, find, replace, expected) == Applied
          <==> Includes(replace, find) || !Includes(after, find))
      && (!Includes(find, replace) ==>
            (Includes(after, find) <==> Reforms("", pieces, replace, find)))
      && (ExactEditState(after, find, replace, expected) == Applied
          <==> ExactEditState(after, replace, find, expected) == Pending)
  {
    hide IndexOf, Split, Join, Aligned, Lacks, Reforms, Includes;
    var after, pieces := Apply(text, find, replace), Split(text, find);
    ApplyUndone(text, find, replace);
    CountZero(after, find);
    if !Includes(find, replace) {
      ReformsIff("", pieces, replace, find);
      assert "" + after == after;
    }
    if Includes(replace, find) && Includes(find, replace) {
      MutualInclusion(find, replace);
    }
    AppliedIsReversePending(after, find, replace, expected);
    AppliedIsReversePending(text, replace, find, expected);
  }

  /** For every pending edit, aligned or not: it lands and can be undone if and only if its pieces
      are aligned with the target form and the source form is not formed anew. */
  lemma LandsIff(text: string, find: string, replace: string, expected: int)
    requires expected >= 1 && find != "" && replace != "" && find != replace
    requires ExactEditState(text, find, replace, expected) == Pending
    ensures var after := Apply(text, find, replace);
      ExactEditState(after, find, replace, expected) == Applied && Apply(after, replace, find) == text
      <==> Aligned(Split(text, find), replace) && (Includes(replace, find) || !Includes(after, find))
  {
    hide ExactEditState, Split, Join, Aligned, Includes;
    ApplyUndone(text, find, replace);
    if Aligned(Split(text, find), replace) {
      PendingConverges(text, find, replace, expected);
    }
  }

  /** A replacement with aligned pieces that forms its source anew: `ab` becomes `ca` in `abb`. */
  lemma ReplacementReforms()
    ensures ExactEditState("abb", "ab", "ca", 1) == Pending && Aligned(Split("abb", "ab"), "ca")
    ensures ExactEditState(Apply("abb", "ab", "ca"), "ab", "ca", 1) != Applied
  {
    ReformingPieces();
    hide Split, IndexOf, Aligned, Join;
    ShortLacks("ab", "ca");
    ShortLacks("ca", "ab");
    AlignedPair();
    PendingConverges("abb", "ab", "ca", 1);
    assert "cab"[1..3] == "ab";
    OccursIncluded("cab", "ab", 1);
  }

  lemma ReformingPieces()
    ensures Split("abb", "ab") == ["", "b"] && Split("abb", "ca") == ["abb"]
    ensures Apply("abb", "ab", "ca") == "cab"
  {
    hide Split, IndexOf, Join;
    IndexAtStart("abb", "ab");
    SplitFound("abb", "ab", 0);
    ShortLacks("b", "ab");
    SplitNone("b", "ab");
    assert "abb"[..0] == "" && "abb"[2..] == "b";
    LacksCharacter("abb", "ca", 'c');
    SplitNone("abb", "ca");
    JoinPair("", "b", "ca");
    assert "" + "ca" + "b" == "cab";
  }

  lemma JoinPair(a: string, b: string, s: string)
    ensures Join([a, b], s) == a + s + b
  {
    assert [a, b][1..] == [b];
  }

  lemma AlignedPair()
    ensures Aligned(["", "b"], "ca")
  {
    hide IndexOf;
    IndexAtStart("ca", "ca");
    ShortLacks("b", "ca");
    assert "" + "ca" == "ca";
  }

  // -------------------------------------------------------------------------- deletions

  lemma {:induction false} SplitOfJoin(pieces: seq<string>, s: string)
    requires s != "" && Unbordered(s) && pieces != []
    ensures |Split(Join(pieces, s), s)| >= |pieces|
    ensures |Split(Join(pieces, s), s)| == |pieces| <==> Lacks(pieces, s)
  {
    hide IndexOf, Split, Unbordered;
    CountZero(pieces[0], s);
    if |pieces| > 1 {
      SplitOfJoin(pieces[1..], s);
      SplitAround(pieces[0], s, Join(pieces[1..], s));
      assert Lacks(pieces, s) <==> !Includes(pieces[0], s) && Lacks(pieces[1..], s);
    }
  }

  /** A deletion keeps a remainder (`find` contains `replace`). It is applied after one
      application exactly when the remainder occurs nowhere else in the text and the
      text does not close up into the source form again. */
  lemma DeletionExact(text: string, find: string, replace: string, expected: int)
    requires expected >= 1 && replace != "" && find != replace && Includes(find, replace) && Unbordered(replace)
    requires ExactEditState(text, find, replace, expected) == Pending
    ensures ExactEditState(Apply(text, find, replace), find, replace, expected) == Applied
       <==> Lacks(Split(text, find), replace) && !Includes(Apply(text, find, replace), find)
    ensures Lacks(Split(text, find), replace) ==> Apply(Apply(text, find, replace), replace, find) == text
  {
    assert find != "" by {
      IncludesIff(find, replace);
    }
    if Includes(replace, find) {
      MutualInclusion(find, replace);
    }
    hide IndexOf, Split, Join, Unbordered, Lacks, Aligned;
    SplitOfJoin(Split(text, find), replace);
    CountZero(Apply(text, find, replace), find);
    if Lacks(Split(text, find), replace) {
      UnborderedAligned(Split(text, find), replace);
      ApplyUndone(text, find, replace);
    }
  }

  predicate EndsWith(s: string, x: string) {
    |x| <= |s| && s[|s| - |x|..] == x
  }

  predicate StartsWith(s: string, y: string) {
    |y| <= |s| && s[..|y|] == y
  }

  /** Two neighbouring pieces end and start with the parts a deletion removes. */
  ghost predicate ClosesUp(pieces: seq<string>, x: string, y: string) {
    exists i :: 0 <= i < |pieces| - 1 && EndsWith(pieces[i], x) && StartsWith(pieces[i + 1], y)
  }

  /** An occurrence across the border of `u` and `v` splits into a suffix and a prefix. */
  lemma Straddles(u: string, v: string, r: string, i: nat)
    requires OccursAt(u + v, r, i) && i < |u| < i + |r|
    ensures r[..|u| - i] == u[i..] && r[|u| - i..] == v[..i + |r| - |u|]
  {
    var text := u + v;
    assert r[..|u| - i] == text[i..i + |r|][..|u| - i] == text[i..|u|];
    assert r[|u| - i..] == text[i..i + |r|][|u| - i..] == text[|u|..i + |r|];
  }

  lemma {:induction false} LastPieceEnds(u: string, x: string, r: string)
    requires r != "" && !Includes(x, r)
    requires forall k | 1 <= k < |r| && k <= |x| :: r[|r| - k..] != x[..k]
    ensures var p := Split(u + x, r); EndsWith(p[|p| - 1], x)
    decreases |u|
  {
    hide IndexOf, Includes, Split;
    var text := u + x;
    IndexOfFirst(text, r);
    var i := IndexOf(text, r);
    if i == -1 {
      SplitNone(text, r);
      assert text[|u|..] == x;
    } else {
      SplitFound(text, r, i);
      assert i + |r| <= |u| by {
        if i >= |u| {
          SliceOccurs(text, x, r, |u|, i - |u|);
        } else if i + |r| > |u| {
          Straddles(u, x, r, i);
        }
      }
      LastPieceEnds(u[i + |r|..], x, r);
      assert text[i + |r|..] == u[i + |r|..] + x;
    }
  }

  lemma FirstPieceStarts(y: string, v: string, r: string)
    requires r != "" && !Includes(y, r)
    requires forall k | 1 <= k < |r| && k <= |y| :: y[|y| - k..] != r[..k]
    ensures StartsWith(Split(y + v, r)[0], y)
  {
    hide IndexOf, Includes, Split;
    var text := y + v;
    IndexOfFirst(text, r);
    var i := IndexOf(text, r);
    if i == -1 {
      SplitNone(text, r);
    } else {
      SplitFound(text, r, i);
      assert i >= |y| by {
        if i + |r| <= |y| {
          SliceOccurs(text, y, r, 0, i);
        } else if i < |y| {
          Straddles(y, v, r, i);
        }
      }
    }
  }

  /** The source form comes back exactly where two neighbouring pieces close up. */
  lemma ReformsIffClosesUp(pieces: seq<string>, find: string, replace: string, x: string, y: string)
    requires replace != "" && Unbordered(replace) && find == x + replace + y
    requires !Includes(x, replace) && !Includes(y, replace)
    requires NoOverlap(find, replace) && NoOverlap(replace, find)
    requires pieces != [] && Lacks(pieces, replace)
    ensures Includes(Join(pieces, replace), find) <==> ClosesUp(pieces, x, y)
  {
    hide IndexOf, Includes, Split, Unbordered, NoOverlap, Lacks, Join;
    if Includes(Join(pieces, replace), find) {
      ReformedClosesUp(pieces, find, replace, x, y);
    }
    if ClosesUp(pieces, x, y) {
      var i :| 0 <= i < |pieces| - 1 && EndsWith(pieces[i], x) && StartsWith(pieces[i + 1], y);
      ClosingReforms(pieces, find, replace, x, y, i);
    }
  }

  lemma NoOverlapParts(find: string, replace: string, x: string, y: string)
    requires replace != "" && find == x + replace + y && NoOverlap(find, replace) && NoOverlap(replace, find)
    ensures forall k | 1 <= k < |replace| && k <= |x| :: replace[|replace| - k..] != x[..k]
    ensures forall k | 1 <= k < |replace| && k <= |y| :: y[|y| - k..] != replace[..k]
  {
    forall k | 1 <= k < |replace| && k <= |x|
      ensures replace[|replace| - k..] != x[..k]
    {
      assert find[..k] == x[..k];
    }
    forall k | 1 <= k < |replace| && k <= |y|
      ensures y[|y| - k..] != replace[..k]
    {
      assert find[|find| - k..] == y[|y| - k..];
    }
  }

  lemma ReformedClosesUp(pieces: seq<string>, find: string, replace: string, x: string, y: string)
    requires replace != "" && Unbordered(replace) && find == x + replace + y
    requires !Includes(x, replace) && !Includes(y, replace)
    requires NoOverlap(find, replace) && NoOverlap(replace, find)
    requires pieces != [] && Lacks(pieces, replace) && Includes(Join(pieces, replace), find)
    ensures ClosesUp(pieces, x, y)
  {
    hide IndexOf, Split, Unbordered, NoOverlap, Lacks, Join, EndsWith, StartsWith;
    var text := Join(pieces, replace);
    SplitJoin(pieces, replace);
    IndexOfFirst(text, find);
    var q := IndexOf(text, find);
    var u, v := text[..q], text[q + |find|..];
    assert text == u + find + v;
    assert text == (u + x) + replace + (y + v);
    SplitAround(u + x, replace, y + v);
    NoOverlapParts(find, replace, x, y);
    LastPieceEnds(u, x, replace);
    FirstPieceStarts(y, v, replace);
    var i := |Split(u + x, replace)| - 1;
    assert pieces[i] == Split(u + x, replace)[i] && pieces[i + 1] == Split(y + v, replace)[0];
  }

  lemma {:induction false} ClosingReforms(pieces: seq<string>, find: string, replace: string, x: string,
                                          y: string, i: nat)
    requires find == x + replace + y && i < |pieces| - 1
    requires EndsWith(pieces[i], x) && StartsWith(pieces[i + 1], y)
    ensures Includes(Join(pieces, replace), find)
  {
    hide IndexOf, Includes;
    var rest := Join(pieces[1..], replace);
    var text := pieces[0] + replace + rest;
    if i == 0 {
      JoinStarts(pieces[1..], replace);
      var q := |pieces[0]| - |x|;
      assert pieces[0] == pieces[0][..q] + x;
      assert rest == y + rest[|y|..];
      assert text == pieces[0][..q] + find + rest[|y|..];
      assert text[q..q + |find|] == find;
      OccursIncluded(text, find, q);
    } else {
      ClosingReforms(pieces[1..], find, replace, x, y, i - 1);
      IncludesIff(rest, find);
      var j: nat :| OccursAt(rest, find, j);
      OccursInside(text, find, pieces[0] + replace, rest, "", j);
      OccursIncluded(text, find, |pieces[0] + replace| + j);
    }
  }

  lemma JoinStarts(pieces: seq<string>, s: string)
    requires pieces != []
    ensures StartsWith(Join(pieces, s), pieces[0])
  {
  }

  /** The exact condition for a deletion, in terms a caller can check on the text: the
      remainder occurs only inside the deleted sites, and no two neighbouring pieces
      close up into a new site. */
  lemma DeletionConverges(text: string, find: string, replace: string, x: string, y: string, expected: int)
    requires expected >= 1 && replace != "" && find != replace && Unbordered(replace)
    requires find == x + replace + y && !Includes(x, replace) && !Includes(y, replace)
    requires NoOverlap(find, replace) && NoOverlap(replace, find)
    requires ExactEditState(text, find, replace, expected) == Pending
    ensures ExactEditState(Apply(text, find, replace), find, replace, expected) == Applied
       <==> Lacks(Split(text, find), replace) && !ClosesUp(Split(text, find), x, y)
  {
    hide IndexOf, Unbordered, NoOverlap, Split, Join, ExactEditState, Lacks, ClosesUp;
    assert OccursAt(find, replace, |x|);
    OccursIncluded(find, replace, |x|);
    DeletionExact(text, find, replace, expected);
    if Lacks(Split(text, find), replace) {
      ReformsIffClosesUp(Split(text, find), find, replace, x, y);
    }
  }

  /** A remainder that also stands outside the deleted site keeps the edit from landing. */
  lemma DeletionLeavesRemainder()
    ensures ExactEditState("ab a", "ab", "a", 1) == Pending
    ensures ExactEditState(Apply("ab a", "ab", "a"), "ab", "a", 1) != Applied
  {
    hide Split, Join, IndexOf;
    ShortLacks(" a", "ab");
    IndexAtStart("ab a", "ab");
    SplitFound("ab a", "ab", 0);
    assert "ab a"[2..] == " a";
    SplitNone(" a", "ab");
    assert Split("ab a", "ab") == ["", " a"];
    IndexAtStart("ab", "a");
    ShortLacks("a", "ab");
    DeletionExact("ab a", "ab", "a", 1);
    assert OccursAt(" a", "a", 1);
    OccursIncluded(" a", "a", 1);
    assert ["", " a"][1] == " a";
  }

  lemma IndexAtStart(text: string, s: string)
    requires |s| <= |text| && text[..|s|] == s
    ensures IndexOf(text, s) == 0
  {
  }

  /** A text no longer than `s` contains `s` only by being it. */
  lemma ShortLacks(text: string, s: string)
    requires |text| <= |s| && text != s
    ensures IndexOf(text, s) == -1
  {
    IndexOfFirst(text, s);
  }

  /** A target form that overlaps itself can still be undone on every pending text. */
  lemma BorderedUndone(text: string, expected: int)
    requires expected >= 1 && ExactEditState(text, "a", "aa", expected) == Pending
    ensures !Unbordered("aa") && Apply(Apply(text, "a", "aa"), "aa", "a") == text
  {
    assert "aa"[..1] == "aa"[1..];
    var pieces := Split(text, "a");
    SplitLacks(text, "a");
    hide IndexOf, Split;
    forall i | 0 <= i < |pieces|
      ensures IndexOf(pieces[i] + "aa", "aa") == |pieces[i]| && !Includes(pieces[i], "aa")
    {
      assert !Includes(pieces[i], "a");
      FirstDouble(pieces[i]);
    }
    ApplyUndone(text, "a", "aa");
  }

  lemma FirstDouble(piece: string)
    requires !Includes(piece, "a")
    ensures IndexOf(piece + "aa", "aa") == |piece| && !Includes(piece, "aa")
  {
    hide IndexOf;
    var long := piece + "aa";
    IndexOfFirst(long, "aa");
    IndexOfFirst(piece, "aa");
    assert long[|piece|..|piece| + 2] == "aa";
    assert OccursAt(long, "aa", |piece|);
    forall j: nat | j < |piece| && j < |long|
      ensures long[j] != 'a'
    {
      if piece[j] == 'a' {
        assert piece[j..j + 1] == "a";
        OccursIncluded(piece, "a", j);
      }
    }
    forall j: nat | j < |piece|
      ensures !OccursAt(long, "aa", j) && !OccursAt(piece, "aa", j)
    {
      BeginsWithA(long, j);
      BeginsWithA(piece, j);
      assert long[j] == piece[j];
    }
  }

  lemma BeginsWithA(text: string, j: nat)
    ensures OccursAt(text, "aa", j) ==> text[j] == 'a'
  {
    if OccursAt(text, "aa", j) {
      assert text[j..j + 2][0] == 'a';
    }
  }

  /** An insertion whose target form overlaps itself need not be undone by the reverse edit. */
  lemma BorderedNotUndone()
    ensures !Unbordered("aa") && Apply(Apply("ab", "b", "aa"), "aa", "b") != "ab"
  {
    hide Split, IndexOf;
    assert "aa"[..1] == "aa"[1..];
    assert "ab"[0..1][0] == 'a' && "ab"[1..2] == "b";
    assert OccursAt("ab", "b", 1) && !OccursAt("ab", "b", 0);
    IndexOfFirst("ab", "b");
    SplitFound("ab", "b", 1);
    ShortLacks("", "b");
    SplitNone("", "b");
    assert "ab"[..1] == "a" && "ab"[2..] == "";
    assert Join(["a", ""], "aa") == "aaa";
    IndexAtStart("aaa", "aa");
    SplitFound("aaa", "aa", 0);
    ShortLacks("a", "aa");
    SplitNone("a", "aa");
    assert "aaa"[..0] == "" && "aaa"[2..] == "a";
    assert Join(["", "a"], "b") == "ba";
  }
}
