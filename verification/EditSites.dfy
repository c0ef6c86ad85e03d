/** What an exact edit counts: the copies of a form in a text, by where they stand. */
module EditSites {

  import opened ExactEdits

  /** Where the copies stand, from left to right: none overlaps the next, and whatever else
      occurs begins inside one of them. */
  ghost predicate Sites(text: string, s: string, at: seq<nat>) {
    && (forall i | 0 <= i < |at| :: OccursAt(text, s, at[i]))
    && (forall i, k | 0 <= i < k < |at| :: at[i] + |s| <= at[k])
    && forall j: nat | OccursAt(text, s, j) :: InSite(s, at, j)
  }

  ghost predicate InSite(s: string, at: seq<nat>, j: nat) {
    exists i | 0 <= i < |at| :: at[i] <= j < at[i] + |s|
  }

  /** The text has exactly `n` copies; the empty form stands between all characters. */
  ghost predicate Copies(text: string, s: string, n: int) {
    if s == "" then n == |text| - 1 else exists at :: Sites(text, s, at) && |at| == n
  }

  lemma OccursFurther(text: string, s: string, from: nat, j: nat)
    requires from <= |text|
    ensures OccursAt(text[from..], s, j) <==> OccursAt(text, s, from + j)
  {
    if from + j + |s| <= |text| {
      assert text[from..][j..j + |s|] == text[from + j..from + j + |s|];
    }
  }

  /** `at` is `i`, followed by the places of `rest` behind the copy there. */
  ghost predicate Follows(s: string, i: nat, at: seq<nat>, rest: seq<nat>) {
    && |at| == |rest| + 1 && at[0] == i
    && forall k | 0 <= k < |rest| :: at[k + 1] == i + |s| + rest[k]
  }

  lemma InSiteFurther(s: string, i: nat, at: seq<nat>, rest: seq<nat>, j: nat)
    requires Follows(s, i, at, rest)
    ensures InSite(s, at, i + |s| + j) <==> InSite(s, rest, j)
  {
    if InSite(s, at, i + |s| + j) {
      var k :| 0 <= k < |at| && at[k] <= i + |s| + j < at[k] + |s|;
      assert k > 0;
      assert rest[k - 1] <= j < rest[k - 1] + |s|;
    }
    if InSite(s, rest, j) {
      var k :| 0 <= k < |rest| && rest[k] <= j < rest[k] + |s|;
      assert at[k + 1] <= i + |s| + j < at[k + 1] + |s|;
    }
  }

  /** The sites of a text are its first occurrence and the sites behind it. */
  lemma SitesBehind(text: string, s: string, i: nat, at: seq<nat>, rest: seq<nat>)
    requires s != "" && OccursAt(text, s, i) && Follows(s, i, at, rest) && Sites(text, s, at)
    ensures Sites(text[i + |s|..], s, rest)
  {
    hide OccursAt, InSite;
    assert i + |s| <= |text| by {
      OccursFits(text, s, i);
    }
    var tail := text[i + |s|..];
    forall k | 0 <= k < |rest|
      ensures OccursAt(tail, s, rest[k])
    {
      assert OccursAt(text, s, at[k + 1]);
      OccursFurther(text, s, i + |s|, rest[k]);
    }
    forall k, m | 0 <= k < m < |rest|
      ensures rest[k] + |s| <= rest[m]
    {
      assert at[k + 1] + |s| <= at[m + 1];
    }
    forall j: nat | OccursAt(tail, s, j)
      ensures InSite(s, rest, j)
    {
      OccursFurther(text, s, i + |s|, j);
      InSiteFurther(s, i, at, rest, j);
    }
  }

  lemma OccursFits(text: string, s: string, i: nat)
    requires OccursAt(text, s, i)
    ensures i + |s| <= |text|
  {
  }

  lemma SitesBefore(text: string, s: string, i: nat, at: seq<nat>, rest: seq<nat>)
    requires s != "" && OccursAt(text, s, i) && (forall j: nat | OccursAt(text, s, j) :: i <= j)
    requires i + |s| <= |text| && Follows(s, i, at, rest) && Sites(text[i + |s|..], s, rest)
    ensures Sites(text, s, at)
  {
    hide OccursAt, InSite;
    var tail := text[i + |s|..];
    forall k | 0 <= k < |at|
      ensures OccursAt(text, s, at[k])
    {
      if k > 0 {
        assert OccursAt(tail, s, rest[k - 1]);
        OccursFurther(text, s, i + |s|, rest[k - 1]);
      }
    }
    forall k, m | 0 <= k < m < |at|
      ensures at[k] + |s| <= at[m]
    {
      if k > 0 {
        assert rest[k - 1] + |s| <= rest[m - 1];
      }
      assert at[m] == i + |s| + rest[m - 1];
    }
    forall j: nat | OccursAt(text, s, j)
      ensures InSite(s, at, j)
    {
      if j < i + |s| {
        InFirst(s, at, j);
      } else {
        OccursFurther(text, s, i + |s|, j - i - |s|);
        InSiteFurther(s, i, at, rest, j - i - |s|);
      }
    }
  }

  lemma InFirst(s: string, at: seq<nat>, j: nat)
    requires at != [] && at[0] <= j < at[0] + |s|
    ensures InSite(s, at, j)
  {
  }

  lemma {:induction false} SitesExist(text: string, s: string) returns (at: seq<nat>)
    requires s != ""
    ensures Sites(text, s, at)
    decreases |text|
  {
    IndexOfFirst(text, s);
    var i := IndexOf(text, s);
    hide IndexOf;
    if i >= 0 {
      hide Sites, OccursAt;
      var rest := SitesExist(text[i + |s|..], s);
      at := [i] + seq(|rest|, k requires 0 <= k < |rest| => i + |s| + rest[k]);
      SitesBefore(text, s, i, at, rest);
    } else {
      at := [];
    }
  }

  /** The first occurrence is the first site. */
  lemma FirstSite(text: string, s: string, i: nat, at: seq<nat>)
    requires s != "" && OccursAt(text, s, i) && (forall j: nat | OccursAt(text, s, j) :: i <= j) && Sites(text, s, at)
    ensures at != [] && at[0] == i
    ensures forall k | 1 <= k < |at| :: at[k] >= i + |s|
  {
    hide OccursAt;
    assert InSite(s, at, i);
    var k :| 0 <= k < |at| && at[k] <= i < at[k] + |s|;
    assert OccursAt(text, s, at[k]) && OccursAt(text, s, at[0]);
    assert forall m | 0 < m < |at| :: at[0] + |s| <= at[m];
  }

  lemma SiteOccurs(text: string, s: string, at: seq<nat>)
    requires Sites(text, s, at) && at != []
    ensures exists j: nat :: OccursAt(text, s, j)
  {
    hide OccursAt;
    assert OccursAt(text, s, at[0]);
  }

  /** `split` counts the sites. */
  lemma {:induction false} SitesCounted(text: string, s: string, at: seq<nat>)
    requires s != "" && Sites(text, s, at)
    ensures Count(text, s) == |at|
    decreases |text|
  {
    hide IndexOf, Split, OccursAt, InSite;
    if at != [] {
      SiteOccurs(text, s, at);
    }
    IndexOfFirst(text, s);
    var i := IndexOf(text, s);
    if i == -1 {
      SplitNone(text, s);
    } else {
      FirstSite(text, s, i, at);
      hide Sites;
      var rest := seq(|at| - 1, k requires 0 <= k < |at| - 1 => (at[k + 1] - i - |s|) as nat);
      SitesBehind(text, s, i, at, rest);
      SplitFound(text, s, i);
      SitesCounted(text[i + |s|..], s, rest);
    }
  }

  /** The empty separator splits off every character. */
  lemma {:induction false} EverySingle(text: string)
    ensures |Split(text, "")| == |text| && forall i | 0 <= i < |text| :: Split(text, "")[i] == [text[i]]
  {
    if text != "" {
      EverySingle(text[1..]);
    }
  }

  lemma CountIs(text: string, s: string, n: int)
    ensures Count(text, s) == n <==> Copies(text, s, n)
  {
    hide Split, Sites;
    if s == "" {
      EverySingle(text);
    } else {
      var at := SitesExist(text, s);
      SitesCounted(text, s, at);
      if Copies(text, s, n) {
        var other :| Sites(text, s, other) && |other| == n;
        SitesCounted(text, s, other);
      }
    }
  }

  ghost predicate Within(part: string, whole: string) {
    exists i: nat :: OccursAt(whole, part, i)
  }

  /** An edit is pending exactly if the text has the expected number of copies of the source form
      and, unless the edit deletes, none of the target form; it is applied exactly if the text has
      that number of the target form and, unless the edit inserts, none of the source form. */
  lemma StateIff(text: string, find: string, replace: string, expected: int)
    ensures ExactEditState(text, find, replace, expected) == Pending <==>
      && expected != 0 && Copies(text, find, expected)
      && (Copies(text, replace, 0) || (Within(replace, find) && !Within(find, replace)))
    ensures ExactEditState(text, find, replace, expected) == Applied <==>
      && Copies(text, replace, expected)
      && (Copies(text, find, 0) || Within(find, replace))
  {
    hide Copies, Count, Includes;
    CountIs(text, find, expected);
    CountIs(text, find, 0);
    CountIs(text, replace, expected);
    CountIs(text, replace, 0);
    IncludesIff(find, replace);
    IncludesIff(replace, find);
  }
}
