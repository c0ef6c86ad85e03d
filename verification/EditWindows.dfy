/** Conditions on the texts around the sites of several edits that make the edits fit at every
    stage, and the layout of a tree on which all of them are pending. */
module EditWindows {

  import opened ExactEdits
  import opened EditRuns
  import opened EditLayouts

  // ------------------------------------------------------------------ windows and crossings

  /** In the text around a site, `form` meets the site only as allowed: not at all at a foreign site;
      at an own site from its start on, or anywhere if the site's form contains it. */
  ghost predicate Keeps(form: string, own: bool, lead: string, site: string, follow: string) {
    forall q: nat | OccursAt(lead + site + follow, form, q) && q < |lead| + |site| && q + |form| > |lead| ::
      own && if form == site then q >= |lead| else Includes(site, form)
  }

  predicate EndsAlike(a: string, b: string) {
    EndsWith(a, b) || EndsWith(b, a)
  }

  predicate StartsAlike(a: string, b: string) {
    StartsWith(a, b) || StartsWith(b, a)
  }

  /** `form` can be laid over the gap so that it agrees with it and with the sites on both sides. */
  ghost predicate Crosses(form: string, left: string, gap: string, right: string) {
    exists m: nat :: LaidOver(form, left, gap, right, m)
  }

  predicate LaidOver(form: string, left: string, gap: string, right: string, m: nat) {
    && 1 <= m && m + |gap| < |form| && form[m..m + |gap|] == gap
    && EndsAlike(form[..m], left) && StartsAlike(form[m + |gap|..], right)
  }

  ghost predicate Tidy(gaps: seq<string>, sites: seq<string>, own: seq<bool>, form: string)
    requires |gaps| == |sites| + 1 && |own| == |sites|
  {
    && (forall i | 0 <= i < |gaps| :: !Includes(gaps[i], form))
    && (forall i | 0 <= i < |sites| :: sites[i] != "" && Keeps(form, own[i], gaps[i], sites[i], gaps[i + 1]))
    && (forall i | 0 < i < |sites| :: !Crosses(form, sites[i - 1], gaps[i], sites[i]))
  }

  /** The occurrence at `q` meets an own site as allowed. */
  ghost predicate Placed(gaps: seq<string>, sites: seq<string>, own: seq<bool>, form: string, q: int)
    requires |gaps| == |sites| + 1 && |own| == |sites|
  {
    if sites == [] then false
    else if q < |gaps[0]| + |sites[0]| then
      own[0] && if form == sites[0] then q >= |gaps[0]| else Includes(sites[0], form)
    else Placed(gaps[1..], sites[1..], own[1..], form, q - |gaps[0]| - |sites[0]|)
  }

  lemma OccursSlice(text: string, u: string, part: string, v: string, s: string, q: nat)
    requires text == u + part + v && OccursAt(text, s, q) && |u| <= q && q + |s| <= |u| + |part|
    ensures OccursAt(part, s, q - |u|)
  {
    assert text[|u|..|u| + |part|] == part;
    assert text[q..q + |s|] == text[|u|..|u| + |part|][q - |u|..q - |u| + |s|];
  }

  /** An occurrence that begins in or before one site and ends in or behind the next one lies over
      the gap between them. */
  lemma OverGap(lead: string, left: string, gap: string, right: string, rest: string, form: string, q: nat)
    requires OccursAt(lead + left + gap + right + rest, form, q) && left != "" && right != ""
    requires q < |lead| + |left| && q + |form| > |lead| + |left| + |gap|
    ensures Crosses(form, left, gap, right)
  {
    var text := lead + left + gap + right + rest;
    var m := |lead| + |left| - q;
    forall j | 0 <= j < |form|
      ensures form[j] == text[q + j]
    {
      assert text[q..q + |form|][j] == text[q + j];
    }
    OverGapParts(lead, left, gap, right, rest, form, q, m);
    assert LaidOver(form, left, gap, right, m);
  }

  lemma OverGapParts(lead: string, left: string, gap: string, right: string, rest: string, form: string,
                     q: nat, m: nat)
    requires left != "" && right != "" && q + m == |lead| + |left| && 1 <= m && m + |gap| < |form|
    requires q + |form| <= |lead + left + gap + right + rest|
    requires forall j | 0 <= j < |form| :: form[j] == (lead + left + gap + right + rest)[q + j]
    ensures form[m..m + |gap|] == gap
    ensures EndsAlike(form[..m], left) && StartsAlike(form[m + |gap|..], right)
  {
    var text := lead + left + gap + right + rest;
    var a, b := form[..m], form[m + |gap|..];
    if m <= |left| {
      assert left[|left| - m..] == a;
    } else {
      assert a[m - |left|..] == left;
    }
    if |b| <= |right| {
      assert right[..|b|] == b;
    } else {
      assert b[..|right|] == right;
    }
  }

  lemma TidyRest(gaps: seq<string>, sites: seq<string>, own: seq<bool>, form: string)
    requires |gaps| == |sites| + 1 && |own| == |sites| && sites != [] && Tidy(gaps, sites, own, form)
    ensures Tidy(gaps[1..], sites[1..], own[1..], form)
  {
    hide Includes, Keeps, Crosses;
    var g, s, o := gaps[1..], sites[1..], own[1..];
    forall i | 0 <= i < |s|
      ensures s[i] != "" && Keeps(form, o[i], g[i], s[i], g[i + 1])
    {
      assert g[i] == gaps[i + 1] && s[i] == sites[i + 1] && g[i + 1] == gaps[i + 2] && o[i] == own[i + 1];
    }
    forall i | 0 < i < |s|
      ensures !Crosses(form, s[i - 1], g[i], s[i])
    {
      assert g[i] == gaps[i + 1] && s[i] == sites[i + 1] && s[i - 1] == sites[i];
    }
  }

  /** In a tidy text every occurrence is placed. */
  lemma {:induction false} TidyPlaced(gaps: seq<string>, sites: seq<string>, own: seq<bool>, form: string, q: nat)
    requires |gaps| == |sites| + 1 && |own| == |sites| && Tidy(gaps, sites, own, form)
    requires OccursAt(Weave(gaps, sites), form, q)
    ensures Placed(gaps, sites, own, form, q)
    decreases |sites|
  {
    hide Includes, Keeps, Crosses, OccursAt;
    var text := Weave(gaps, sites);
    if sites == [] {
      assert gaps[0] == text;
      OccursIncluded(text, form, q);
    } else {
      var rest := Weave(gaps[1..], sites[1..]);
      if q >= |gaps[0]| + |sites[0]| {
        TidyRest(gaps, sites, own, form);
        OccursBounds(text, form, q);
        assert text == (gaps[0] + sites[0]) + rest + "";
        OccursSlice(text, gaps[0] + sites[0], rest, "", form, q);
        TidyPlaced(gaps[1..], sites[1..], own[1..], form, q - |gaps[0]| - |sites[0]|);
      } else if q + |form| <= |gaps[0]| {
        assert text == "" + gaps[0] + (sites[0] + rest);
        OccursSlice(text, "", gaps[0], sites[0] + rest, form, q);
        OccursIncluded(gaps[0], form, q);
      } else {
        TidyFirst(gaps, sites, own, form, q);
      }
    }
  }

  lemma OccursBounds(text: string, s: string, q: nat)
    requires OccursAt(text, s, q)
    ensures q + |s| <= |text|
  {
  }

  lemma WeaveSecond(gaps: seq<string>, sites: seq<string>) returns (rest: string)
    requires |gaps| == |sites| + 1 && |sites| > 1
    ensures Weave(gaps, sites) == gaps[0] + sites[0] + gaps[1] + sites[1] + rest
    ensures Weave(gaps, sites) == "" + (gaps[0] + sites[0] + gaps[1]) + (sites[1] + rest)
  {
    rest := Weave(gaps[2..], sites[2..]);
    assert gaps[1..][1..] == gaps[2..] && sites[1..][1..] == sites[2..];
  }

  /** The occurrence meets the first site. */
  lemma TidyFirst(gaps: seq<string>, sites: seq<string>, own: seq<bool>, form: string, q: nat)
    requires |gaps| == |sites| + 1 && |own| == |sites| && sites != [] && Tidy(gaps, sites, own, form)
    requires OccursAt(Weave(gaps, sites), form, q)
    requires q < |gaps[0]| + |sites[0]| && q + |form| > |gaps[0]|
    ensures own[0] && if form == sites[0] then q >= |gaps[0]| else Includes(sites[0], form)
  {
    hide Includes, Crosses, OccursAt;
    var text := Weave(gaps, sites);
    assert Keeps(form, own[0], gaps[0], sites[0], gaps[1]);
    var window := gaps[0] + sites[0] + gaps[1];
    if |sites| == 1 {
      assert text == window;
    } else {
      var rest := WeaveSecond(gaps, sites);
      if q + |form| > |window| {
        assert !Crosses(form, sites[1 - 1], gaps[1], sites[1]);
        OverGap(gaps[0], sites[0], gaps[1], sites[1], rest, form, q);
      } else {
        OccursSlice(text, "", window, sites[1] + rest, form, q);
      }
    }
  }

  // ----------------------------------------------------------------------- aligned pieces

  /** Every occurrence starts in an own site. */
  ghost predicate Anchored(gaps: seq<string>, sites: seq<string>, own: seq<bool>, form: string)
    requires |gaps| == |sites| + 1 && |own| == |sites|
  {
    forall q: nat | OccursAt(Weave(gaps, sites), form, q) :: AtOwn(gaps, sites, own, q)
  }

  predicate AtOwn(gaps: seq<string>, sites: seq<string>, own: seq<bool>, q: int)
    requires |gaps| == |sites| + 1 && |own| == |sites|
  {
    if sites == [] || q < |gaps[0]| then false
    else if q < |gaps[0]| + |sites[0]| then own[0]
    else AtOwn(gaps[1..], sites[1..], own[1..], q - |gaps[0]| - |sites[0]|)
  }

  lemma {:induction false} PlacedAtOwn(gaps: seq<string>, sites: seq<string>, own: seq<bool>, form: string, q: int)
    requires |gaps| == |sites| + 1 && |own| == |sites| && Placed(gaps, sites, own, form, q)
    requires forall i | 0 <= i < |sites| && own[i] :: sites[i] == form
    ensures AtOwn(gaps, sites, own, q)
    decreases |sites|
  {
    hide Includes;
    if q >= |gaps[0]| + |sites[0]| {
      PlacedAtOwn(gaps[1..], sites[1..], own[1..], form, q - |gaps[0]| - |sites[0]|);
    }
  }

  lemma {:induction false} PlacedNowhere(gaps: seq<string>, sites: seq<string>, own: seq<bool>, here: string,
                                         form: string, q: int)
    requires |gaps| == |sites| + 1 && |own| == |sites| && form != here && !Includes(here, form)
    requires forall i | 0 <= i < |sites| && own[i] :: sites[i] == here
    ensures !Placed(gaps, sites, own, form, q)
    decreases |sites|
  {
    hide Includes;
    if sites != [] && q >= |gaps[0]| + |sites[0]| {
      PlacedNowhere(gaps[1..], sites[1..], own[1..], here, form, q - |gaps[0]| - |sites[0]|);
    }
  }

  /** A foreign first site is part of the gap. */
  function Merged(gaps: seq<string>, sites: seq<string>): (merged: seq<string>)
    requires |gaps| == |sites| + 1 && sites != []
    ensures |merged| == |sites|
  {
    [gaps[0] + sites[0] + gaps[1]] + gaps[2..]
  }

  lemma MergedWeave(gaps: seq<string>, sites: seq<string>)
    requires |gaps| == |sites| + 1 && sites != []
    ensures Weave(Merged(gaps, sites), sites[1..]) == Weave(gaps, sites)
  {
    WeaveGrown(gaps[0] + sites[0], gaps[1..], sites[1..]);
    assert gaps[1..][1..] == gaps[2..];
  }

  lemma WeaveGrown(lead: string, gaps: seq<string>, sites: seq<string>)
    requires |gaps| == |sites| + 1
    ensures Weave([lead + gaps[0]] + gaps[1..], sites) == lead + Weave(gaps, sites)
  {
    var grown := [lead + gaps[0]] + gaps[1..];
    assert grown[1..] == gaps[1..];
    if sites != [] {
      var rest := Weave(gaps[1..], sites[1..]);
      assert lead + gaps[0] + sites[0] + rest == lead + (gaps[0] + sites[0] + rest);
    }
  }

  lemma MergedCut(gaps: seq<string>, sites: seq<string>, own: seq<bool>)
    requires |gaps| == |sites| + 1 && |own| == |sites| && sites != [] && !own[0]
    ensures Cut(Merged(gaps, sites), sites[1..], own[1..]) == Cut(gaps, sites, own)
  {
    CutGrown(gaps[0] + sites[0], gaps[1..], sites[1..], own[1..]);
    assert gaps[1..][1..] == gaps[2..];
  }

  lemma CutGrown(lead: string, gaps: seq<string>, sites: seq<string>, own: seq<bool>)
    requires |gaps| == |sites| + 1 && |own| == |sites|
    ensures var pieces := Cut(gaps, sites, own);
      Cut([lead + gaps[0]] + gaps[1..], sites, own) == [lead + pieces[0]] + pieces[1..]
  {
    var grown := [lead + gaps[0]] + gaps[1..];
    assert grown[1..] == gaps[1..];
    if sites == [] {
      assert grown == [lead + gaps[0]];
    } else {
      CutFirst(gaps, sites, own);
      CutFirst(grown, sites, own);
      hide Cut;
      var rest := Cut(gaps[1..], sites[1..], own[1..]);
      assert ([gaps[0]] + rest)[1..] == rest;
      if !own[0] {
        assert lead + gaps[0] + sites[0] + rest[0] == lead + (gaps[0] + sites[0] + rest[0]);
      }
    }
  }

  lemma CutFirst(gaps: seq<string>, sites: seq<string>, own: seq<bool>)
    requires |gaps| == |sites| + 1 && |own| == |sites| && sites != []
    ensures var rest := Cut(gaps[1..], sites[1..], own[1..]);
      Cut(gaps, sites, own) == if own[0] then [gaps[0]] + rest else [gaps[0] + sites[0] + rest[0]] + rest[1..]
  {
  }

  lemma MergedAtOwn(gaps: seq<string>, sites: seq<string>, own: seq<bool>, q: int)
    requires |gaps| == |sites| + 1 && |own| == |sites| && sites != [] && !own[0]
    ensures AtOwn(Merged(gaps, sites), sites[1..], own[1..], q) == AtOwn(gaps, sites, own, q)
  {
    assert Merged(gaps, sites)[1..] == gaps[2..] == gaps[1..][1..];
  }

  lemma {:induction false} AnchoredAligned(gaps: seq<string>, sites: seq<string>, own: seq<bool>, form: string)
    requires |gaps| == |sites| + 1 && |own| == |sites| && form != "" && Anchored(gaps, sites, own, form)
    requires forall i | 0 <= i < |sites| && own[i] :: sites[i] == form
    ensures Aligned(Cut(gaps, sites, own), form)
    decreases |sites|
  {
    hide IndexOf, OccursAt;
    var text := Weave(gaps, sites);
    if sites == [] {
      IncludesIff(text, form);
    } else if own[0] {
      var rest := Weave(gaps[1..], sites[1..]);
      AnchoredRest(gaps, sites, own, form);
      AnchoredAligned(gaps[1..], sites[1..], own[1..], form);
      FirstBefore(gaps[0], form, rest);
      IndexOfFirst(text, form);
      AlignedFirst([gaps[0]] + Cut(gaps[1..], sites[1..], own[1..]), form);
      assert ([gaps[0]] + Cut(gaps[1..], sites[1..], own[1..]))[1..] == Cut(gaps[1..], sites[1..], own[1..]);
    } else {
      MergedWeave(gaps, sites);
      MergedCut(gaps, sites, own);
      forall q: nat | OccursAt(text, form, q)
        ensures AtOwn(Merged(gaps, sites), sites[1..], own[1..], q)
      {
        MergedAtOwn(gaps, sites, own, q);
      }
      AnchoredAligned(Merged(gaps, sites), sites[1..], own[1..], form);
    }
  }

  lemma AnchoredRest(gaps: seq<string>, sites: seq<string>, own: seq<bool>, form: string)
    requires |gaps| == |sites| + 1 && |own| == |sites| && sites != [] && Anchored(gaps, sites, own, form)
    ensures Anchored(gaps[1..], sites[1..], own[1..], form)
  {
    hide OccursAt;
    var lead, rest := gaps[0] + sites[0], Weave(gaps[1..], sites[1..]);
    forall q: nat | OccursAt(rest, form, q)
      ensures AtOwn(gaps[1..], sites[1..], own[1..], q)
    {
      assert Weave(gaps, sites) == lead + rest + "";
      OccursInside(Weave(gaps, sites), form, lead, rest, "", q);
      assert AtOwn(gaps, sites, own, |lead| + q);
    }
  }

  // -------------------------------------------------------------------- windows are enough

  /** Around the sites of a file, at each of their two forms: no form of an edit stands in a gap,
      meets a foreign site, starts before an own one, or crosses a gap. */
  ghost predicate Local(edits: seq<Edit>, l: Layout, form: string, k: nat)
    requires Marked(edits, l)
  {
    && (forall i | 0 <= i < |l.gaps| :: !Includes(l.gaps[i], form))
    && (forall i, b | 0 <= i < |l.marks| ::
          Keeps(form, l.marks[i] == k, l.gaps[i], Form(edits[l.marks[i]], b), l.gaps[i + 1]))
    && (forall i, a, b | 0 < i < |l.marks| :: !CrossesAt(edits, l, form, i, a, b))
  }

  /** At gap `i`, with the sites beside it in the forms `a` and `b`. */
  ghost predicate CrossesAt(edits: seq<Edit>, l: Layout, form: string, i: nat, a: bool, b: bool)
    requires Marked(edits, l) && 0 < i < |l.marks|
  {
    Crosses(form, Form(edits[l.marks[i - 1]], a), l.gaps[i], Form(edits[l.marks[i]], b))
  }

  /** Checked once on the text around each site, with no stage in between. */
  ghost predicate AllLocal(edits: seq<Edit>, layouts: Layouts)
    requires Laid(edits, layouts)
  {
    forall k: nat, b: bool | k < |edits| :: Local(edits, layouts[edits[k].file], Form(edits[k], b), k)
  }

  lemma LocalTidy(edits: seq<Edit>, l: Layout, c: Stage, k: nat, form: string)
    requires Marked(edits, l) && k < |edits| == |c| && Local(edits, l, form, k)
    requires forall i | 0 <= i < |l.marks| :: Proper(edits[l.marks[i]])
    ensures Tidy(l.gaps, Sites(edits, l, c), Own(l, k), form)
  {
    hide Includes, Keeps, Crosses, Form;
    var sites := Sites(edits, l, c);
    forall i | 0 <= i < |sites|
      ensures sites[i] != "" && Keeps(form, Own(l, k)[i], l.gaps[i], sites[i], l.gaps[i + 1])
    {
      FormNonEmpty(edits[l.marks[i]], c[l.marks[i]]);
    }
    forall i | 0 < i < |sites|
      ensures !Crosses(form, sites[i - 1], l.gaps[i], sites[i])
    {
      assert !CrossesAt(edits, l, form, i, c[l.marks[i - 1]], c[l.marks[i]]);
    }
  }

  lemma FormNonEmpty(edit: Edit, applied: bool)
    requires Proper(edit)
    ensures Form(edit, applied) != ""
  {
  }

  lemma LocalFits(edits: seq<Edit>, l: Layout, c: Stage, k: nat)
    requires Marked(edits, l) && k < |edits| == |c| && Proper(edits[k])
    requires forall i | 0 <= i < |l.marks| :: Proper(edits[l.marks[i]])
    requires Local(edits, l, Form(edits[k], c[k]), k) && Local(edits, l, Form(edits[k], !c[k]), k)
    ensures Fits(edits, l, c, k)
  {
    hide Includes, OccursAt, Tidy, Local, Placed, Aligned, AtOwn;
    var here, there := Form(edits[k], c[k]), Form(edits[k], !c[k]);
    var gaps, sites, own := l.gaps, Sites(edits, l, c), Own(l, k);
    LocalTidy(edits, l, c, k, here);
    LocalTidy(edits, l, c, k, there);
    forall q: nat | OccursAt(Weave(gaps, sites), here, q)
      ensures AtOwn(gaps, sites, own, q)
    {
      TidyPlaced(gaps, sites, own, here, q);
      PlacedAtOwn(gaps, sites, own, here, q);
    }
    AnchoredAligned(gaps, sites, own, here);
    if !Includes(here, there) && Includes(Weave(gaps, sites), there) {
      IncludesIff(Weave(gaps, sites), there);
      var q: nat :| OccursAt(Weave(gaps, sites), there, q);
      TidyPlaced(gaps, sites, own, there, q);
      PlacedNowhere(gaps, sites, own, here, there, q);
    }
  }

  /** What is checked around the sites holds at every stage. */
  lemma LocalSound(edits: seq<Edit>, layouts: Layouts)
    requires Laid(edits, layouts) && AllLocal(edits, layouts)
    ensures Sound(edits, layouts)
  {
    hide Local, Fits, Trues;
    forall c: Stage, k: nat | |c| == |edits| && k < |edits|
      ensures Fits(edits, layouts[edits[k].file], c, k)
    {
      var l := layouts[edits[k].file];
      assert Counted(edits, l, k);
      forall i | 0 <= i < |l.marks|
        ensures Proper(edits[l.marks[i]])
      {
        assert Counted(edits, layouts[edits[l.marks[i]].file], l.marks[i]);
      }
      LocalFits(edits, l, c, k);
    }
  }

  // --------------------------------------------------------- the layout of a pending tree

  /** Cuts every gap at the sites of one more edit. */
  function Refine(l: Layout, find: string, k: nat): (r: Layout)
    requires |l.gaps| == |l.marks| + 1 && find != ""
    ensures |r.gaps| == |r.marks| + 1
    ensures forall i | 0 <= i < |r.marks| :: r.marks[i] == k || r.marks[i] in l.marks
    decreases |l.marks|
  {
    var pieces := Split(l.gaps[0], find);
    var marks := seq(|pieces| - 1, _ => k);
    if l.marks == [] then Layout(pieces, marks)
    else
      var rest := Refine(Layout(l.gaps[1..], l.marks[1..]), find, k);
      Layout(pieces + rest.gaps, marks + [l.marks[0]] + rest.marks)
  }

  /** The sites of the edits of one file in its text. */
  function LayoutUpTo(text: string, edits: seq<Edit>, file: string, n: nat): (l: Layout)
    requires n <= |edits| && forall k | 0 <= k < |edits| :: edits[k].find != ""
    ensures |l.gaps| == |l.marks| + 1
    ensures forall i | 0 <= i < |l.marks| :: l.marks[i] < n && edits[l.marks[i]].file == file
  {
    if n == 0 then Layout([text], [])
    else
      var l := LayoutUpTo(text, edits, file, n - 1);
      if edits[n - 1].file == file then Refine(l, edits[n - 1].find, n - 1) else l
  }

  function Finds(edits: seq<Edit>, marks: seq<nat>): (sites: seq<string>)
    requires forall i | 0 <= i < |marks| :: marks[i] < |edits|
    ensures |sites| == |marks| && forall i | 0 <= i < |marks| :: sites[i] == edits[marks[i]].find
  {
    seq(|marks|, i requires 0 <= i < |marks| => edits[marks[i]].find)
  }

  lemma {:induction false} WeaveJoined(pieces: seq<string>, s: string, finds: seq<string>)
    requires |pieces| == |finds| + 1 && forall i | 0 <= i < |finds| :: finds[i] == s
    ensures Weave(pieces, finds) == Join(pieces, s)
    decreases |pieces|
  {
    if finds != [] {
      WeaveJoined(pieces[1..], s, finds[1..]);
    }
  }

  lemma {:induction false} WeaveAppend(a: seq<string>, finds: seq<string>, site: string, b: seq<string>,
                                       sites: seq<string>)
    requires |a| == |finds| + 1 && |b| == |sites| + 1
    ensures Weave(a + b, finds + [site] + sites) == Weave(a, finds) + site + Weave(b, sites)
    decreases |a|
  {
    var gaps, all := a + b, finds + [site] + sites;
    if finds == [] {
      assert gaps[1..] == b && all[1..] == sites;
    } else {
      WeaveAppend(a[1..], finds[1..], site, b, sites);
      assert gaps[1..] == a[1..] + b && all[1..] == finds[1..] + [site] + sites;
      var x, y := Weave(a[1..], finds[1..]), Weave(b, sites);
      assert a[0] + finds[0] + (x + site + y) == a[0] + finds[0] + x + site + y;
    }
  }

  ghost predicate Ranged(marks: seq<nat>, n: nat) {
    forall i | 0 <= i < |marks| :: marks[i] < n
  }

  lemma FindsAppend(edits: seq<Edit>, a: seq<nat>, b: seq<nat>)
    requires Ranged(a, |edits|) && Ranged(b, |edits|)
    ensures Ranged(a + b, |edits|) && Finds(edits, a + b) == Finds(edits, a) + Finds(edits, b)
  {
  }

  lemma FindsOne(edits: seq<Edit>, marks: seq<nat>)
    requires marks != [] && Ranged(marks, |edits|)
    ensures Ranged(marks[1..], |edits|) && Finds(edits, marks) == [edits[marks[0]].find] + Finds(edits, marks[1..])
  {
  }

  lemma RefineRest(l: Layout, find: string, k: nat, pieces: seq<string>, marks: seq<nat>)
    requires |l.gaps| == |l.marks| + 1 && find != "" && l.marks != []
    requires pieces == Split(l.gaps[0], find) && marks == seq(|pieces| - 1, _ => k)
    ensures var rest := Refine(Layout(l.gaps[1..], l.marks[1..]), find, k);
      Refine(l, find, k) == Layout(pieces + rest.gaps, marks + [l.marks[0]] + rest.marks)
  {
    hide Split;
  }

  lemma RefineRanged(l: Layout, find: string, k: nat, n: nat)
    requires |l.gaps| == |l.marks| + 1 && find != "" && k < n && Ranged(l.marks, n)
    ensures Ranged(Refine(l, find, k).marks, n)
  {
    hide Refine;
  }

  lemma {:induction false} RefineWeave(edits: seq<Edit>, l: Layout, k: nat)
    requires |l.gaps| == |l.marks| + 1 && k < |edits| && edits[k].find != "" && Ranged(l.marks, |edits|)
    ensures var r := Refine(l, edits[k].find, k);
      Ranged(r.marks, |edits|) && Weave(r.gaps, Finds(edits, r.marks)) == Weave(l.gaps, Finds(edits, l.marks))
    decreases |l.marks|
  {
    var find := edits[k].find;
    var pieces := Split(l.gaps[0], find);
    var marks := seq(|pieces| - 1, _ => k);
    JoinSplit(l.gaps[0], find);
    WeaveJoined(pieces, find, Finds(edits, marks));
    RefineRanged(l, find, k, |edits|);
    hide Split, Join;
    if l.marks == [] {
      assert Refine(l, find, k) == Layout(pieces, marks);
    } else {
      var tail := Layout(l.gaps[1..], l.marks[1..]);
      FindsOne(edits, l.marks);
      RefineRest(l, find, k, pieces, marks);
      hide Refine;
      RefineWeave(edits, tail, k);
      RefineJoined(edits, l, pieces, marks, Refine(tail, find, k));
    }
  }

  lemma RefineJoined(edits: seq<Edit>, l: Layout, pieces: seq<string>, marks: seq<nat>, rest: Layout)
    requires |l.gaps| == |l.marks| + 1 && l.marks != [] && Ranged(l.marks, |edits|)
    requires |pieces| == |marks| + 1 && |rest.gaps| == |rest.marks| + 1
    requires Ranged(marks, |edits|) && Ranged(rest.marks, |edits|)
    requires Weave(pieces, Finds(edits, marks)) == l.gaps[0]
    requires Weave(rest.gaps, Finds(edits, rest.marks)) == Weave(l.gaps[1..], Finds(edits, l.marks)[1..])
    ensures var all := marks + [l.marks[0]] + rest.marks;
      Ranged(all, |edits|) && Weave(pieces + rest.gaps, Finds(edits, all)) == Weave(l.gaps, Finds(edits, l.marks))
  {
    var site := [l.marks[0]];
    FindsAppend(edits, marks, site);
    FindsAppend(edits, marks + site, rest.marks);
    assert Finds(edits, site) == [edits[l.marks[0]].find];
    WeaveAppend(pieces, Finds(edits, marks), edits[l.marks[0]].find, rest.gaps, Finds(edits, rest.marks));
  }

  lemma {:induction false} LayoutWeave(text: string, edits: seq<Edit>, file: string, n: nat)
    requires n <= |edits| && forall k | 0 <= k < |edits| :: edits[k].find != ""
    ensures var l := LayoutUpTo(text, edits, file, n); Weave(l.gaps, Finds(edits, l.marks)) == text
    decreases n
  {
    hide Refine;
    if n > 0 {
      LayoutWeave(text, edits, file, n - 1);
      if edits[n - 1].file == file {
        RefineWeave(edits, LayoutUpTo(text, edits, file, n - 1), n - 1);
      }
    }
  }

  /** Where the source forms of the edits stand in the files of the tree. */
  ghost function LayoutsOf(tree: Tree, edits: seq<Edit>): Layouts
    requires forall k | 0 <= k < |edits| :: edits[k].find != ""
  {
    map file | file in tree && exists k :: 0 <= k < |edits| && edits[k].file == file ::
      LayoutUpTo(tree[file], edits, file, |edits|)
  }

  lemma LayoutText(text: string, edits: seq<Edit>, file: string)
    requires forall k | 0 <= k < |edits| :: edits[k].find != ""
    ensures var l := LayoutUpTo(text, edits, file, |edits|);
      Marked(edits, l) && Text(edits, l, Everywhere(|edits|, false)) == text
  {
    hide LayoutUpTo, Weave;
    var l := LayoutUpTo(text, edits, file, |edits|);
    LayoutWeave(text, edits, file, |edits|);
    assert Sites(edits, l, Everywhere(|edits|, false)) == Finds(edits, l.marks);
  }

  /** The tree is the stage of its own layout at which nothing is applied. */
  lemma LayoutsPending(tree: Tree, edits: seq<Edit>)
    requires forall k | 0 <= k < |edits| :: edits[k].find != ""
    requires Laid(edits, LayoutsOf(tree, edits))
    ensures TreeAt(tree, edits, LayoutsOf(tree, edits), Everywhere(|edits|, false)) == tree
  {
    hide Text, LayoutUpTo, Counted, Marked;
    var layouts, none := LayoutsOf(tree, edits), Everywhere(|edits|, false);
    forall file | file in layouts
      ensures Text(edits, layouts[file], none) == tree[file]
    {
      LayoutText(tree[file], edits, file);
    }
    hide Laid;
  }

  ghost predicate AllLanded(tree: Tree, edits: seq<Edit>, reverse: bool) {
    forall k | 0 <= k < |edits| :: Landed(tree, edits[k], reverse)
  }

  ghost predicate AllClean(tree: Tree, edits: seq<Edit>, reverse: bool) {
    forall k | 0 <= k < |edits| :: Clean(tree, edits[k], reverse)
  }

  /** A tree with the sites of all edits in place and the texts around them as required: the run is
      accepted and lands every edit, a second run changes nothing, and the reverse run is accepted
      and restores the tree. */
  lemma TreeRoundTrip(tree: Tree, edits: seq<Edit>)
    requires forall k | 0 <= k < |edits| :: edits[k].find != ""
    requires Laid(edits, LayoutsOf(tree, edits)) && AllLocal(edits, LayoutsOf(tree, edits))
    ensures var after := ApplyEdits(tree, edits, false);
      && AllClean(tree, edits, false)
      && AllLanded(after, edits, false) && ApplyEdits(after, edits, false) == after
      && AllClean(after, edits, true) && ApplyEdits(after, edits, true) == tree
  {
    var layouts := LayoutsOf(tree, edits);
    LayoutsPending(tree, edits);
    LocalSound(edits, layouts);
    var none, all := Everywhere(|edits|, false), Everywhere(|edits|, true);
    hide Laid, AllLocal, Sound, LayoutsOf, TreeAt, ApplyEdits, Clean, Landed;
    RunLands(tree, edits, layouts, none, false);
    RunLands(tree, edits, layouts, all, false);
    RunLands(tree, edits, layouts, all, true);
  }
}
