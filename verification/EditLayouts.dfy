/** Where the sites of several edits lie in the files of a tree, and when runs of the edits do
    nothing but exchange the two forms at these sites. */
module EditLayouts {

  import opened ExactEdits
  import opened EditRuns

  // ------------------------------------------------------------------------- woven texts

  /** Gaps with a site between any two of them. */
  function Weave(gaps: seq<string>, sites: seq<string>): string
    requires |gaps| == |sites| + 1
  {
    if sites == [] then gaps[0] else gaps[0] + sites[0] + Weave(gaps[1..], sites[1..])
  }

  /** The pieces between the sites of one edit; the sites of the others belong to the pieces. */
  function Cut(gaps: seq<string>, sites: seq<string>, own: seq<bool>): (pieces: seq<string>)
    requires |gaps| == |sites| + 1 && |own| == |sites|
    ensures pieces != []
  {
    if sites == [] then gaps
    else
      var rest := Cut(gaps[1..], sites[1..], own[1..]);
      if own[0] then [gaps[0]] + rest else [gaps[0] + sites[0] + rest[0]] + rest[1..]
  }

  function Trues(own: seq<bool>): nat {
    if own == [] then 0 else (if own[0] then 1 else 0) + Trues(own[1..])
  }

  lemma {:induction false} CutLength(gaps: seq<string>, sites: seq<string>, own: seq<bool>)
    requires |gaps| == |sites| + 1 && |own| == |sites|
    ensures |Cut(gaps, sites, own)| == Trues(own) + 1
    decreases |sites|
  {
    if sites != [] {
      CutLength(gaps[1..], sites[1..], own[1..]);
    }
  }

  /** The own sites are not part of the pieces. */
  lemma {:induction false} CutSame(gaps: seq<string>, sites: seq<string>, others: seq<string>, own: seq<bool>)
    requires |gaps| == |sites| + 1 && |own| == |sites| == |others|
    requires forall i | 0 <= i < |sites| && !own[i] :: sites[i] == others[i]
    ensures Cut(gaps, sites, own) == Cut(gaps, others, own)
    decreases |sites|
  {
    if sites != [] {
      CutSame(gaps[1..], sites[1..], others[1..], own[1..]);
    }
  }

  lemma {:induction false} CutJoin(gaps: seq<string>, sites: seq<string>, own: seq<bool>, form: string)
    requires |gaps| == |sites| + 1 && |own| == |sites|
    requires forall i | 0 <= i < |sites| && own[i] :: sites[i] == form
    ensures Join(Cut(gaps, sites, own), form) == Weave(gaps, sites)
    decreases |sites|
  {
    if sites != [] {
      var rest := Cut(gaps[1..], sites[1..], own[1..]);
      CutJoin(gaps[1..], sites[1..], own[1..], form);
      if own[0] {
        assert ([gaps[0]] + rest)[1..] == rest;
      } else {
        JoinGrown(gaps[0] + sites[0], rest, form);
      }
    }
  }

  lemma JoinGrown(lead: string, pieces: seq<string>, s: string)
    requires pieces != []
    ensures Join([lead + pieces[0]] + pieces[1..], s) == lead + Join(pieces, s)
  {
    var grown := [lead + pieces[0]] + pieces[1..];
    assert grown[1..] == pieces[1..];
    if |pieces| > 1 {
      assert lead + pieces[0] + s + Join(pieces[1..], s) == lead + (pieces[0] + s + Join(pieces[1..], s));
    }
  }

  // ------------------------------------------------------------------------------ layouts

  /** `marks[i]` is the number of the edit whose site stands behind gap `i`. */
  datatype Layout = Layout(gaps: seq<string>, marks: seq<nat>)

  /** Which edits are applied. */
  type Stage = seq<bool>

  function Form(edit: Edit, applied: bool): string {
    if applied then edit.replace else edit.find
  }

  ghost predicate Marked(edits: seq<Edit>, l: Layout) {
    |l.gaps| == |l.marks| + 1 && forall i | 0 <= i < |l.marks| :: l.marks[i] < |edits|
  }

  ghost function Sites(edits: seq<Edit>, l: Layout, c: Stage): (sites: seq<string>)
    requires Marked(edits, l) && |c| == |edits|
    ensures |sites| == |l.marks|
    ensures forall i | 0 <= i < |sites| :: sites[i] == Form(edits[l.marks[i]], c[l.marks[i]])
  {
    seq(|l.marks|, i requires 0 <= i < |l.marks| => Form(edits[l.marks[i]], c[l.marks[i]]))
  }

  ghost function Own(l: Layout, k: nat): (own: seq<bool>)
    ensures |own| == |l.marks| && forall i | 0 <= i < |own| :: own[i] == (l.marks[i] == k)
  {
    seq(|l.marks|, i requires 0 <= i < |l.marks| => l.marks[i] == k)
  }

  /** The text of a file when the edits of `c` are applied. */
  ghost function Text(edits: seq<Edit>, l: Layout, c: Stage): string
    requires Marked(edits, l) && |c| == |edits|
  {
    Weave(l.gaps, Sites(edits, l, c))
  }

  ghost function Pieces(edits: seq<Edit>, l: Layout, c: Stage, k: nat): (pieces: seq<string>)
    requires Marked(edits, l) && |c| == |edits|
    ensures pieces != []
  {
    Cut(l.gaps, Sites(edits, l, c), Own(l, k))
  }

  /** At stage `c` the pieces between the sites of edit `k` are aligned with the form that stands
      there, and its other form stands nowhere, unless the form contains it. */
  ghost predicate Fits(edits: seq<Edit>, l: Layout, c: Stage, k: nat)
    requires Marked(edits, l) && k < |edits| == |c|
  {
    var here, there := Form(edits[k], c[k]), Form(edits[k], !c[k]);
    Aligned(Pieces(edits, l, c, k), here) && (Includes(here, there) || !Includes(Text(edits, l, c), there))
  }

  ghost predicate Proper(edit: Edit) {
    edit.find != "" && edit.replace != "" && edit.find != edit.replace
  }

  lemma PendingForm(text: string, find: string, replace: string, pieces: seq<string>)
    requires find != "" && replace != "" && find != replace && Split(text, find) == pieces && |pieces| > 1
    requires Includes(find, replace) || !Includes(text, replace)
    ensures ExactEditState(text, find, replace, |pieces| - 1) == Pending
  {
    hide Split, Includes;
    CountZero(text, replace);
    if Includes(find, replace) && Includes(replace, find) {
      MutualInclusion(find, replace);
    }
  }

  lemma TextJoined(edits: seq<Edit>, l: Layout, c: Stage, k: nat)
    requires Marked(edits, l) && k < |edits| == |c|
    ensures Text(edits, l, c) == Join(Pieces(edits, l, c, k), Form(edits[k], c[k]))
    ensures Text(edits, l, c[k := !c[k]]) == Join(Pieces(edits, l, c, k), Form(edits[k], !c[k]))
  {
    hide Join, Weave, Cut, Form;
    var other := c[k := !c[k]];
    CutJoin(l.gaps, Sites(edits, l, c), Own(l, k), Form(edits[k], c[k]));
    CutJoin(l.gaps, Sites(edits, l, other), Own(l, k), Form(edits[k], !c[k]));
    CutSame(l.gaps, Sites(edits, l, c), Sites(edits, l, other), Own(l, k));
  }

  /** At a stage it fits, an edit is classified by whether it is applied, and the run that is due
      takes the text to the stage where that has changed. */
  lemma StageRight(edits: seq<Edit>, l: Layout, c: Stage, k: nat)
    requires Marked(edits, l) && k < |edits| == |c| && Fits(edits, l, c, k) && Proper(edits[k])
    requires edits[k].expected == Trues(Own(l, k)) >= 1
    ensures var e, text := edits[k], Text(edits, l, c);
      && ExactEditState(text, e.find, e.replace, e.expected) == (if c[k] then Applied else Pending)
      && ExactEditState(text, e.replace, e.find, e.expected) == (if c[k] then Pending else Applied)
      && Apply(text, Form(e, c[k]), Form(e, !c[k])) == Text(edits, l, c[k := !c[k]])
  {
    var e, text := edits[k], Text(edits, l, c);
    var pieces := Pieces(edits, l, c, k);
    hide Aligned, Split, Join, ExactEditState, Includes, Pieces, Text;
    TextJoined(edits, l, c, k);
    SplitJoinExact(pieces, Form(e, c[k]));
    assert |pieces| == e.expected + 1 by {
      PiecesCounted(edits, l, c, k);
    }
    PendingForm(text, Form(e, c[k]), Form(e, !c[k]), pieces);
    AppliedIsReversePending(text, e.find, e.replace, e.expected);
    AppliedIsReversePending(text, e.replace, e.find, e.expected);
  }

  lemma PiecesCounted(edits: seq<Edit>, l: Layout, c: Stage, k: nat)
    requires Marked(edits, l) && |c| == |edits|
    ensures |Pieces(edits, l, c, k)| == Trues(Own(l, k)) + 1
  {
    CutLength(l.gaps, Sites(edits, l, c), Own(l, k));
  }

  // -------------------------------------------------------------------------------- trees

  type Layouts = map<string, Layout>

  /** Every edit has its sites, as many as it expects, in the layout of its file. */
  ghost predicate Laid(edits: seq<Edit>, layouts: Layouts) {
    && (forall file | file in layouts :: MarkedIn(edits, layouts[file], file))
    && (forall k | 0 <= k < |edits| :: edits[k].file in layouts && Counted(edits, layouts[edits[k].file], k))
  }

  ghost predicate MarkedIn(edits: seq<Edit>, l: Layout, file: string) {
    Marked(edits, l) && forall i | 0 <= i < |l.marks| :: edits[l.marks[i]].file == file
  }

  ghost predicate Counted(edits: seq<Edit>, l: Layout, k: nat)
    requires k < |edits|
  {
    Proper(edits[k]) && edits[k].expected == Trues(Own(l, k)) >= 1
  }

  /** Every edit fits at every stage. */
  ghost predicate Sound(edits: seq<Edit>, layouts: Layouts)
    requires Laid(edits, layouts)
  {
    forall c: Stage, k: nat | |c| == |edits| && k < |edits| :: Fits(edits, layouts[edits[k].file], c, k)
  }

  /** The tree when the edits of `c` are applied; files without an edit are those of `base`. */
  ghost function TreeAt(base: Tree, edits: seq<Edit>, layouts: Layouts, c: Stage): Tree
    requires Laid(edits, layouts) && |c| == |edits|
  {
    base + map file | file in layouts :: Text(edits, layouts[file], c)
  }

  /** A file depends on its own edits only. */
  lemma TextElsewhere(edits: seq<Edit>, l: Layout, c: Stage, k: nat, b: bool)
    requires Marked(edits, l) && k < |edits| == |c| && forall i | 0 <= i < |l.marks| :: l.marks[i] != k
    ensures Text(edits, l, c[k := b]) == Text(edits, l, c)
  {
    assert Sites(edits, l, c[k := b]) == Sites(edits, l, c);
  }

  lemma TreeHas(base: Tree, edits: seq<Edit>, layouts: Layouts, c: Stage, file: string)
    requires Laid(edits, layouts) && |c| == |edits| && file in layouts
    ensures file in TreeAt(base, edits, layouts, c)
    ensures TreeAt(base, edits, layouts, c)[file] == Text(edits, layouts[file], c)
  {
    hide Text;
  }

  /** One planned edit takes the tree to the next stage. */
  lemma TreeStep(base: Tree, edits: seq<Edit>, layouts: Layouts, c: Stage, k: nat)
    requires Laid(edits, layouts) && Sound(edits, layouts) && k < |edits| == |c|
    ensures var tree, edit := TreeAt(base, edits, layouts, c), Oriented(edits[k], c[k]);
      && edit.file in tree && StateIn(tree, edit) == Pending
      && StateIn(tree, Oriented(edits[k], !c[k])) == Applied
      && ApplyOne(tree, edit) == TreeAt(base, edits, layouts, c[k := !c[k]])
  {
    var l := layouts[edits[k].file];
    assert Fits(edits, l, c, k) && Counted(edits, l, k);
    TreeHas(base, edits, layouts, c, edits[k].file);
    hide Fits, ExactEditState, Apply, Text, Own, Trues, TreeAt, Sound;
    StageRight(edits, l, c, k);
    TreeMoves(base, edits, layouts, c, k);
  }

  lemma TreeMoves(base: Tree, edits: seq<Edit>, layouts: Layouts, c: Stage, k: nat)
    requires Laid(edits, layouts) && k < |edits| == |c|
    ensures var next := c[k := !c[k]];
      var file := edits[k].file;
      TreeAt(base, edits, layouts, c)[file := Text(edits, layouts[file], next)] == TreeAt(base, edits, layouts, next)
  {
    hide Text, Counted;
    forall file | file in layouts && file != edits[k].file
      ensures Text(edits, layouts[file], c[k := !c[k]]) == Text(edits, layouts[file], c)
    {
      TextElsewhere(edits, layouts[file], c, k, !c[k]);
    }
  }

  /** The stage with the first `n` edits set to `b`. */
  ghost function UpTo(c: Stage, n: nat, b: bool): (d: Stage)
    requires n <= |c|
    ensures |d| == |c| && forall i | 0 <= i < |c| :: d[i] == if i < n then b else c[i]
  {
    seq(|c|, i requires 0 <= i < |c| => if i < n then b else c[i])
  }

  lemma PlannedNext(tree: Tree, edits: seq<Edit>, n: nat, reverse: bool)
    requires n < |edits|
    ensures var edit := Oriented(edits[n], reverse);
      Planned(tree, edits[..n + 1], reverse) == Planned(tree, edits[..n], reverse)
        + if edit.file in tree && StateIn(tree, edit) == Pending then [edit] else []
  {
    hide StateIn;
    assert edits[..n + 1][..n] == edits[..n];
  }

  lemma {:induction false} PlannedHere(tree: Tree, edits: seq<Edit>, reverse: bool)
    ensures forall e | e in Planned(tree, edits, reverse) :: e.file in tree
    decreases edits
  {
    hide StateIn;
    if edits != [] {
      PlannedHere(tree, edits[..|edits| - 1], reverse);
    }
  }

  /** What the edit at `k` adds to the run. */
  lemma PlannedStep(base: Tree, edits: seq<Edit>, layouts: Layouts, c: Stage, reverse: bool, k: nat)
    requires Laid(edits, layouts) && Sound(edits, layouts) && k < |edits| == |c|
    ensures var tree := TreeAt(base, edits, layouts, c);
      var edit, planned := Oriented(edits[k], reverse), Planned(tree, edits[..k], reverse);
      && edit.file in tree
      && Planned(tree, edits[..k + 1], reverse) == if c[k] == reverse then planned + [edit] else planned
  {
    hide Laid, Sound, TreeAt, StateIn, ApplyOne, Planned;
    var tree := TreeAt(base, edits, layouts, c);
    PlannedNext(tree, edits, k, reverse);
    TreeStep(base, edits, layouts, c, k);
  }

  lemma NothingPlanned(tree: Tree, edits: seq<Edit>, reverse: bool)
    ensures ApplyAll(tree, Planned(tree, edits[..0], reverse)) == tree
  {
    assert edits[..0] == [];
  }

  lemma UpToNone(c: Stage, b: bool)
    ensures UpTo(c, 0, b) == c
  {
  }

  lemma {:induction false} PlannedAt(base: Tree, edits: seq<Edit>, layouts: Layouts, c: Stage, reverse: bool, n: nat)
    requires Laid(edits, layouts) && Sound(edits, layouts) && n <= |edits| == |c|
    ensures var tree := TreeAt(base, edits, layouts, c);
      ApplyAll(tree, Planned(tree, edits[..n], reverse)) == TreeAt(base, edits, layouts, UpTo(c, n, !reverse))
    decreases n
  {
    hide *;
    var tree := TreeAt(base, edits, layouts, c);
    if n == 0 {
      NothingPlanned(tree, edits, reverse);
      UpToNone(c, !reverse);
    } else {
      PlannedAt(base, edits, layouts, c, reverse, n - 1);
      PlannedStep(base, edits, layouts, c, reverse, n - 1);
      StageNext(c, n - 1, reverse);
      if c[n - 1] == reverse {
        PlannedHere(tree, edits[..n - 1], reverse);
        TreeStep(base, edits, layouts, UpTo(c, n - 1, !reverse), n - 1);
        ApplyAllLast(tree, Planned(tree, edits[..n - 1], reverse), Oriented(edits[n - 1], reverse));
      }
    }
  }

  lemma StageNext(c: Stage, k: nat, reverse: bool)
    requires k < |c|
    ensures UpTo(c, k, !reverse)[k] == c[k] && UpTo(c, k, !reverse)[k := !reverse] == UpTo(c, k + 1, !reverse)
    ensures c[k] != reverse ==> UpTo(c, k + 1, !reverse) == UpTo(c, k, !reverse)
  {
  }

  ghost function Everywhere(n: nat, b: bool): (c: Stage)
    ensures |c| == n && forall i | 0 <= i < n :: c[i] == b
  {
    seq(n, _ => b)
  }

  /** From every stage, whichever edits are applied already: no site is refused, a check finds the
      edits that have landed, a forward run leaves all edits applied and a reverse run leaves none
      applied, and neither touches anything but the sites. */
  lemma RunLands(base: Tree, edits: seq<Edit>, layouts: Layouts, c: Stage, reverse: bool)
    requires Laid(edits, layouts) && Sound(edits, layouts) && |c| == |edits|
    ensures var tree := TreeAt(base, edits, layouts, c);
      && (forall k | 0 <= k < |edits| ::
            Clean(tree, edits[k], reverse) && (Landed(tree, edits[k], reverse) <==> c[k] == !reverse))
      && ApplyEdits(tree, edits, reverse) == TreeAt(base, edits, layouts, Everywhere(|edits|, !reverse))
  {
    hide Sound, StateIn, TreeAt;
    PlannedAt(base, edits, layouts, c, reverse, |edits|);
    assert edits[..|edits|] == edits;
    assert UpTo(c, |edits|, !reverse) == Everywhere(|edits|, !reverse);
    var tree := TreeAt(base, edits, layouts, c);
    forall k | 0 <= k < |edits|
      ensures Clean(tree, edits[k], reverse) && (Landed(tree, edits[k], reverse) <==> c[k] == !reverse)
    {
      TreeStep(base, edits, layouts, c, k);
    }
  }
}
