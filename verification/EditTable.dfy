/** A small table: two edits in one file whose texts overlap, one of them a deletion. */
module EditTable {

  import opened ExactEdits
  import opened EditRuns
  import opened EditLayouts
  import opened EditWindows

  // ------------------------------------------------------------- telling texts apart

  lemma KeepsForeign(form: string, lead: string, site: string, follow: string, c: char)
    requires c in form && c !in lead + site + follow
    ensures Keeps(form, false, lead, site, follow)
  {
    LacksCharacter(lead + site + follow, form, c);
    IncludesIff(lead + site + follow, form);
  }

  lemma NotCrossing(form: string, left: string, gap: string, right: string, c: char)
    requires c in gap && c !in form
    ensures !Crosses(form, left, gap, right)
  {
    var j :| 0 <= j < |gap| && gap[j] == c;
    forall m: nat
      ensures !LaidOver(form, left, gap, right, m)
    {
      if m + |gap| < |form| {
        assert form[m..m + |gap|][j] == form[m + j];
      }
    }
  }

  ghost predicate HasOther(text: string, form: string) {
    exists d | d in text :: d !in form
  }

  /** A form stays within its sites if it has a character that neither the gaps nor the other edits'
      forms have, and the gaps between sites have characters it has not. */
  lemma LocalByCharacter(edits: seq<Edit>, l: Layout, form: string, k: nat, c: char)
    requires Marked(edits, l) && c in form
    requires forall i | 0 <= i < |l.gaps| :: c !in l.gaps[i]
    requires forall i, b | 0 <= i < |l.marks| && l.marks[i] != k :: c !in Form(edits[l.marks[i]], b)
    requires forall i, b | 0 <= i < |l.marks| && l.marks[i] == k ::
               Keeps(form, true, l.gaps[i], Form(edits[l.marks[i]], b), l.gaps[i + 1])
    requires forall i | 0 < i < |l.marks| :: HasOther(l.gaps[i], form)
    ensures Local(edits, l, form, k)
  {
    hide Includes, Keeps, Crosses, Form;
    forall i | 0 <= i < |l.gaps|
      ensures !Includes(l.gaps[i], form)
    {
      LacksCharacter(l.gaps[i], form, c);
    }
    forall i, b | 0 <= i < |l.marks|
      ensures Keeps(form, l.marks[i] == k, l.gaps[i], Form(edits[l.marks[i]], b), l.gaps[i + 1])
    {
      if l.marks[i] != k {
        assert c !in l.gaps[i] && c !in Form(edits[l.marks[i]], b) && c !in l.gaps[i + 1];
        KeepsForeign(form, l.gaps[i], Form(edits[l.marks[i]], b), l.gaps[i + 1], c);
      }
    }
    forall i, a, b | 0 < i < |l.marks|
      ensures !CrossesAt(edits, l, form, i, a, b)
    {
      assert HasOther(l.gaps[i], form);
      var d :| d in l.gaps[i] && d !in form;
      NotCrossing(form, Form(edits[l.marks[i - 1]], a), l.gaps[i], Form(edits[l.marks[i]], b), d);
    }
  }

  // --------------------------------------------------------------------------- the table

  const HEAD := Edit("f", "|h|v|", "|h|u|v|", 1)
  const ROW := Edit("f", "|x|y|", "|x|", 1)

  function TableEdits(): seq<Edit> {
    [HEAD, ROW]
  }

  function TableLayout(): Layout {
    Layout(["", "\n", "1"], [0, 1])
  }

  function TableLayouts(): Layouts {
    map["f" := TableLayout()]
  }

  /** One form in the window of the other. */
  lemma OtherForm(form: string, lead: string, site: string, follow: string)
    requires form != site && Keeps(form, false, lead, site, follow)
    ensures Keeps(form, true, lead, site, follow)
  {
    hide OccursAt;
  }

  /** A form in its own window starts no earlier than its first character allows. */
  lemma SameForm(form: string, lead: string, follow: string)
    requires form != "" && forall q | 0 <= q < |lead| :: (lead + form + follow)[q] != form[0]
    ensures Keeps(form, true, lead, form, follow)
  {
    hide OccursAt;
    var window := lead + form + follow;
    forall q: nat | OccursAt(window, form, q)
      ensures q >= |lead|
    {
      OccursCharacter(window, form, q, 0);
    }
  }

  lemma HeadKeeps(b: bool, a: bool)
    ensures Keeps(Form(HEAD, b), true, "", Form(HEAD, a), "\n")
  {
    var form, site := Form(HEAD, b), Form(HEAD, a);
    if a == b {
      SameForm(form, "", "\n");
    } else {
      var window := "" + site + "\n";
      forall q: nat
        ensures !OccursAt(window, form, q)
      {
        if OccursAt(window, form, q) {
          OccursCharacter(window, form, q, 1);
          OccursCharacter(window, form, q, 3);
        }
      }
      OtherForm(form, "", site, "\n");
    }
  }

  lemma RowKeeps(b: bool, a: bool)
    ensures Keeps(Form(ROW, b), true, "\n", Form(ROW, a), "1")
  {
    if a == b {
      SameForm(Form(ROW, b), "\n", "1");
    } else if b {
      OccursIncluded("|x|y|", "|x|", 0);
    } else {
      KeepsForeign("|x|y|", "\n", "|x|", "1", 'y');
      OtherForm("|x|y|", "\n", "|x|", "1");
    }
  }

  lemma TableCharacters(b: bool)
    ensures 'h' in Form(HEAD, b) && 'h' !in Form(ROW, b) && 'x' in Form(ROW, b) && 'x' !in Form(HEAD, b)
    ensures HasOther("\n", Form(HEAD, b)) && HasOther("\n", Form(ROW, b))
  {
    assert Form(HEAD, b)[1] == 'h' && Form(ROW, b)[1] == 'x';
    assert '\n' in "\n";
  }

  lemma HeadLocal(b: bool)
    ensures Local(TableEdits(), TableLayout(), Form(HEAD, b), 0)
  {
    hide Local, Keeps, Form, HasOther;
    HeadKeeps(b, false);
    HeadKeeps(b, true);
    TableCharacters(false);
    TableCharacters(true);
    LocalByCharacter(TableEdits(), TableLayout(), Form(HEAD, b), 0, 'h');
  }

  lemma RowLocal(b: bool)
    ensures Local(TableEdits(), TableLayout(), Form(ROW, b), 1)
  {
    hide Local, Keeps, Form, HasOther;
    RowKeeps(b, false);
    RowKeeps(b, true);
    TableCharacters(false);
    TableCharacters(true);
    LocalByCharacter(TableEdits(), TableLayout(), Form(ROW, b), 1, 'x');
  }

  lemma TableLaid()
    ensures Laid(TableEdits(), TableLayouts())
  {
    var l := TableLayout();
    assert Own(l, 0) == [true, false] && Own(l, 1) == [false, true];
    assert Trues([true, false]) == Trues([false, true]) == 1;
  }

  lemma TableSound()
    requires Laid(TableEdits(), TableLayouts())
    ensures Sound(TableEdits(), TableLayouts())
  {
    hide Laid, Sound, Local;
    forall k: nat, b: bool | k < 2
      ensures Local(TableEdits(), TableLayout(), Form(TableEdits()[k], b), k)
    {
      if k == 0 { HeadLocal(b); } else { RowLocal(b); }
    }
    LocalSound(TableEdits(), TableLayouts());
  }

  lemma WeaveTwo(a: string, x: string, b: string, y: string, c: string)
    ensures Weave([a, b, c], [x, y]) == a + x + (b + y + c)
  {
    assert [a, b, c][1..] == [b, c] && [b, c][1..] == [c] && [x, y][1..] == [y] && [y][1..] == [];
    assert Weave([c], []) == c;
    assert Weave([b, c], [y]) == b + y + c;
  }

  lemma TableText(b: bool)
    ensures Marked(TableEdits(), TableLayout())
    ensures Text(TableEdits(), TableLayout(), Everywhere(2, b)) == if b then "|h|u|v|\n|x|1" else "|h|v|\n|x|y|1"
  {
    hide Weave;
    var sites := Sites(TableEdits(), TableLayout(), Everywhere(2, b));
    var h, r := Form(HEAD, b), Form(ROW, b);
    assert sites == [h, r];
    assert Text(TableEdits(), TableLayout(), Everywhere(2, b)) == Weave(["", "\n", "1"], [h, r]);
    WeaveTwo("", h, "\n", r, "1");
    assert "" + h + ("\n" + r + "1") == if b then "|h|u|v|\n|x|1" else "|h|v|\n|x|y|1";
  }

  const PENDING: Tree := map["f" := "|h|v|\n|x|y|1"]
  const APPLIED: Tree := map["f" := "|h|u|v|\n|x|1"]

  lemma TableTree(b: bool)
    requires Laid(TableEdits(), TableLayouts())
    ensures TreeAt(map[], TableEdits(), TableLayouts(), Everywhere(2, b)) == if b then APPLIED else PENDING
  {
    TableText(b);
    TwoEdits();
    hide Text, Laid, TableEdits, TableLayout;
    var base: Tree := map[];
    var tree := TreeAt(base, TableEdits(), TableLayouts(), Everywhere(2, b));
    assert tree.Keys == {"f"};
    assert tree["f"] == Text(TableEdits(), TableLayout(), Everywhere(2, b));
  }

  lemma TableOverlaps()
    ensures !NoOverlap(HEAD.find, ROW.find) && !NoOverlap(HEAD.replace, ROW.replace) && Includes(ROW.find, ROW.replace)
  {
    hide IndexOf, Includes;
    assert "|h|v|"[4..] == "|x|y|"[..1] && "|h|u|v|"[6..] == "|x|"[..1];
    OccursIncluded(ROW.find, ROW.replace, 0);
  }

  /** A table head and a row that begin and end with the same bar, and the row a deletion: the texts
      overlap, and the run lands both and takes both back. */
  lemma TableLands()
    ensures !NoOverlap(HEAD.find, ROW.find) && !NoOverlap(HEAD.replace, ROW.replace) && Includes(ROW.find, ROW.replace)
    ensures ApplyEdits(PENDING, TableEdits(), false) == APPLIED
    ensures ApplyEdits(APPLIED, TableEdits(), true) == PENDING
  {
    hide *;
    TableOverlaps();
    TableLaid();
    TableSound();
    TableTree(false);
    TableTree(true);
    TwoEdits();
    RunLands(map[], TableEdits(), TableLayouts(), Everywhere(2, false), false);
    RunLands(map[], TableEdits(), TableLayouts(), Everywhere(2, true), true);
  }

  lemma TwoEdits()
    ensures |TableEdits()| == 2
  {
  }
}
