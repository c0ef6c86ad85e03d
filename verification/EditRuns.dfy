/** A run of the exact edits of dsh/scripts/rescope-vendor.ts over a tree of files: every
    site is classified before anything is written, and edits may share a file. */
module EditRuns {

  import opened EditSites
  import opened ExactEdits

  // ------------------------------------------------------------------ a run over the tree

  datatype Edit = Edit(file: string, find: string, replace: string, expected: int)

  datatype Mode = Dry | Check | Write

  datatype Failure = Unreadable(edit: Edit) | NotClean(edit: Edit) | DidNotLand(edit: Edit)

  type Tree = map<string, string>

  function Oriented(edit: Edit, reverse: bool): Edit {
    if reverse then edit.(find := edit.replace, replace := edit.find) else edit
  }

  function StateIn(tree: Tree, edit: Edit): EditState
    requires edit.file in tree
  {
    ExactEditState(tree[edit.file], edit.find, edit.replace, edit.expected)
  }

  /** Each planned edit re-reads its file: later edits see what earlier ones wrote. */
  function ApplyAll(tree: Tree, planned: seq<Edit>): Tree {
    if planned == [] || planned[0].file !in tree then tree
    else
      var edit := planned[0];
      ApplyAll(tree[edit.file := Apply(tree[edit.file], edit.find, edit.replace)], planned[1..])
  }

  /** The edits of a list that are pending in the tree as it is before anything is written. */
  function Planned(tree: Tree, edits: seq<Edit>, reverse: bool): seq<Edit> {
    if edits == [] then []
    else
      var last := Oriented(edits[|edits| - 1], reverse);
      Planned(tree, edits[..|edits| - 1], reverse)
      + if last.file in tree && StateIn(tree, last) == Pending then [last] else []
  }

  ghost predicate Clean(tree: Tree, edit: Edit, reverse: bool) {
    edit.file in tree && StateIn(tree, Oriented(edit, reverse)) != Invalid
  }

  ghost predicate Landed(tree: Tree, edit: Edit, reverse: bool) {
    edit.file in tree && StateIn(tree, Oriented(edit, reverse)) == Applied
  }

  /** The file has the expected number of copies of the one form or of the other. */
  ghost predicate HasExpected(tree: Tree, edit: Edit) {
    && edit.file in tree
    && (Copies(tree[edit.file], edit.find, edit.expected) || Copies(tree[edit.file], edit.replace, edit.expected))
  }

  lemma CleanHasExpected(tree: Tree, edits: seq<Edit>, reverse: bool)
    ensures forall i | 0 <= i < |edits| && Clean(tree, edits[i], reverse) :: HasExpected(tree, edits[i])
    ensures forall i | 0 <= i < |edits| && Landed(tree, edits[i], reverse) :: HasExpected(tree, edits[i])
  {
    hide ExactEditState, Copies;
    forall i | 0 <= i < |edits| && (Clean(tree, edits[i], reverse) || Landed(tree, edits[i], reverse))
      ensures HasExpected(tree, edits[i])
    {
      var edit := Oriented(edits[i], reverse);
      StateIff(tree[edit.file], edit.find, edit.replace, edit.expected);
      match StateIn(tree, edit)
      case Pending =>
      case Applied =>
    }
  }

  /** The exact-edit part of `main`: classify every site first, write only when none
      failed. A file that cannot be read stops the run. */
  method RunEdits(tree: Tree, edits: seq<Edit>, reverse: bool, mode: Mode) returns (after: Tree, failures: seq<Failure>)
    ensures failures != [] || mode != Write ==> after == tree
    ensures failures == [] && mode == Write ==> after == ApplyAll(tree, Planned(tree, edits, reverse))
    ensures mode != Check ==> (failures == [] <==> forall i | 0 <= i < |edits| :: Clean(tree, edits[i], reverse))
    ensures mode == Check ==> (failures == [] <==> forall i | 0 <= i < |edits| :: Landed(tree, edits[i], reverse))
    ensures (exists i | 0 <= i < |edits| :: !HasExpected(tree, edits[i])) ==> failures != [] && after == tree
  {
    hide ExactEditState, HasExpected;
    CleanHasExpected(tree, edits, reverse);
    failures := [];
    after := tree;
    var planned: seq<Edit> := [];
    for k := 0 to |edits|
      invariant mode != Check ==> (failures == [] <==> forall i | 0 <= i < k :: Clean(tree, edits[i], reverse))
      invariant mode == Check ==> (failures == [] <==> forall i | 0 <= i < k :: Landed(tree, edits[i], reverse))
      invariant mode != Check && failures == [] ==> planned == Planned(tree, edits[..k], reverse)
    {
      assert edits[..k + 1][..k] == edits[..k];
      var edit := Oriented(edits[k], reverse);
      if edit.file !in tree {
        return tree, failures + [Unreadable(edit)];
      }
      var state := StateIn(tree, edit);
      if state == Invalid {
        failures := failures + [NotClean(edit)];
      } else if mode == Check {
        if state != Applied {
          failures := failures + [DidNotLand(edit)];
        }
      } else if state == Pending {
        planned := planned + [edit];
      }
    }
    assert edits[..|edits|] == edits;
    if failures == [] && mode == Write {
      after := ApplyAll(tree, planned);
    }
  }

  function ApplyEdits(tree: Tree, edits: seq<Edit>, reverse: bool): Tree {
    ApplyAll(tree, Planned(tree, edits, reverse))
  }

  function ApplyOne(tree: Tree, edit: Edit): Tree
    requires edit.file in tree
  {
    tree[edit.file := Apply(tree[edit.file], edit.find, edit.replace)]
  }

  lemma {:induction false} ApplyAllLast(tree: Tree, planned: seq<Edit>, edit: Edit)
    requires edit.file in tree && forall e | e in planned :: e.file in tree
    ensures ApplyAll(tree, planned).Keys == tree.Keys
    ensures ApplyAll(tree, planned + [edit]) == ApplyOne(ApplyAll(tree, planned), edit)
    decreases |planned|
  {
    hide Apply;
    var all := planned + [edit];
    if planned == [] {
      assert all == [edit] && all[1..] == [];
    } else {
      assert all[0] == planned[0] && all[1..] == planned[1..] + [edit];
      ApplyAllLast(ApplyOne(tree, planned[0]), planned[1..], edit);
    }
  }
}
