/**
  The HTML comments of one parsed HTML node, found by a search that jumps from each comment's
  opening to the end of it. A comment that is never closed runs to the end of the node.
*/
module MarkdownComments {
  import opened ExactEdits
  import opened MarkdownProse
  import opened Whitespace

  const OPENING := "<!--"
  const CLOSING := "-->"

  /** `value.indexOf(s, at)` */
  function IndexOfFrom(value: string, s: string, at: nat): (i: int)
    requires at <= |value|
  {
    var i := IndexOf(value[at..], s);
    if i == -1 then -1 else at + i
  }

  /** `r` opens with a comment mark and ends with the first closing mark after it, if there is
      one, and with the node otherwise. */
  ghost predicate IsComment(value: string, r: Range) {
    && OccursAt(value, OPENING, r.start)
    && r.start + 4 <= r.end <= |value|
    && (forall j: nat | r.start + 4 <= j && OccursAt(value, CLOSING, j) :: r.end <= j + 3)
    && (r.end == |value| || (r.start + 7 <= r.end && OccursAt(value, CLOSING, r.end - 3)))
  }

  /** The comments of a node: in order, apart, and around every opening mark. */
  ghost predicate AreComments(value: string, rs: seq<Range>) {
    && (forall i | 0 <= i < |rs| :: IsComment(value, rs[i]))
    && (forall i, j | 0 <= i < j < |rs| :: rs[i].end <= rs[j].start)
    && (forall o: nat | OccursAt(value, OPENING, o) :: Covered(rs, o))
  }

  /** An occurrence from `at` on is one in the rest of the text. */
  lemma OccursInRest(value: string, s: string, at: nat, j: nat)
    requires at <= |value| && at <= j
    ensures OccursAt(value, s, j) <==> OccursAt(value[at..], s, j - at)
  {
    if j + |s| <= |value| {
      SliceOfRest(value, at, j, |s|);
    }
  }

  lemma SliceOfRest(value: string, at: nat, j: nat, n: nat)
    requires at <= j && j + n <= |value|
    ensures value[at..][j - at..j - at + n] == value[j..j + n]
  {
  }

  lemma IndexOfFromFirst(value: string, s: string, at: nat)
    requires at <= |value|
    ensures var i := IndexOfFrom(value, s, at); i >= 0 ==> at <= i && OccursAt(value, s, i)
    ensures forall j: nat | at <= j && OccursAt(value, s, j) :: 0 <= IndexOfFrom(value, s, at) <= j
  {
    hide IndexOf, OccursAt;
    IndexOfFirst(value[at..], s);
    var i := IndexOf(value[at..], s);
    if i >= 0 {
      OccursInRest(value, s, at, at + i);
    }
    forall j: nat | at <= j && OccursAt(value, s, j)
      ensures 0 <= IndexOfFrom(value, s, at) <= j
    {
      OccursInRest(value, s, at, j);
    }
  }

  /** The search state: the comments so far hold every opening mark before the cursor. */
  ghost predicate Swept(value: string, cursor: nat, rs: seq<Range>) {
    && cursor <= |value|
    && (forall i | 0 <= i < |rs| :: IsComment(value, rs[i]) && rs[i].end <= cursor)
    && (forall i, j | 0 <= i < j < |rs| :: rs[i].end <= rs[j].start)
    && (forall o: nat | o < cursor && OccursAt(value, OPENING, o) :: Covered(rs, o))
  }

  lemma SweepOn(value: string, cursor: nat, rs: seq<Range>, r: Range)
    requires Swept(value, cursor, rs) && IsComment(value, r) && cursor <= r.start
    requires forall o: nat | cursor <= o < r.start :: !OccursAt(value, OPENING, o)
    ensures Swept(value, r.end, rs + [r])
  {
    hide OccursAt;
    var more := rs + [r];
    forall o: nat | o < r.end && OccursAt(value, OPENING, o)
      ensures Covered(more, o)
    {
      if o < cursor {
        var i :| 0 <= i < |rs| && Covers(rs[i], o);
        assert Covers(more[i], o);
      } else {
        assert Covers(more[|rs|], o);
      }
    }
  }

  /** The offsets of the comments, moved by the node's own offset. */
  function Moved(rs: seq<Range>, base: nat): seq<Range> {
    seq(|rs|, i requires 0 <= i < |rs| => Range(base + rs[i].start, base + rs[i].end))
  }

  /** `comments` are the comments of the node that starts at `base` in the source. */
  ghost predicate CommentsAt(value: string, base: nat, comments: seq<Range>) {
    exists rs :: AreComments(value, rs) && comments == Moved(rs, base)
  }

  method CommentRanges(value: string, base: nat) returns (comments: seq<Range>)
    ensures CommentsAt(value, base, comments)
  {
    hide IndexOfFrom, IsComment, OccursAt;
    comments := [];
    ghost var rs: seq<Range> := [];
    var cursor: nat := 0;
    while true
      invariant Swept(value, cursor, rs) && comments == Moved(rs, base)
      decreases |value| - cursor
    {
      var start := IndexOfFrom(value, OPENING, cursor);
      IndexOfFromFirst(value, OPENING, cursor);
      if start < 0 { break; }
      OpeningFits(value, start);
      var close := IndexOfFrom(value, CLOSING, start + 4);
      var end := if close < 0 then |value| else close + 3;
      CommentFound(value, start);
      SweepOn(value, cursor, rs, Range(start, end));
      comments, rs := comments + [Range(base + start, base + end)], rs + [Range(start, end)];
      cursor := end;
    }
    assert AreComments(value, rs);
  }

  lemma OpeningFits(value: string, start: nat)
    requires OccursAt(value, OPENING, start)
    ensures start + 4 <= |value|
  {
  }

  lemma CommentFound(value: string, start: nat)
    requires OccursAt(value, OPENING, start) && start + 4 <= |value|
    ensures var close := IndexOfFrom(value, CLOSING, start + 4);
      var end := if close < 0 then |value| else close + 3;
      start + 4 <= end && IsComment(value, Range(start, end))
  {
    hide IndexOfFrom;
    IndexOfFromFirst(value, CLOSING, start + 4);
  }

  /** A comment's end is determined by where it opens. */
  lemma CommentEndUnique(value: string, a: Range, b: Range)
    requires IsComment(value, a) && IsComment(value, b) && a.start == b.start
    ensures a == b
  {
  }

  /** No other list meets the description, so the search finds the comments. */
  lemma CommentsUnique(value: string, a: seq<Range>, b: seq<Range>)
    requires AreComments(value, a) && AreComments(value, b)
    ensures a == b
  {
    hide AreComments;
    SamePrefix(value, a, b, |a|);
    SamePrefix(value, b, a, |b|);
    assert a[..|a|] == a && b[..|b|] == b;
  }

  lemma CommentsAtUnique(value: string, base: nat, a: seq<Range>, b: seq<Range>)
    requires CommentsAt(value, base, a) && CommentsAt(value, base, b)
    ensures a == b
  {
    hide AreComments, Moved;
    var r :| AreComments(value, r) && a == Moved(r, base);
    var q :| AreComments(value, q) && b == Moved(q, base);
    CommentsUnique(value, r, q);
  }

  lemma {:induction false} SamePrefix(value: string, a: seq<Range>, b: seq<Range>, n: nat)
    requires AreComments(value, a) && AreComments(value, b) && n <= |a|
    ensures n <= |b| && a[..n] == b[..n]
  {
    hide IsComment, OccursAt;
    if n > 0 {
      var k := n - 1;
      SamePrefix(value, a, b, k);
      OpensAt(value, a[k]);
      Next(value, a, b, k);
      OpensAt(value, b[k]);
      Next(value, b, a, k);
      CommentEndUnique(value, a[k], b[k]);
      assert a[..n] == a[..k] + [a[k]] && b[..n] == b[..k] + [b[k]];
    }
  }

  lemma OpensAt(value: string, r: Range)
    requires IsComment(value, r)
    ensures OccursAt(value, OPENING, r.start)
  {
  }

  /** After a common prefix, the other list's next comment opens no later. */
  lemma Next(value: string, a: seq<Range>, b: seq<Range>, k: nat)
    requires AreComments(value, a) && AreComments(value, b)
    requires k < |a| && k <= |b| && a[..k] == b[..k]
    ensures k < |b| && b[k].start <= a[k].start
  {
    OpensAt(value, a[k]);
    assert Covered(b, a[k].start);
    forall i | 0 <= i < k
      ensures b[i] == a[i] && a[i].end <= a[k].start
    {
      assert b[i] == b[..k][i] && a[i] == a[..k][i];
    }
    hide OccursAt, IsComment;
    var i := CoveringIndex(b, a[k].start);
    assert k <= i;
    if k < i {
      assert b[k].end <= b[i].start;
    }
    CommentOrdered(value, b[k]);
  }

  lemma CoveringIndex(rs: seq<Range>, o: int) returns (i: nat)
    requires Covered(rs, o)
    ensures i < |rs| && Covers(rs[i], o)
  {
    i :| 0 <= i < |rs| && Covers(rs[i], o);
  }

  lemma CommentOrdered(value: string, r: Range)
    requires IsComment(value, r)
    ensures r.start <= r.end
  {
  }

  // ------------------------------------------------------------- comments of the source

  /** The node's text stands in the source as it is, from `base` on. */
  ghost predicate Verbatim(source: string, base: nat, value: string) {
    base + |value| <= |source| && source[base..base + |value|] == value
  }

  /** Where the node's text stands verbatim, its comments are those of the source: they open and,
      unless the node ends first, close with the source's own marks, and no closing mark lies
      between. */
  lemma CommentsInSource(source: string, base: nat, value: string, r: Range)
    requires Verbatim(source, base, value) && IsComment(value, r)
    ensures base + r.end <= |source|
    ensures source[base + r.start..base + r.end] == value[r.start..r.end]
    ensures OccursAt(source, OPENING, base + r.start)
    ensures r.end == |value| || (r.start + 7 <= r.end && OccursAt(source, CLOSING, base + r.end - 3))
    ensures forall j: nat | base + r.start + 4 <= j && j + 3 <= base + |value| && OccursAt(source, CLOSING, j) ::
              base + r.end <= j + 3
  {
    OccursMoved(source, base, value, OPENING, r.start);
    if r.end >= 3 {
      OccursMoved(source, base, value, CLOSING, r.end - 3);
    }
    forall j: nat | base + r.start + 4 <= j && j + 3 <= base + |value| && OccursAt(source, CLOSING, j)
      ensures base + r.end <= j + 3
    {
      OccursMoved(source, base, value, CLOSING, j - base);
    }
    SliceMoved(source, base, value, r.start, r.end);
  }

  lemma SliceMoved(source: string, base: nat, value: string, from: nat, to: nat)
    requires Verbatim(source, base, value) && from <= to <= |value|
    ensures source[base + from..base + to] == value[from..to]
  {
    SubSlice(source, base, |value|, from, to);
  }

  lemma SubSlice(s: string, a: nat, n: nat, from: nat, to: nat)
    requires a + n <= |s| && from <= to <= n
    ensures s[a..a + n][from..to] == s[a + from..a + to]
  {
    var part := s[a..a + n];
    forall k | 0 <= k < to - from
      ensures part[from..to][k] == s[a + from..a + to][k]
    {
      assert part[from + k] == s[a + (from + k)];
    }
  }

  lemma OccursMoved(source: string, base: nat, value: string, s: string, j: nat)
    requires Verbatim(source, base, value) && j + |s| <= |value|
    ensures OccursAt(source, s, base + j) <==> OccursAt(value, s, j)
  {
    SliceMoved(source, base, value, j, j + |s|);
  }

  // -------------------------------------------------------------------- stripped indentation

  /** The parts of a node's text that the parser kept, with what it took out between them. */
  function Interleaved(kept: seq<string>, cut: seq<string>): string
    requires |kept| == |cut| + 1
  {
    if cut == [] then kept[0] else kept[0] + cut[0] + Interleaved(kept[1..], cut[1..])
  }

  function Kept(kept: seq<string>): string {
    if kept == [] then "" else kept[0] + Kept(kept[1..])
  }

  /** Where character `k` of the kept text stands. */
  function Place(kept: seq<string>, cut: seq<string>, k: nat): nat
    requires |kept| == |cut| + 1
  {
    if cut == [] || k < |kept[0]| then k
    else |kept[0]| + |cut[0]| + Place(kept[1..], cut[1..], k - |kept[0]|)
  }

  /** Nothing was taken out before character `k`. */
  predicate NothingCut(kept: seq<string>, cut: seq<string>, k: nat)
    requires |kept| == |cut| + 1
  {
    cut == [] || k < |kept[0]| || (cut[0] == "" && NothingCut(kept[1..], cut[1..], k - |kept[0]|))
  }

  lemma {:induction false} PlaceReads(kept: seq<string>, cut: seq<string>, k: nat)
    requires |kept| == |cut| + 1 && k < |Kept(kept)|
    ensures k <= Place(kept, cut, k) < |Interleaved(kept, cut)|
    ensures Interleaved(kept, cut)[Place(kept, cut, k)] == Kept(kept)[k]
    ensures Place(kept, cut, k) == k <==> NothingCut(kept, cut, k)
    decreases |cut|
  {
    if cut == [] {
      assert Kept(kept[1..]) == "";
    } else if k >= |kept[0]| {
      PlaceReads(kept[1..], cut[1..], k - |kept[0]|);
    }
  }

  lemma {:induction false} CutEarlier(kept: seq<string>, cut: seq<string>, j: nat, k: nat)
    requires |kept| == |cut| + 1 && j <= k && NothingCut(kept, cut, k)
    ensures NothingCut(kept, cut, j)
    decreases |cut|
  {
    if cut != [] && j >= |kept[0]| {
      CutEarlier(kept[1..], cut[1..], j - |kept[0]|, k - |kept[0]|);
    }
  }

  /** A range of a node whose later lines were stripped: its characters stand in the source, and they
      stand at the recorded offsets if and only if nothing was taken out before the range's end. */
  lemma StrippedRange(source: string, base: nat, kept: seq<string>, cut: seq<string>, r: Range)
    requires |kept| == |cut| + 1 && Verbatim(source, base, Interleaved(kept, cut))
    requires r.start < r.end <= |Kept(kept)|
    ensures forall j | r.start <= j < r.end ::
              base + Place(kept, cut, j) < |source| && source[base + Place(kept, cut, j)] == Kept(kept)[j]
    ensures (forall j | r.start <= j < r.end :: Place(kept, cut, j) == j) <==> NothingCut(kept, cut, r.end - 1)
  {
    hide Interleaved, Kept, Place, NothingCut;
    var text := Interleaved(kept, cut);
    forall j | r.start <= j < r.end
      ensures base + Place(kept, cut, j) < |source| && source[base + Place(kept, cut, j)] == Kept(kept)[j]
      ensures Place(kept, cut, j) == j <==> NothingCut(kept, cut, j)
    {
      PlaceReads(kept, cut, j);
      assert source[base..base + |text|][Place(kept, cut, j)] == source[base + Place(kept, cut, j)];
    }
    if NothingCut(kept, cut, r.end - 1) {
      forall j | r.start <= j < r.end
        ensures Place(kept, cut, j) == j
      {
        CutEarlier(kept, cut, j, r.end - 1);
      }
    }
  }

  /** A comment that goes on in the second line of a list item. The parser takes the item's
      indentation out of the node's text, so the recorded range ends short of the comment, and
      the end of its closing mark is kept as prose. */
  lemma IndentedCommentFallsShort()
    ensures var source, value := "- <!-- a\n  b -->", "<!-- a\nb -->";
      && !Verbatim(source, 2, value) && CommentsAt(value, 2, [Range(2, 14)])
      && OccursAt(source, OPENING, 2) && OccursAt(source, CLOSING, 13) && source[14..16] == "->"
      && Rendered(source, [Range(2, 14)], 9, 7) && !Rendered(source, [Range(2, 16)], 9, 7)
  {
    var source, value := "- <!-- a\n  b -->", "<!-- a\nb -->";
    assert source[2..6] == OPENING && source[13..16] == CLOSING;
    assert source[2..14][7] != value[7];
    hide AreComments, Rendered, Moved;
    OneComment();
    assert Moved([Range(0, 12)], 2) == [Range(2, 14)] by { MovedOne(); }
    assert CommentsAt(value, 2, [Range(2, 14)]);
    ShortRendered();
    WholeNotRendered();
  }

  lemma MovedOne()
    ensures Moved([Range(0, 12)], 2) == [Range(2, 14)]
  {
  }

  lemma ShortRendered()
    ensures Rendered("- <!-- a\n  b -->", [Range(2, 14)], 9, 7)
  {
    var source := "- <!-- a\n  b -->";
    assert !IsSpace(source[14]) && !Covered([Range(2, 14)], 14);
  }

  lemma WholeNotRendered()
    ensures !Rendered("- <!-- a\n  b -->", [Range(2, 16)], 9, 7)
  {
    hide IsSpace;
    var whole := [Range(2, 16)];
    assert Covers(whole[0], 9) && Touches(whole[0], 9, 7);
    forall o | 9 <= o < 16
      ensures Covered(whole, o)
    {
      assert Covers(whole[0], o);
    }
  }

  lemma OneComment()
    ensures AreComments("<!-- a\nb -->", [Range(0, 12)])
  {
    var value := "<!-- a\nb -->";
    assert value[0..4] == OPENING && value[9..12] == CLOSING;
    forall j: nat | 4 <= j && OccursAt(value, CLOSING, j)
      ensures 12 <= j + 3
    {
      assert value[j..j + 3][2] == '>';
    }
    var rs := [Range(0, 12)];
    forall o: nat | OccursAt(value, OPENING, o)
      ensures Covered(rs, o)
    {
      assert Covers(rs[0], o);
    }
  }
}
