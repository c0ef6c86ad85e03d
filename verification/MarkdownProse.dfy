/** Prose lines of dsh/scripts/markdown.ts: source lines outside code blocks that keep
    some text once HTML comments are taken away. The parser's contribution, comment
    offset ranges and fenced line numbers, is given. */
module MarkdownProse {

  import ExactEdits
  import opened Sorting
  import opened Whitespace

  /** A comment's absolute source offsets, and a range of columns in one line. */
  datatype Range = Range(start: nat, end: nat)

  /** A 1-based line number and its text. */
  datatype ProseLine = ProseLine(index: nat, raw: string)

  // ------------------------------------------------------------------- lines and offsets

  /** `source.split('\n')` */
  function SplitLines(source: string): (lines: seq<string>)
    ensures lines != []
  {
    if source == "" then [""]
    else
      var rest := SplitLines(source[1..]);
      if source[0] == '\n' then [""] + rest else [[source[0]] + rest[0]] + rest[1..]
  }

  /** The offset of line `k` (0-based) when each earlier line takes its length and a newline. */
  function LineOffset(lines: seq<string>, k: nat): nat
    requires k <= |lines|
  {
    if k == 0 then 0 else LineOffset(lines, k - 1) + |lines[k - 1]| + 1
  }

  lemma {:induction false} LineOffsetShift(lines: seq<string>, k: nat)
    requires 1 <= k <= |lines|
    ensures LineOffset(lines, k) == |lines[0]| + 1 + LineOffset(lines[1..], k - 1)
  {
    if k > 1 {
      LineOffsetShift(lines, k - 1);
      assert lines[k - 1] == lines[1..][k - 2];
    }
  }

  lemma SliceShift(source: string, o: nat, n: nat)
    requires 1 <= o && o + n <= |source|
    ensures source[o..o + n] == source[1..][o - 1..o - 1 + n]
  {
  }

  /** One more character in front: it ends a line of its own, or begins the first one. */
  lemma SplitStep(source: string, rest: seq<string>)
    requires source != "" && rest == SplitLines(source[1..])
    ensures source[0] == '\n' ==> SplitLines(source) == [""] + rest
    ensures source[0] != '\n' ==> SplitLines(source) == [[source[0]] + rest[0]] + rest[1..]
  {
  }

  ghost predicate StandsAt(source: string, o: nat, line: string) {
    o + |line| <= |source| && source[o..o + |line|] == line
  }

  lemma StandsLater(source: string, o: nat, line: string)
    requires source != "" && StandsAt(source[1..], o, line)
    ensures StandsAt(source, o + 1, line)
  {
    SliceShift(source, o + 1, |line|);
  }

  lemma StandsFirst(source: string, line: string)
    requires source != "" && StandsAt(source[1..], 0, line)
    ensures StandsAt(source, 0, [source[0]] + line)
  {
  }

  /** The running offset finds each line in the source. */
  lemma {:induction false} LineInSource(source: string, k: nat)
    requires k < |SplitLines(source)|
    ensures var lines := SplitLines(source); StandsAt(source, LineOffset(lines, k), lines[k])
    decreases |source|, k
  {
    if source != "" {
      var rest := SplitLines(source[1..]);
      SplitStep(source, rest);
      hide SplitLines, StandsAt;
      var lines := SplitLines(source);
      if k > 0 {
        LineOffsetShift(lines, k);
        if source[0] == '\n' {
          LineInSource(source[1..], k - 1);
          assert lines[1..] == rest;
          StandsLater(source, LineOffset(rest, k - 1), lines[k]);
        } else {
          LineInSource(source[1..], k);
          LineOffsetShift(rest, k);
          assert lines[1..] == rest[1..];
          StandsLater(source, LineOffset(rest, k), lines[k]);
        }
      } else if source[0] != '\n' {
        LineInSource(source[1..], 0);
        StandsFirst(source, rest[0]);
      } else {
        NothingStands(source);
      }
    }
  }

  lemma NothingStands(source: string)
    ensures StandsAt(source, 0, "")
  {
  }

  lemma {:induction false} LinesJoin(source: string)
    ensures ExactEdits.Join(SplitLines(source), "\n") == source
    ensures forall k | 0 <= k < |SplitLines(source)| :: '\n' !in SplitLines(source)[k]
  {
    if source != "" {
      LinesJoin(source[1..]);
      var rest := SplitLines(source[1..]);
      SplitStep(source, rest);
      hide SplitLines;
      var lines := SplitLines(source);
      assert source == [source[0]] + source[1..];
      if source[0] == '\n' {
        assert lines[1..] == rest;
      } else {
        assert lines[1..] == rest[1..];
        var first, more := [source[0]], ExactEdits.Join(rest[1..], "\n");
        assert first + (rest[0] + "\n" + more) == first + rest[0] + "\n" + more;
      }
    }
  }

  /** The lines are what the newlines of the source separate. */
  lemma LinesExact(source: string)
    ensures SplitLines(source) == ExactEdits.Split(source, "\n")
    ensures forall line | line in SplitLines(source) :: '\n' !in line
  {
    LinesJoin(source);
    var lines := SplitLines(source);
    hide SplitLines;
    forall k | 0 <= k < |lines|
      ensures !ExactEdits.Includes(lines[k], "\n")
    {
      ExactEdits.LacksCharacter(lines[k], "\n", '\n');
    }
    ExactEdits.SplitJoin(lines, "\n");
  }

  // ----------------------------------------------------------------------- specification

  predicate Covers(r: Range, o: int) {
    r.start <= o < r.end
  }

  ghost predicate Covered(rs: seq<Range>, o: int) {
    exists i :: 0 <= i < |rs| && Covers(rs[i], o)
  }

  /** The comment meets the line; an empty line is met at its own offset. */
  ghost predicate Touches(r: Range, offset: nat, length: nat) {
    exists o: int :: Covers(r, o) && offset <= o && (o < offset + length || (length == 0 && o == offset))
  }

  /** Absolute-offset definition: no comment touches the line, or some non-space
      character of it lies in no comment. */
  ghost predicate Rendered(source: string, comments: seq<Range>, offset: nat, length: nat)
    requires offset + length <= |source|
  {
    || (forall i | 0 <= i < |comments| :: !Touches(comments[i], offset, length))
    || exists o :: offset <= o < offset + length && !IsSpace(source[o]) && !Covered(comments, o)
  }

  // --------------------------------------------------------------- columns of one line

  function Max(a: nat, b: nat): nat {
    if a >= b then a else b
  }

  function Min(a: nat, b: nat): nat {
    if a <= b then a else b
  }

  /** The comment clipped to the line, as columns; `None` when it does not meet it. */
  datatype Clip = Outside | Clip(columns: Range)

  function ClipTo(r: Range, offset: nat, length: nat): Clip {
    var from := Max(r.start, offset);
    var to := Min(r.end, offset + length);
    if from < to || (length == 0 && r.start <= offset && r.end > offset)
    then Clip(Range(from - offset, if to >= offset then to - offset else 0))
    else Outside
  }

  lemma ClipMeets(r: Range, offset: nat, length: nat)
    ensures ClipTo(r, offset, length).Clip? <==> Touches(r, offset, length)
    ensures ClipTo(r, offset, length).Clip? ==>
              var c := ClipTo(r, offset, length).columns;
              c.start <= c.end <= length && forall o | 0 <= o < length :: Covers(c, o) <==> Covers(r, offset + o)
  {
    var from := Max(r.start, offset);
    if ClipTo(r, offset, length).Clip? {
      assert Covers(r, from);
    }
    if Touches(r, offset, length) {
      var o: int :| Covers(r, o) && offset <= o && (o < offset + length || (length == 0 && o == offset));
    }
  }

  /** What `ranges.get(line)` holds: the clips of the comments that meet the line. */
  ghost predicate ColumnsOf(comments: seq<Range>, offset: nat, length: nat, columns: seq<Range>) {
    && (columns == [] <==> forall i | 0 <= i < |comments| :: !Touches(comments[i], offset, length))
    && (forall i | 0 <= i < |columns| :: columns[i].start <= columns[i].end <= length)
    && (forall o | 0 <= o < length :: Covered(columns, o) <==> Covered(comments, offset + o))
  }

  method LineColumns(comments: seq<Range>, offset: nat, length: nat) returns (columns: seq<Range>)
    ensures ColumnsOf(comments, offset, length, columns)
  {
    columns := [];
    assert comments[..0] == [];
    for k := 0 to |comments|
      invariant ColumnsOf(comments[..k], offset, length, columns)
    {
      hide Touches;
      var clip := ClipTo(comments[k], offset, length);
      ClipMeets(comments[k], offset, length);
      assert comments[..k + 1] == comments[..k] + [comments[k]];
      CoveredSnoc(comments[..k], comments[k]);
      if clip.Clip? {
        CoveredSnoc(columns, clip.columns);
        assert Touches((comments[..k] + [comments[k]])[k], offset, length);
        columns := columns + [clip.columns];
      } else {
        NotTouched(comments[k], offset, length);
      }
    }
    assert comments[..|comments|] == comments;
  }

  lemma CoveredSnoc(rs: seq<Range>, r: Range)
    ensures forall o :: Covered(rs + [r], o) <==> Covered(rs, o) || Covers(r, o)
  {
    forall o
      ensures Covered(rs + [r], o) <==> Covered(rs, o) || Covers(r, o)
    {
      if Covered(rs, o) {
        var i :| 0 <= i < |rs| && Covers(rs[i], o);
        assert (rs + [r])[i] == rs[i];
      }
      assert (rs + [r])[|rs|] == r;
    }
  }

  lemma NotTouched(r: Range, offset: nat, length: nat)
    requires !Touches(r, offset, length)
    ensures forall o | offset <= o < offset + length :: !Covers(r, o)
  {
  }

  // ---------------------------------------------------------------------- the column sweep

  ghost predicate HasText(s: string) {
    exists i :: 0 <= i < |s| && !IsSpace(s[i])
  }

  /** Whether anything is left when both ends are trimmed. */
  method TrimHasText(s: string) returns (text: bool)
    ensures text <==> HasText(s)
  {
    for i := 0 to |s|
      invariant forall j | 0 <= j < i :: IsSpace(s[j])
    {
      if !IsSpace(s[i]) {
        return true;
      }
    }
    text := false;
  }

  /** The ranges in the order of their starts. */
  function SortByStart(rs: seq<Range>): (out: seq<Range>)
    ensures multiset(out) == multiset(rs)
  {
    Sort(CompareStarts(), rs)
  }

  function CompareStarts(): (Range, Range) -> int {
    (a: Range, b: Range) => a.start - b.start
  }

  ghost predicate ByStart(rs: seq<Range>) {
    forall i, j | 0 <= i < j < |rs| :: rs[i].start <= rs[j].start
  }

  lemma SortIsByStart(rs: seq<Range>)
    ensures ByStart(SortByStart(rs))
  {
    hide Sort;
    SortSorted(CompareStarts(), (set r | r in rs), rs);
    var out := SortByStart(rs);
    forall i, j | 0 <= i < j < |out|
      ensures out[i].start <= out[j].start
    {
      assert CompareStarts()(out[i], out[j]) <= 0;
    }
  }

  lemma CoveredPermuted(a: seq<Range>, b: seq<Range>, o: int)
    requires multiset(a) == multiset(b) && Covered(a, o)
    ensures Covered(b, o)
  {
    var i :| 0 <= i < |a| && Covers(a[i], o);
    assert a[i] in multiset(b);
    var j :| 0 <= j < |b| && b[j] == a[i];
  }

  /** Some non-space column below `bound` lies in none of the ranges. */
  ghost predicate TextBelow(raw: string, rs: seq<Range>, bound: nat)
    requires bound <= |raw|
  {
    exists c :: 0 <= c < bound && !IsSpace(raw[c]) && !Covered(rs, c)
  }

  /** The sweep so far: everything visible lies before the last start, and from there to
      the cursor all is covered. */
  ghost predicate Swept(raw: string, rs: seq<Range>, k: nat, cursor: nat, visible: string) {
    && k <= |rs| && cursor <= |raw|
    && (forall i | 0 <= i < k :: rs[i].end <= cursor)
    && var last := if k == 0 then 0 else rs[k - 1].start;
    && last <= |raw|
    && (forall c | last <= c < cursor :: Covered(rs[..k], c))
    && (HasText(visible) <==> TextBelow(raw, rs[..k], last))
  }

  function Slice(raw: string, from: nat, to: nat): string
    requires from <= |raw| && to <= |raw|
  {
    if from <= to then raw[from..to] else ""
  }

  lemma SweepStep(raw: string, rs: seq<Range>, k: nat, cursor: nat, visible: string)
    requires ByStart(rs) && k < |rs| && Swept(raw, rs, k, cursor, visible)
    requires forall i | 0 <= i < |rs| :: rs[i].start <= rs[i].end <= |raw|
    ensures Swept(raw, rs, k + 1, Max(cursor, rs[k].end), visible + Slice(raw, cursor, rs[k].start))
  {
    var r := rs[k];
    var last := if k == 0 then 0 else rs[k - 1].start;
    assert rs[..k + 1] == rs[..k] + [r];
    CoveredSnoc(rs[..k], r);
    SweepCovered(raw, rs, k, cursor, last);
    SweepText(raw, rs, k, cursor, last, visible);
  }

  lemma SweepCovered(raw: string, rs: seq<Range>, k: nat, cursor: nat, last: nat)
    requires ByStart(rs) && k < |rs| && cursor <= |raw|
    requires last == if k == 0 then 0 else rs[k - 1].start
    requires forall c | last <= c < cursor :: Covered(rs[..k], c)
    ensures forall c | rs[k].start <= c < Max(cursor, rs[k].end) :: Covered(rs[..k] + [rs[k]], c)
  {
    CoveredSnoc(rs[..k], rs[k]);
  }

  /** The newly visible slice is the uncovered text between the two last starts. */
  lemma SweepText(raw: string, rs: seq<Range>, k: nat, cursor: nat, last: nat, visible: string)
    requires ByStart(rs) && k < |rs| && Swept(raw, rs, k, cursor, visible) && rs[k].start <= |raw|
    requires last == if k == 0 then 0 else rs[k - 1].start
    ensures HasText(visible + Slice(raw, cursor, rs[k].start)) <==> TextBelow(raw, rs[..k] + [rs[k]], rs[k].start)
  {
    var r := rs[k];
    var more := Slice(raw, cursor, r.start);
    CoveredSnoc(rs[..k], r);
    HasTextConcat(visible, more);
    forall c | cursor <= c < r.start
      ensures !Covered(rs[..k], c)
    {
    }
    if HasText(visible) {
      var c :| 0 <= c < last && !IsSpace(raw[c]) && !Covered(rs[..k], c);
      assert !Covered(rs[..k] + [r], c);
    }
    if HasText(more) {
      var i :| 0 <= i < |more| && !IsSpace(more[i]);
      assert !IsSpace(raw[cursor + i]) && !Covered(rs[..k] + [r], cursor + i);
    }
    if TextBelow(raw, rs[..k] + [r], r.start) {
      var c :| 0 <= c < r.start && !IsSpace(raw[c]) && !Covered(rs[..k] + [r], c);
      assert !Covered(rs[..k], c);
      if c >= last {
        assert c >= cursor;
        assert more[c - cursor] == raw[c];
      }
    }
  }

  lemma HasTextConcat(a: string, b: string)
    ensures HasText(a + b) <==> HasText(a) || HasText(b)
  {
    if HasText(a) {
      var i :| 0 <= i < |a| && !IsSpace(a[i]);
      assert (a + b)[i] == a[i];
    }
    if HasText(b) {
      var i :| 0 <= i < |b| && !IsSpace(b[i]);
      assert (a + b)[|a| + i] == b[i];
    }
  }

  /** After the last range, the rest of the line is visible. */
  lemma SweepEnd(raw: string, rs: seq<Range>, cursor: nat, visible: string)
    requires Swept(raw, rs, |rs|, cursor, visible)
    ensures HasText(visible + raw[cursor..]) <==> TextBelow(raw, rs, |raw|)
  {
    var k := |rs|;
    var last := if k == 0 then 0 else rs[k - 1].start;
    var more := raw[cursor..];
    assert rs[..k] == rs;
    HasTextConcat(visible, more);
    if HasText(visible) {
      var c :| 0 <= c < last && !IsSpace(raw[c]) && !Covered(rs, c);
    }
    if HasText(more) {
      var i :| 0 <= i < |more| && !IsSpace(more[i]);
      assert !IsSpace(raw[cursor + i]) && !Covered(rs, cursor + i);
    }
    if TextBelow(raw, rs, |raw|) {
      var c :| 0 <= c < |raw| && !IsSpace(raw[c]) && !Covered(rs, c);
      if c >= last {
        assert c >= cursor;
        assert more[c - cursor] == raw[c];
      }
    }
  }

  /** `hasRenderedTextOutsideComments` on the columns of a line some comment meets. */
  method HasTextOutside(raw: string, columns: seq<Range>) returns (text: bool)
    requires forall i | 0 <= i < |columns| :: columns[i].start <= columns[i].end <= |raw|
    ensures text <==> TextBelow(raw, columns, |raw|)
  {
    hide Swept, ByStart, TextBelow, HasText;
    var cursor: nat := 0;
    var visible := "";
    var sorted := SortByStart(columns);
    SortIsByStart(columns);
    forall i | 0 <= i < |sorted|
      ensures sorted[i].start <= sorted[i].end <= |raw|
    {
      assert sorted[i] in multiset(columns);
      var j :| 0 <= j < |columns| && columns[j] == sorted[i];
    }
    SweepStart(raw, sorted);
    for k := 0 to |sorted|
      invariant cursor <= |raw| && Swept(raw, sorted, k, cursor, visible)
    {
      SweepStep(raw, sorted, k, cursor, visible);
      visible := visible + Slice(raw, cursor, sorted[k].start);
      cursor := Max(cursor, sorted[k].end);
    }
    SweepEnd(raw, sorted, cursor, visible);
    visible := visible + raw[cursor..];
    text := TrimHasText(visible);
    SortedText(raw, columns);
  }

  lemma SweepStart(raw: string, rs: seq<Range>)
    ensures Swept(raw, rs, 0, 0, "")
  {
  }

  lemma SortedText(raw: string, columns: seq<Range>)
    ensures TextBelow(raw, SortByStart(columns), |raw|) <==> TextBelow(raw, columns, |raw|)
  {
    forall c
      ensures Covered(SortByStart(columns), c) <==> Covered(columns, c)
    {
      if Covered(columns, c) {
        CoveredPermuted(columns, SortByStart(columns), c);
      }
      if Covered(SortByStart(columns), c) {
        CoveredPermuted(SortByStart(columns), columns, c);
      }
    }
  }

  /** The per-line column test agrees with the absolute-offset definition. */
  lemma ColumnsAgree(source: string, comments: seq<Range>, offset: nat, raw: string, columns: seq<Range>)
    requires offset + |raw| <= |source| && source[offset..offset + |raw|] == raw
    requires ColumnsOf(comments, offset, |raw|, columns)
    ensures Rendered(source, comments, offset, |raw|) <==> columns == [] || TextBelow(raw, columns, |raw|)
  {
    forall c | 0 <= c < |raw|
      ensures raw[c] == source[offset + c]
    {
    }
    if columns != [] && TextBelow(raw, columns, |raw|) {
      var c :| 0 <= c < |raw| && !IsSpace(raw[c]) && !Covered(columns, c);
      assert !IsSpace(source[offset + c]) && !Covered(comments, offset + c);
    }
    if o :| offset <= o < offset + |raw| && !IsSpace(source[o]) && !Covered(comments, o) {
      assert !IsSpace(raw[o - offset]) && !Covered(columns, o - offset);
    }
  }

  // ------------------------------------------------------------------------- prose lines

  /** Line `k` is outside code and keeps text. */
  ghost predicate Kept(source: string, comments: seq<Range>, fenced: set<nat>, k: nat)
    requires k < |SplitLines(source)|
  {
    var lines := SplitLines(source);
    LineInSource(source, k);
    k + 1 !in fenced && Rendered(source, comments, LineOffset(lines, k), |lines[k]|)
  }

  /** `kept` lists the kept ones among the first `n` lines, in order and verbatim. */
  ghost predicate Listing(source: string, comments: seq<Range>, fenced: set<nat>, n: nat, kept: seq<ProseLine>)
    requires n <= |SplitLines(source)|
  {
    && (forall i | 0 <= i < |kept| ::
          && 1 <= kept[i].index <= n
          && kept[i].raw == SplitLines(source)[kept[i].index - 1]
          && Kept(source, comments, fenced, kept[i].index - 1))
    && (forall i, j | 0 <= i < j < |kept| :: kept[i].index < kept[j].index)
    && (forall k | 0 <= k < n && Kept(source, comments, fenced, k) :: Lists(kept, k + 1))
  }

  ghost predicate Lists(kept: seq<ProseLine>, index: nat) {
    exists i :: 0 <= i < |kept| && kept[i].index == index
  }

  lemma ListsMore(kept: seq<ProseLine>, line: ProseLine, index: nat)
    ensures Lists(kept + [line], index) <==> Lists(kept, index) || line.index == index
  {
    var more := kept + [line];
    assert more[|kept|] == line;
    if Lists(kept, index) {
      var i :| 0 <= i < |kept| && kept[i].index == index;
      assert more[i].index == index;
    }
  }

  lemma ListingStep(source: string, comments: seq<Range>, fenced: set<nat>, n: nat, kept: seq<ProseLine>)
    requires n < |SplitLines(source)| && Listing(source, comments, fenced, n, kept)
    ensures Listing(source, comments, fenced, n + 1,
                    if Kept(source, comments, fenced, n) then kept + [ProseLine(n + 1, SplitLines(source)[n])]
                    else kept)
  {
    hide Kept, SplitLines, Lists;
    var line := ProseLine(n + 1, SplitLines(source)[n]);
    if Kept(source, comments, fenced, n) {
      forall k | 0 <= k < n + 1 && Kept(source, comments, fenced, k)
        ensures Lists(kept + [line], k + 1)
      {
        ListsMore(kept, line, k + 1);
      }
    }
  }

  /** `markdownProseLines`: exactly the kept lines, in order and verbatim. */
  method ProseLines(source: string, comments: seq<Range>, fenced: set<nat>) returns (kept: seq<ProseLine>)
    ensures Listing(source, comments, fenced, |SplitLines(source)|, kept)
  {
    hide Rendered, ColumnsOf, TextBelow, SplitLines, Listing;
    kept := [];
    var lines := SplitLines(source);
    var offset: nat := 0;
    EmptyListing(source, comments, fenced);
    for k := 0 to |lines|
      invariant offset == LineOffset(lines, k)
      invariant Listing(source, comments, fenced, k, kept)
    {
      var raw := lines[k];
      LineInSource(source, k);
      var columns := LineColumns(comments, offset, |raw|);
      ColumnsAgree(source, comments, offset, raw, columns);
      var text := columns == [];
      if columns != [] {
        ColumnsInside(comments, offset, |raw|, columns);
        text := HasTextOutside(raw, columns);
      }
      ListingStep(source, comments, fenced, k, kept);
      if k + 1 !in fenced && text {
        kept := kept + [ProseLine(k + 1, raw)];
      }
      offset := offset + |raw| + 1;
    }
  }

  lemma EmptyListing(source: string, comments: seq<Range>, fenced: set<nat>)
    ensures Listing(source, comments, fenced, 0, [])
  {
  }

  lemma ColumnsInside(comments: seq<Range>, offset: nat, length: nat, columns: seq<Range>)
    requires ColumnsOf(comments, offset, length, columns)
    ensures forall i | 0 <= i < |columns| :: columns[i].start <= columns[i].end <= length
  {
  }
}
