/**
  The destination scanner on whole nodes: for which links, images and definitions the range it
  answers is exactly the destination's, and what writing over that range does.
*/
module MarkdownDestination {
  import opened Whitespace
  import opened MarkdownScanner
  import opened MarkdownGrammar
  import opened MarkdownTarget

  // ---------- Whole nodes ----------

  function Delimiter(kind: Kind): char {
    if kind == Inline then '(' else ':'
  }

  /** Everything in front of a destination: the image mark, the label, the delimiter, white space. */
  function Header(before: string, name: string, kind: Kind, gap: string): string {
    before + "[" + name + "]" + [Delimiter(kind)] + gap
  }

  ghost predicate IsHeader(before: string, name: string, gap: string) {
    '[' !in before && IsLabel(name) && AllSpace(gap)
  }

  lemma HeaderParts(before: string, name: string, kind: Kind, gap: string, rest: string)
    ensures var raw := Header(before, name, kind, gap) + rest;
      var end := |before| + 1 + |name|;
      && |Header(before, name, kind, gap)| == end + 2 + |gap|
      && raw[..|before|] == before && raw[|before|] == '['
      && raw[|before| + 1..end] == name && raw[end] == ']' && raw[end + 1] == Delimiter(kind)
      && raw[end + 2..end + 2 + |gap|] == gap && raw[end + 2 + |gap|..] == rest
  {
    HeaderSpread(before, name, Delimiter(kind), gap, rest);
  }

  lemma HeaderSpread(before: string, name: string, d: char, gap: string, rest: string)
    ensures var raw := before + "[" + name + "]" + [d] + gap + rest;
      var end := |before| + 1 + |name|;
      && raw[..|before|] == before && raw[|before|] == '['
      && raw[|before| + 1..end] == name && raw[end] == ']' && raw[end + 1] == d
      && raw[end + 2..end + 2 + |gap|] == gap && raw[end + 2 + |gap|..] == rest
  {
  }

  lemma StartExact(before: string, name: string, kind: Kind, gap: string, rest: string)
    requires IsHeader(before, name, gap) && (rest == "" || !IsSpace(rest[0]))
    ensures StartOf(Header(before, name, kind, gap) + rest, kind) == Found(|Header(before, name, kind, gap)|)
  {
    hide IsLabel, Header, IsSpace, LabelEndOf;
    var raw := Header(before, name, kind, gap) + rest;
    var end := |before| + 1 + |name|;
    HeaderParts(before, name, kind, gap, rest);
    assert IndexFrom(raw, '[', 0) == |before| by {
      assert forall j | 0 <= j < |before| :: raw[j] == raw[..|before|][j];
    }
    LabelEndFinds(raw, |before|, end);
    forall j | end + 2 <= j < end + 2 + |gap| ensures IsSpace(raw[j]) {
      assert raw[j] == raw[end + 2..end + 2 + |gap|][j - (end + 2)];
    }
    assert rest != "" ==> raw[end + 2 + |gap|] == raw[end + 2 + |gap|..][0];
    SkipSpaceIs(raw, end + 2, end + 2 + |gap|);
  }

  lemma SkipSpaceIs(s: string, i: nat, r: nat)
    requires i <= r <= |s| && (forall j | i <= j < r :: IsSpace(s[j])) && (r < |s| ==> !IsSpace(s[r]))
    ensures SkipSpace(s, i) == r
  {
    hide IsSpace;
    var k := SkipSpace(s, i);
    assert k <= |s|;
    assert k < |s| ==> !IsSpace(s[k]);
  }

  /** A bare destination begins with neither white space nor a closing parenthesis. */
  lemma BareBegins(text: string)
    requires IsBare(text) && text != ""
    ensures !IsSpace(text[0]) && text[0] != ')'
  {
    MarksAreNotSpace();
    hide IsSpace;
    var t :| Proper(t, '(', ')') && Tight(t) && Render(t, '(', ')') == text;
  }

  lemma MarksAreNotSpace()
    ensures forall c | c in "()<>\\" :: !IsSpace(c)
  {
  }

  /** What may follow what the scanner reads: nothing, white space, or the parenthesis that closes the
      link, which a dangling backslash would have escaped. */
  predicate Follows(after: string, dangling: bool) {
    after == "" || IsSpace(after[0]) || (after[0] == ')' && !dangling)
  }

  lemma BareTail(s: string, k: nat, dangling: bool, after: string)
    requires Follows(after, dangling)
    requires k + |Ending(dangling)| + |after| == |s| && s[k..] == Ending(dangling) + after
    ensures BareScan(s, k, 0) == k + |Ending(dangling)| <==> !dangling || after == ""
  {
    MarksAreNotSpace();
    hide BareScan, IsSpace;
    BareDone(s, k, 0);
    BareDone(s, k + 2, 0);
    if k < |s| {
      assert s[k] == (Ending(dangling) + after)[0];
      BareStep(s, k, 0);
    }
  }

  /** The end of a bare destination is found exactly when no dangling backslash stands before the
      white space that ends it: the scanner takes that white space for an escaped character. */
  lemma BareEndExact(s: string, i: nat, bare: string, dangling: bool, after: string)
    requires IsBare(bare) && Follows(after, dangling)
    requires i + |bare + Ending(dangling)| + |after| == |s| && s[i..] == bare + Ending(dangling) + after
    ensures BareScan(s, i, 0) == i + |bare + Ending(dangling)| <==> !dangling || after == ""
  {
    var t :| Proper(t, '(', ')') && Tight(t) && Render(t, '(', ')') == bare;
    hide *;
    var rest := Ending(dangling) + after;
    assert bare + Ending(dangling) + after == bare + rest;
    SuffixParts(s, i, bare, rest);
    BareSkips(s, i, 0, t);
    BareTail(s, i + |bare|, dangling, after);
  }

  lemma SuffixParts(s: string, i: nat, a: string, b: string)
    requires i <= |s| && s[i..] == a + b
    ensures i + |a| + |b| == |s| && Holds(s, i, a) && s[i + |a|..] == b
  {
    assert |s[i..]| == |a| + |b|;
    assert s[i..i + |a|] == s[i..][..|a|];
    assert s[i + |a|..] == s[i..][|a|..];
  }

  /** A node with text the scanner takes for bare: the answer is its exact range unless a dangling
      backslash stands before white space. */
  lemma ScannedExact(before: string, name: string, kind: Kind, gap: string, bare: string, dangling: bool, after: string)
    requires IsHeader(before, name, gap) && IsBare(bare) && Follows(after, dangling)
    requires bare == "" && !dangling ==> after == "" || after[0] == ')'
    requires bare != "" ==> bare[0] != '<'
    ensures var head, text := Header(before, name, kind, gap), bare + Ending(dangling);
      DestinationOf(head + text + after, kind) == Range(|head|, |head| + |text|) <==> !dangling || after == ""
  {
    MarksAreNotSpace();
    hide IsHeader, IsBare, IsSpace, Header, StartOf, BareScan, AngleScan;
    var head, text := Header(before, name, kind, gap), bare + Ending(dangling);
    var raw := head + text + after;
    assert raw == head + (text + after) && raw[|head|..] == text + after;
    if bare != "" { BareBegins(bare); }
    assert text + after != "" ==> raw[|head|] == (text + after)[0];
    StartExact(before, name, kind, gap, text + after);
    BareEndExact(raw, |head|, bare, dangling, after);
  }

  /** What may follow a destination in a node: nothing, white space as the standard knows it, or the
      parenthesis that closes the link. */
  predicate Ends(after: string) {
    after == "" || after[0] in " \t\n\r)"
  }

  lemma EndsFollows(t: Text, after: string)
    requires Destines(t, after) && Ends(after)
    ensures Follows(after, Dangles(t))
  {
    if Dangles(t) {
      DanglesBefore(t, after);
    }
  }

  /** A link, image or definition with a destination of the standard: the answer is its exact range
      if and only if it has no other white space outside parentheses than behind a backslash, and no
      dangling backslash stands before the white space that ends it. */
  lemma BareExact(before: string, name: string, kind: Kind, gap: string, t: Text, after: string)
    requires IsHeader(before, name, gap) && Destines(t, after) && Ends(after)
    requires t == End ==> after == "" || after[0] == ')'
    requires t != End ==> Render(t, '(', ')')[0] != '<'
    ensures var head, text := Header(before, name, kind, gap), Render(t, '(', ')');
      DestinationOf(head + text + after, kind) == Range(|head|, |head| + |text|)
      <==> !Exposed(t) && (Dangles(t) ==> after == "")
  {
    PairedReads(t, after);
    EndsFollows(t, after);
    var text, bare := Render(t, '(', ')'), Render(Paired(t), '(', ')');
    if !Exposed(t) {
      assert IsBare(bare);
      RenderEmpty(t);
      hide *;
      ScannedExact(before, name, kind, gap, bare, Dangles(t), after);
    } else {
      ExposedFails(before, name, kind, gap, t, after);
    }
  }

  lemma RenderEmpty(t: Text)
    ensures Render(t, '(', ')') == "" <==> t == End
  {
  }

  lemma ExposedFails(before: string, name: string, kind: Kind, gap: string, t: Text, after: string)
    requires IsHeader(before, name, gap) && Destines(t, after) && Exposed(t) && t != End
    requires Render(t, '(', ')')[0] != '<'
    ensures var head, text := Header(before, name, kind, gap), Render(t, '(', ')');
      DestinationOf(head + text + after, kind) != Range(|head|, |head| + |text|)
  {
    RenderEmpty(t);
    PairedReads(t, after);
    hide IsHeader, IsSpace, Header, StartOf, BareScan, AngleScan, Render, Destines, Exposed, Tight, Proper;
    var head, text := Header(before, name, kind, gap), Render(t, '(', ')');
    var raw, rest := head + text + after, text + after;
    assert raw == head + rest && rest[0] == text[0];
    if IsSpace(rest[0]) {
      StartLate(before, name, kind, gap, rest);
      hide DestinationOf;
      Answer(raw, kind, StartOf(raw, kind).index);
    } else {
      StartExact(before, name, kind, gap, rest);
      ExposedScan(raw, |head|, t, after);
      assert raw[|head|] == rest[0];
      hide DestinationOf;
      Answer(raw, kind, |head|);
    }
  }

  lemma ExposedScan(raw: string, i: nat, t: Text, after: string)
    requires Destines(t, after) && Exposed(t) && i <= |raw| && raw[i..] == Render(t, '(', ')') + after
    ensures BareScan(raw, i, 0) < i + |Render(t, '(', ')')|
  {
    PairedReads(t, after);
    hide *;
    var bare, tail := Render(Paired(t), '(', ')'), Ending(Dangles(t)) + after;
    assert bare + Ending(Dangles(t)) + after == bare + tail;
    SuffixParts(raw, i, bare, tail);
    BareShort(raw, i, Paired(t));
  }

  /** White space in front of the destination belongs to what is skipped. */
  lemma StartLate(before: string, name: string, kind: Kind, gap: string, rest: string)
    requires IsHeader(before, name, gap) && rest != "" && IsSpace(rest[0])
    ensures var head := Header(before, name, kind, gap);
      var start := StartOf(head + rest, kind);
      start.Found? && start.index > |head|
  {
    hide IsLabel, IsSpace, StartOf;
    var n := SkipSpace(rest, 0);
    var longer := gap + rest[..n];
    assert n > 0;
    assert AllSpace(longer);
    assert Header(before, name, kind, longer) == Header(before, name, kind, gap) + rest[..n];
    assert Header(before, name, kind, longer) + rest[n..] == Header(before, name, kind, gap) + rest;
    StartExact(before, name, kind, longer, rest[n..]);
  }

  /** A destination the scanner finds exactly may be written where a bare one stands. */
  lemma DestinationFits(t: Text, after: string)
    requires Destines(t, after) && !Exposed(t) && !Dangles(t)
    ensures IsBare(Render(t, '(', ')'))
  {
    PairedReads(t, after);
    assert Render(Paired(t), '(', ')') + "" == Render(Paired(t), '(', ')');
  }

  /** A node with a bracketed destination: the answer is the inside of the brackets. */
  lemma AngledExact(before: string, name: string, kind: Kind, gap: string, inside: string, after: string)
    requires IsHeader(before, name, gap) && IsAngled(inside)
    ensures var head := Header(before, name, kind, gap);
      DestinationOf(head + "<" + inside + ">" + after, kind) == Range(|head| + 1, |head| + 1 + |inside|)
  {
    MarksAreNotSpace();
    hide IsHeader, IsAngled, IsSpace, Header, StartOf, BareScan, AngleScan;
    var head := Header(before, name, kind, gap);
    var raw := head + "<" + inside + ">" + after;
    var rest := "<" + inside + ">" + after;
    assert raw == head + rest;
    StartExact(before, name, kind, gap, rest);
    HoldsIn(head + "<", inside, ">" + after);
    assert raw == head + "<" + inside + (">" + after);
    AngleScanFinds(raw, |head| + 1, inside);
  }

  /** A link to the destination `b` and a backslash, with the title `c`: the scanner takes the
      white space behind the backslash for an escaped character and the title for the rest of
      the destination. */
  lemma DanglingBackslashOverruns()
    ensures var raw, t := "[a](b\\ \"c\")", BackslashTarget();
      && IsHeader("", "a", "") && Destines(t, " \"c\")") && Ends(" \"c\")") && Dangles(t) && !Exposed(t)
      && raw == Header("", "a", Inline, "") + Render(t, '(', ')') + " \"c\")"
      && raw[4..6] == Render(t, '(', ')') && DestinationOf(raw, Inline) == Range(4, 10)
  {
    var raw, rest := "[a](b\\ \"c\")", "b\\ \"c\")";
    LabelIsPlain();
    BackslashRendered();
    assert AllSpace("");
    assert Header("", "a", Inline, "") == "[a](" && "[a](" + rest == raw;
    hide Header, BackslashTarget, Destines, Exposed, Dangles, Render, IsLabel, StartOf, BareScan;
    StartExact("", "a", Inline, "", rest);
    OverrunScan();
    Answer(raw, Inline, 4);
  }

  function BackslashTarget(): Text {
    Plain('b', Plain('\\', End))
  }

  lemma BackslashRendered()
    ensures var t := BackslashTarget();
      Render(t, '(', ')') == "b\\" && Destines(t, " \"c\")") && Dangles(t) && !Exposed(t)
  {
    assert Render(Plain('\\', End), '(', ')') == "\\" && "" + " \"c\")" == " \"c\")";
  }

  /** No title is part of a destination: it stands behind white space. */
  lemma TitleIsNoDestination(t: Text, follow: string)
    requires Destines(t, follow)
    ensures Render(t, '(', ')') != "b\\ \"c\""
  {
    DestinesBlankFree(t, follow);
    assert "b\\ \"c\""[2] == ' ';
  }

  /** A destination with a no-break space: for the standard it is one destination, and the scanner
      stops at the space. */
  lemma NoBreakSpaceStops()
    ensures var raw, t := "[a](b\U{A0}c)", NoBreakTarget();
      && IsHeader("", "a", "") && Destines(t, ")") && Ends(")") && !Dangles(t) && Exposed(t)
      && raw == Header("", "a", Inline, "") + Render(t, '(', ')') + ")"
      && raw[4..7] == Render(t, '(', ')') && DestinationOf(raw, Inline) == Range(4, 5)
  {
    var raw, rest := "[a](b\U{A0}c)", "b\U{A0}c)";
    LabelIsPlain();
    NoBreakRendered();
    assert AllSpace("");
    assert Header("", "a", Inline, "") == "[a](" && "[a](" + rest == raw;
    hide Header, NoBreakTarget, Destines, Exposed, Dangles, Render, IsLabel, StartOf, BareScan;
    StartExact("", "a", Inline, "", rest);
    BareStep(raw, 4, 0);
    BareStep(raw, 5, 0);
    Answer(raw, Inline, 4);
  }

  function NoBreakTarget(): Text {
    Plain('b', Plain('\U{A0}', Plain('c', End)))
  }

  lemma NoBreakRendered()
    ensures var t := NoBreakTarget();
      Render(t, '(', ')') == "b\U{A0}c" && Destines(t, ")") && !Dangles(t) && Exposed(t)
  {
    assert Render(Plain('c', End), '(', ')') == "c";
    assert Render(Plain('\U{A0}', Plain('c', End)), '(', ')') == "\U{A0}c";
  }

  lemma OverrunScan()
    ensures BareScan("[a](b\\ \"c\")", 4, 0) == 10
  {
    hide BareScan;
    var raw := "[a](b\\ \"c\")";
    BareStep(raw, 4, 0);
    BareStep(raw, 5, 0);
    BareStep(raw, 7, 0);
    BareStep(raw, 8, 0);
    BareStep(raw, 9, 0);
    BareStep(raw, 10, 0);
  }

  lemma LabelIsPlain()
    ensures IsLabel("a")
  {
    var t := Plain('a', End);
    assert Proper(t, '[', ']') && Render(t, '[', ']') == "a";
  }

  // ---------- Rewriting a destination in place ----------

  ghost predicate SameTo(s: string, t: string, n: nat) {
    n <= |s| && n <= |t| && forall j | 0 <= j < n :: s[j] == t[j]
  }

  lemma PrefixSame(s: string, t: string, n: nat)
    requires n <= |s| && n <= |t| && s[..n] == t[..n]
    ensures SameTo(s, t, n)
  {
    assert forall j | 0 <= j < n :: s[j] == s[..n][j] && t[j] == t[..n][j];
  }

  lemma {:induction false} LabelLocal(s: string, t: string, i: nat, depth: int)
    requires LabelScan(s, i, depth) >= 0 && SameTo(s, t, LabelScan(s, i, depth) + 1)
    ensures LabelScan(t, i, depth) == LabelScan(s, i, depth)
    decreases |s| - i
  {
    assert s[i] == t[i];
    LabelStep(s, i, depth);
    LabelStep(t, i, depth);
    hide LabelScan, SameTo;
    if s[i] == '\\' {
      LabelLocal(s, t, i + 2, depth);
    } else if s[i] == '[' {
      LabelLocal(s, t, i + 1, depth + 1);
    } else if s[i] != ']' {
      LabelLocal(s, t, i + 1, depth);
    } else if depth != 1 {
      LabelLocal(s, t, i + 1, depth - 1);
    }
  }

  lemma IndexFromIs(s: string, c: char, i: nat, r: nat)
    requires i <= r < |s| && s[r] == c && forall j | i <= j < r :: s[j] != c
    ensures IndexFrom(s, c, i) == r
  {
  }

  lemma IndexLocal(s: string, t: string, c: char, i: nat)
    requires IndexFrom(s, c, i) >= 0 && SameTo(s, t, IndexFrom(s, c, i) + 1)
    ensures IndexFrom(t, c, i) == IndexFrom(s, c, i)
  {
    hide IndexFrom;
    IndexFromIs(t, c, i, IndexFrom(s, c, i));
  }

  /** Where a destination starts depends only on what stands before it. */
  lemma StartLocal(s: string, t: string, kind: Kind, a: nat)
    requires StartOf(s, kind) == Found(a) && SameTo(s, t, a) && (a < |t| ==> !IsSpace(t[a]))
    ensures StartOf(t, kind) == Found(a)
  {
    hide LabelScan, IndexFrom, SkipSpace, IsSpace;
    var end := LabelEndOf(s);
    var first := IndexFrom(s, '[', 0);
    IndexLocal(s, t, '[', 0);
    LabelLocal(s, t, first, 0);
    if kind == Definition {
      var colon := IndexFrom(s, ':', end + 1);
      IndexLocal(s, t, ':', end + 1);
      SkipSpaceIs(t, colon + 1, a);
    } else {
      SkipSpaceIs(t, end + 2, a);
    }
  }

  function Replaced(raw: string, range: Destination, text: string): string
    requires range.Range? && range.start <= range.end <= |raw|
  {
    raw[..range.start] + text + raw[range.end..]
  }

  /** `text` may stand where the destination of `raw` stands. */
  ghost predicate Fits(raw: string, start: nat, text: string) {
    if Bracketed(raw, start) then IsAngled(text)
    else IsBare(text) && text != "" && text[0] != '<'
  }

  lemma Answer(raw: string, kind: Kind, start: nat)
    requires StartOf(raw, kind) == Found(start)
    ensures !Bracketed(raw, start) ==> DestinationOf(raw, kind) == Range(start, BareScan(raw, start, 0))
    ensures Bracketed(raw, start) ==> var end := AngleScan(raw, start + 1);
      DestinationOf(raw, kind) == if end == -1 then NoAngleEnd else Range(start + 1, end)
  {
    hide StartOf, BareScan, AngleScan;
  }

  lemma BareRewrite(raw: string, kind: Kind, start: nat, text: string)
    requires StartOf(raw, kind) == Found(start) && !Bracketed(raw, start) && Fits(raw, start, text)
    ensures var end := BareScan(raw, start, 0);
      DestinationOf(Replaced(raw, Range(start, end), text), kind) == Range(start, start + |text|)
  {
    var end := BareScan(raw, start, 0);
    var after := raw[end..];
    BareBegins(text);
    if end < |raw| { BareStops(raw, start, 0); }
    hide StartOf, BareScan, IsBare, IsSpace, DestinationOf;
    var out := Replaced(raw, Range(start, end), text);
    ReplacedParts(raw, start, end, text);
    ReplacedTail(raw, start, end, text);
    hide Replaced, Holds;
    PrefixSame(raw, out, start);
    StartLocal(raw, out, kind, start);
    assert text + Ending(false) == text;
    BareEndExact(out, start, text, false, after);
    Answer(out, kind, start);
  }

  lemma ReplacedTail(raw: string, start: nat, end: nat, text: string)
    requires start <= end <= |raw|
    ensures Replaced(raw, Range(start, end), text)[start..] == text + raw[end..]
    ensures text != "" ==> Replaced(raw, Range(start, end), text)[start] == text[0]
  {
  }

  lemma ReplacedParts(raw: string, start: nat, end: nat, text: string)
    requires start <= end <= |raw|
    ensures var out := Replaced(raw, Range(start, end), text);
      && |out| == start + |text| + |raw| - end
      && out[..start] == raw[..start]
      && Holds(out, start, text)
      && (end < |raw| ==> out[start + |text|] == raw[end])
  {
    HoldsIn(raw[..start], text, raw[end..]);
  }

  lemma AngledRewrite(raw: string, kind: Kind, start: nat, text: string)
    requires StartOf(raw, kind) == Found(start) && Bracketed(raw, start) && IsAngled(text)
    requires AngleScan(raw, start + 1) >= 0
    ensures var end := AngleScan(raw, start + 1);
      DestinationOf(Replaced(raw, Range(start + 1, end), text), kind) == Range(start + 1, start + 1 + |text|)
  {
    MarksAreNotSpace();
    hide StartOf, IsAngled, IsSpace, AngleScan, BareScan, DestinationOf, Replaced, Holds;
    var end := AngleScan(raw, start + 1);
    var out := Replaced(raw, Range(start + 1, end), text);
    AngleStops(raw, start + 1);
    ReplacedParts(raw, start + 1, end, text);
    PrefixSame(raw, out, start + 1);
    StartLocal(raw, out, kind, start);
    AngleScanFinds(out, start + 1, text);
    Answer(out, kind, start);
  }

  /** Whatever the node, a fitting destination written over the range found is the one found next,
      and nothing else of the node has changed. */
  lemma RewriteReadsBack(raw: string, kind: Kind, text: string)
    requires DestinationOf(raw, kind).Range? && Fits(raw, StartOf(raw, kind).index, text)
    ensures var range := DestinationOf(raw, kind);
      range.start <= range.end <= |raw| &&
      var out := Replaced(raw, range, text);
      var found := DestinationOf(out, kind);
      && found == Range(range.start, range.start + |text|)
      && out[found.start..found.end] == text
      && Replaced(out, found, raw[range.start..range.end]) == raw
  {
    hide StartOf, AngleScan, BareScan, Replaced, IsBare, IsAngled;
    var start := StartOf(raw, kind).index;
    var range := DestinationOf(raw, kind);
    Answer(raw, kind, start);
    if Bracketed(raw, start) {
      AngledRewrite(raw, kind, start, text);
    } else {
      BareRewrite(raw, kind, start, text);
    }
    ReplacedBack(raw, range, text);
  }

  lemma ReplacedBack(raw: string, range: Destination, text: string)
    requires range.Range? && range.start <= range.end <= |raw|
    ensures var out := Replaced(raw, range, text);
      var found := Range(range.start, range.start + |text|);
      && out[found.start..found.end] == text
      && Replaced(out, found, raw[range.start..range.end]) == raw
  {
    var out := Replaced(raw, range, text);
    assert out[range.start + |text|..] == raw[range.end..];
  }
}
