/**
  A grammar for what the destination scanner reads. `Render` writes a tree of plain characters,
  escapes and groups; the scans stop exactly at the end of what the grammar writes.
*/
module MarkdownGrammar {
  import opened Whitespace
  import opened MarkdownScanner

  // ---------- The grammar ----------

  /** Nested text: plain characters, escaped characters and bracketed groups, in order. */
  datatype Text =
    | End
    | Plain(c: char, rest: Text)
    | Escaped(c: char, rest: Text)
    | Group(inner: Text, rest: Text)

  function Render(t: Text, open: char, close: char): string {
    match t
    case End => ""
    case Plain(c, rest) => [c] + Render(rest, open, close)
    case Escaped(c, rest) => ['\\', c] + Render(rest, open, close)
    case Group(inner, rest) =>
      [open] + Render(inner, open, close) + [close] + Render(rest, open, close)
  }

  /** No plain character is a delimiter or a backslash. */
  predicate Proper(t: Text, open: char, close: char) {
    match t
    case End => true
    case Plain(c, rest) => c != open && c != close && c != '\\' && Proper(rest, open, close)
    case Escaped(_, rest) => Proper(rest, open, close)
    case Group(inner, rest) => Proper(inner, open, close) && Proper(rest, open, close)
  }

  /** No white space outside groups but behind a backslash. */
  predicate Tight(t: Text) {
    match t
    case End => true
    case Plain(c, rest) => !IsSpace(c) && Tight(rest)
    case Escaped(_, rest) => Tight(rest)
    case Group(_, rest) => Tight(rest)
  }

  predicate Flat(t: Text) {
    match t
    case End => true
    case Plain(_, rest) => Flat(rest)
    case Escaped(_, rest) => Flat(rest)
    case Group(_, _) => false
  }

  /** `text` is a label: its unescaped brackets are balanced. */
  ghost predicate IsLabel(text: string) {
    exists t :: Proper(t, '[', ']') && Render(t, '[', ']') == text
  }

  /** `text` is what the scanner reads as one bare destination, a backslash taking any character with
      it: the other parentheses are balanced, and no other white space stands outside them. */
  ghost predicate IsBare(text: string) {
    exists t :: Proper(t, '(', ')') && Tight(t) && Render(t, '(', ')') == text
  }

  /** `text` is the inside of a bracketed destination: every `>` in it is escaped. */
  ghost predicate IsAngled(text: string) {
    exists t :: Proper(t, '>', '>') && Flat(t) && Render(t, '>', '>') == text
  }

  // ---------- Text at a position ----------

  predicate Holds(s: string, i: nat, text: string) {
    i + |text| <= |s| && s[i..i + |text|] == text
  }

  lemma HoldsSplit(s: string, i: nat, a: string, b: string)
    requires Holds(s, i, a + b)
    ensures Holds(s, i, a) && Holds(s, i + |a|, b)
  {
    var c := a + b;
    assert s[i..i + |c|][..|a|] == a;
    assert s[i..i + |c|][|a|..] == b;
  }

  lemma HoldsIn(before: string, text: string, after: string)
    ensures Holds(before + text + after, |before|, text)
  {
  }

  lemma HoldsChar(s: string, i: nat, c: char, text: string)
    requires Holds(s, i, [c] + text)
    ensures i < |s| && s[i] == c && Holds(s, i + 1, text)
  {
    HoldsSplit(s, i, [c], text);
    assert s[i..i + 1][0] == c;
  }

  lemma HoldsEscape(s: string, i: nat, c: char, text: string)
    requires Holds(s, i, ['\\', c] + text)
    ensures i + 1 < |s| && s[i] == '\\' && Holds(s, i + 2, text)
  {
    assert ['\\', c] + text == ['\\'] + ([c] + text);
    HoldsChar(s, i, '\\', [c] + text);
    HoldsChar(s, i + 1, c, text);
  }

  lemma GroupRender(t: Text, open: char, close: char)
    requires t.Group?
    ensures Render(t, open, close)
         == [open] + (Render(t.inner, open, close) + ([close] + Render(t.rest, open, close)))
  {
  }

  /** Skips the first group of `t` at `i`: its bracket, its inside and its closing bracket. */
  lemma GroupHolds(s: string, i: nat, t: Text, open: char, close: char)
    requires t.Group? && Holds(s, i, Render(t, open, close))
    ensures s[i] == open
    ensures Holds(s, i + 1, Render(t.inner, open, close))
    ensures var j := i + 1 + |Render(t.inner, open, close)|;
      j < |s| && s[j] == close && Holds(s, j + 1, Render(t.rest, open, close))
  {
    GroupRender(t, open, close);
    hide Holds, Render;
    var inner, rest := Render(t.inner, open, close), Render(t.rest, open, close);
    HoldsChar(s, i, open, inner + ([close] + rest));
    HoldsSplit(s, i + 1, inner, [close] + rest);
    HoldsChar(s, i + 1 + |inner|, close, rest);
  }

  lemma RenderStarts(s: string, i: nat, t: Text, open: char, close: char)
    requires t != End && Holds(s, i, Render(t, open, close))
    ensures i < |s|
  {
    assert Render(t, open, close) != "";
  }

  // ---------- Scanning what the grammar writes ----------

  lemma {:induction false} LabelSkips(s: string, i: nat, depth: int, t: Text)
    requires depth >= 1 && Proper(t, '[', ']') && Holds(s, i, Render(t, '[', ']'))
    ensures LabelScan(s, i, depth) == LabelScan(s, i + |Render(t, '[', ']')|, depth)
    decreases t
  {
    hide Holds, LabelScan, IsSpace;
    if t != End { RenderStarts(s, i, t, '[', ']'); LabelStep(s, i, depth); }
    match t
    case End =>
    case Plain(c, rest) =>
      HoldsChar(s, i, c, Render(rest, '[', ']'));
      LabelSkips(s, i + 1, depth, rest);
    case Escaped(c, rest) =>
      HoldsEscape(s, i, c, Render(rest, '[', ']'));
      LabelSkips(s, i + 2, depth, rest);
    case Group(inner, rest) =>
      GroupHolds(s, i, t, '[', ']');
      LabelSkips(s, i + 1, depth + 1, inner);
      LabelStep(s, i + 1 + |Render(inner, '[', ']')|, depth + 1);
      LabelSkips(s, i + 2 + |Render(inner, '[', ']')|, depth, rest);
  }

  lemma {:induction false} BareSkips(s: string, i: nat, depth: nat, t: Text)
    requires Proper(t, '(', ')') && Holds(s, i, Render(t, '(', ')'))
    requires depth > 0 || Tight(t)
    ensures BareScan(s, i, depth) == BareScan(s, i + |Render(t, '(', ')')|, depth)
    decreases t
  {
    hide Holds, BareScan, IsSpace;
    if t != End { RenderStarts(s, i, t, '(', ')'); BareStep(s, i, depth); }
    match t
    case End =>
    case Plain(c, rest) =>
      HoldsChar(s, i, c, Render(rest, '(', ')'));
      BareSkips(s, i + 1, depth, rest);
    case Escaped(c, rest) =>
      HoldsEscape(s, i, c, Render(rest, '(', ')'));
      BareSkips(s, i + 2, depth, rest);
    case Group(inner, rest) =>
      GroupHolds(s, i, t, '(', ')');
      BareSkips(s, i + 1, depth + 1, inner);
      BareStep(s, i + 1 + |Render(inner, '(', ')')|, depth + 1);
      BareSkips(s, i + 2 + |Render(inner, '(', ')')|, depth, rest);
  }

  lemma {:induction false} AngleSkips(s: string, i: nat, t: Text)
    requires Proper(t, '>', '>') && Flat(t) && Holds(s, i, Render(t, '>', '>'))
    ensures AngleScan(s, i) == AngleScan(s, i + |Render(t, '>', '>')|)
    decreases t
  {
    match t
    case End =>
    case Plain(c, rest) =>
      HoldsChar(s, i, c, Render(rest, '>', '>'));
      AngleSkips(s, i + 1, rest);
    case Escaped(c, rest) =>
      HoldsEscape(s, i, c, Render(rest, '>', '>'));
      AngleSkips(s, i + 2, rest);
  }

  // ---------- Reading back what the scanner accepts ----------

  /** The texts of the groups still open, innermost first; each but the last with its closing. */
  function Nested(ts: seq<Text>, open: char, close: char): string
    requires ts != []
  {
    if |ts| == 1 then Render(ts[0], open, close)
    else Render(ts[0], open, close) + [close] + Nested(ts[1..], open, close)
  }

  ghost predicate AllProper(ts: seq<Text>, open: char, close: char) {
    forall k | 0 <= k < |ts| :: Proper(ts[k], open, close)
  }

  /** A token in front of the innermost text. */
  lemma NestedFront(token: string, t: Text, ts: seq<Text>, open: char, close: char)
    requires ts != [] && Render(t, open, close) == token + Render(ts[0], open, close)
    ensures Nested([t] + ts[1..], open, close) == token + Nested(ts, open, close)
  {
    hide Render;
    assert ([t] + ts[1..])[1..] == ts[1..];
  }

  lemma NestedPlain(c: char, ts: seq<Text>, open: char, close: char)
    requires ts != []
    ensures Nested([Plain(c, ts[0])] + ts[1..], open, close) == [c] + Nested(ts, open, close)
  {
    NestedFront([c], Plain(c, ts[0]), ts, open, close);
  }

  lemma NestedEscaped(c: char, ts: seq<Text>, open: char, close: char)
    requires ts != []
    ensures Nested([Escaped(c, ts[0])] + ts[1..], open, close) == ['\\', c] + Nested(ts, open, close)
  {
    NestedFront(['\\', c], Escaped(c, ts[0]), ts, open, close);
  }

  lemma NestedNone(open: char, close: char)
    ensures Nested([End], open, close) == ""
  {
  }

  /** An opening bracket makes the innermost text a group of the one around it. */
  lemma NestedGroup(ts: seq<Text>, open: char, close: char)
    requires |ts| >= 2
    ensures Nested([Group(ts[0], ts[1])] + ts[2..], open, close) == [open] + Nested(ts, open, close)
  {
    var t := Group(ts[0], ts[1]);
    assert ([t] + ts[2..])[1..] == ts[2..] == ts[1..][1..];
    var inner, rest := Render(ts[0], open, close), Render(ts[1], open, close);
    if |ts| > 2 {
      var tail := Nested(ts[2..], open, close);
      assert [open] + inner + [close] + rest + [close] + tail
          == [open] + (inner + [close] + (rest + [close] + tail));
    } else {
      assert [open] + inner + [close] + rest == [open] + (inner + [close] + rest);
    }
  }

  /** A closing bracket begins with an empty innermost text. */
  lemma NestedClose(ts: seq<Text>, open: char, close: char)
    requires ts != []
    ensures Nested([End] + ts, open, close) == [close] + Nested(ts, open, close)
  {
    assert ([End] + ts)[1..] == ts;
  }

  lemma {:induction false} LabelReads(s: string, i: nat, depth: int) returns (ts: seq<Text>)
    requires depth >= 1 && LabelScan(s, i, depth) >= 0
    ensures |ts| == depth && AllProper(ts, '[', ']')
    ensures s[i..LabelScan(s, i, depth)] == Nested(ts, '[', ']')
    decreases |s| - i
  {
    hide Nested, Render, IsSpace, LabelScan;
    LabelStep(s, i, depth);
    var r := LabelScan(s, i, depth);
    if s[i] == '\\' {
      var us := LabelReads(s, i + 2, depth);
      ts := [Escaped(s[i + 1], us[0])] + us[1..];
      NestedEscaped(s[i + 1], us, '[', ']');
      assert s[i..r] == [s[i], s[i + 1]] + s[i + 2..r];
    } else if s[i] == '[' {
      var us := LabelReads(s, i + 1, depth + 1);
      ts := [Group(us[0], us[1])] + us[2..];
      NestedGroup(us, '[', ']');
      assert s[i..r] == [s[i]] + s[i + 1..r];
    } else if s[i] == ']' && depth == 1 {
      ts := [End];
      NestedNone('[', ']');
    } else if s[i] == ']' {
      var us := LabelReads(s, i + 1, depth - 1);
      ts := [End] + us;
      NestedClose(us, '[', ']');
      assert s[i..r] == [s[i]] + s[i + 1..r];
    } else {
      var us := LabelReads(s, i + 1, depth);
      ts := [Plain(s[i], us[0])] + us[1..];
      NestedPlain(s[i], us, '[', ']');
      assert s[i..r] == [s[i]] + s[i + 1..r];
    }
  }

  lemma {:induction false} BareReads(s: string, i: nat, depth: nat) returns (ts: seq<Text>)
    requires i <= |s| && BareScan(s, i, depth) < |s|
    ensures |ts| == depth + 1 && AllProper(ts, '(', ')') && Tight(ts[depth])
    ensures s[i..BareScan(s, i, depth)] == Nested(ts, '(', ')')
    decreases |s| - i
  {
    hide Nested, Render, IsSpace, BareScan;
    BareDone(s, i, depth);
    BareDone(s, i + 2, depth);
    BareStep(s, i, depth);
    var r := BareScan(s, i, depth);
    if s[i] == '\\' {
      var us := BareReads(s, i + 2, depth);
      ts := [Escaped(s[i + 1], us[0])] + us[1..];
      NestedEscaped(s[i + 1], us, '(', ')');
      assert s[i..r] == [s[i], s[i + 1]] + s[i + 2..r];
    } else if s[i] == '(' {
      var us := BareReads(s, i + 1, depth + 1);
      ts := [Group(us[0], us[1])] + us[2..];
      NestedGroup(us, '(', ')');
      assert s[i..r] == [s[i]] + s[i + 1..r];
    } else if r == i {
      ts := [End];
      NestedNone('(', ')');
    } else if s[i] == ')' {
      var us := BareReads(s, i + 1, depth - 1);
      ts := [End] + us;
      NestedClose(us, '(', ')');
      assert s[i..r] == [s[i]] + s[i + 1..r];
    } else {
      var us := BareReads(s, i + 1, depth);
      ts := [Plain(s[i], us[0])] + us[1..];
      NestedPlain(s[i], us, '(', ')');
      assert s[i..r] == [s[i]] + s[i + 1..r];
    }
  }

  lemma {:induction false} AngleReads(s: string, i: nat) returns (t: Text)
    requires AngleScan(s, i) >= 0
    ensures Proper(t, '>', '>') && Flat(t) && s[i..AngleScan(s, i)] == Render(t, '>', '>')
    decreases |s| - i
  {
    var r := AngleScan(s, i);
    if s[i] == '\\' {
      assert s[i..r] == [s[i], s[i + 1]] + s[i + 2..r];
      var u := AngleReads(s, i + 2);
      t := Escaped(s[i + 1], u);
    } else if s[i] == '>' {
      t := End;
    } else {
      assert s[i..r] == [s[i]] + s[i + 1..r];
      var u := AngleReads(s, i + 1);
      t := Plain(s[i], u);
    }
  }

  // ---------- The scanner is the grammar ----------

  /** The text from the first `[` to a `]` at `r` is a label. */
  ghost predicate LabelEndsAt(s: string, r: nat) {
    var first := IndexFrom(s, '[', 0);
    0 <= first < r < |s| && s[r] == ']' && IsLabel(s[first + 1..r])
  }

  lemma LabelEndReads(s: string)
    requires LabelEndOf(s) >= 0
    ensures LabelEndsAt(s, LabelEndOf(s))
  {
    var first, r := IndexFrom(s, '[', 0), LabelEndOf(s);
    LabelStep(s, first, 0);
    hide LabelScan, IndexFrom;
    var ts := LabelReads(s, first + 1, 1);
    LabelStops(s, first + 1, 1);
    assert Proper(ts[0], '[', ']') && Render(ts[0], '[', ']') == s[first + 1..r];
  }

  lemma LabelEndFinds(s: string, first: nat, r: nat)
    requires IndexFrom(s, '[', 0) == first < r < |s| && s[r] == ']' && IsLabel(s[first + 1..r])
    ensures LabelEndOf(s) == r
  {
    var t :| Proper(t, '[', ']') && Render(t, '[', ']') == s[first + 1..r];
    hide LabelScan, IndexFrom, Render, IsLabel;
    LabelStep(s, first, 0);
    LabelSkips(s, first + 1, 1, t);
    LabelStep(s, r, 1);
  }

  /** The label ends at `r` exactly when what stands between the first `[` and `r` is a label and a
      `]` follows it. */
  lemma LabelEndExact(s: string, r: nat)
    ensures LabelEndOf(s) == r <==> LabelEndsAt(s, r)
  {
    hide LabelEndOf, IndexFrom, IsLabel;
    if LabelEndOf(s) == r { LabelEndReads(s); }
    if LabelEndsAt(s, r) { LabelEndFinds(s, IndexFrom(s, '[', 0), r); }
  }

  /** A bare destination that starts at `i` ends at `r`, before the end of the source, exactly when
      it is a bare destination and a terminator follows it. */
  lemma BareScanExact(s: string, i: nat, r: nat)
    requires r < |s| && i <= |s|
    ensures BareScan(s, i, 0) == r <==> i <= r && Terminates(s[r]) && IsBare(s[i..r])
  {
    if BareScan(s, i, 0) == r {
      var ts := BareReads(s, i, 0);
      BareStops(s, i, 0);
      assert Render(ts[0], '(', ')') == s[i..r];
    }
    if i <= r && Terminates(s[r]) && IsBare(s[i..r]) {
      var t :| Proper(t, '(', ')') && Tight(t) && Render(t, '(', ')') == s[i..r];
      BareSkips(s, i, 0, t);
    }
  }

  lemma AngleScanFinds(s: string, i: nat, text: string)
    requires IsAngled(text) && Holds(s, i, text) && Closes(s, i + |text|)
    ensures AngleScan(s, i) == i + |text|
  {
    var t :| Proper(t, '>', '>') && Flat(t) && Render(t, '>', '>') == text;
    hide AngleScan, Render, Proper, Flat, Holds;
    AngleSkips(s, i, t);
    AngleStep(s, i + |text|);
  }

  /** A bracketed destination that opens before `i` ends at `r` exactly when every `>` before `r`
      is escaped and the one at `r` is not. */
  lemma AngleScanExact(s: string, i: nat, r: nat)
    requires i <= r < |s|
    ensures AngleScan(s, i) == r <==> Closes(s, r) && IsAngled(s[i..r])
  {
    if AngleScan(s, i) == r {
      var t := AngleReads(s, i);
      AngleStops(s, i);
    }
    if Closes(s, r) && IsAngled(s[i..r]) {
      AngleScanFinds(s, i, s[i..r]);
    }
  }
}
