/**
  The destination scanner on the raw text of one parsed node. It finds the end of the label by
  counting unescaped brackets, then the start of the destination, then its end: the matching `>`
  of a bracketed destination, or the first unescaped `)` or white space outside parentheses.
*/
module MarkdownScanner {
  import opened Whitespace

  datatype Kind = Inline | Definition

  datatype Destination =
    | Range(start: nat, end: nat)
    | NoLabelEnd
    | NoSeparator
    | NoInlineDestination
    | NoAngleEnd

  // ---------- The scanner as functions ----------

  /** The first occurrence of `c` at or after `i`, or -1. */
  function IndexFrom(s: string, c: char, i: nat): (r: int)
    ensures r == -1 || (i <= r < |s| && s[r] == c)
    ensures r == -1 ==> forall j | i <= j < |s| :: s[j] != c
    ensures r >= 0 ==> forall j | i <= j < r :: s[j] != c
    decreases |s| - i
  {
    if i >= |s| then -1
    else if s[i] == c then i
    else IndexFrom(s, c, i + 1)
  }

  /** The first character at or after `i` that is not white space. */
  function SkipSpace(s: string, i: nat): (r: nat)
    ensures i <= r && (i <= |s| ==> r <= |s|)
    ensures r < |s| ==> !IsSpace(s[r])
    ensures forall j | i <= j < r :: j < |s| && IsSpace(s[j])
    decreases |s| - i
  {
    if i < |s| && IsSpace(s[i]) then SkipSpace(s, i + 1) else i
  }

  function LabelScan(s: string, i: nat, depth: int): (r: int)
    ensures r == -1 || i <= r < |s|
    decreases |s| - i
  {
    if i >= |s| then -1
    else if s[i] == '\\' then LabelScan(s, i + 2, depth)
    else if s[i] == '[' then LabelScan(s, i + 1, depth + 1)
    else if s[i] == ']' then
      if depth == 1 then i else LabelScan(s, i + 1, depth - 1)
    else LabelScan(s, i + 1, depth)
  }

  function LabelEndOf(s: string): (r: int)
    ensures r == -1 || 0 <= r < |s|
  {
    var first := IndexFrom(s, '[', 0);
    if first == -1 then -1 else LabelScan(s, first, 0)
  }

  function AngleScan(s: string, i: nat): (r: int)
    ensures r == -1 || i <= r < |s|
    decreases |s| - i
  {
    if i >= |s| then -1
    else if s[i] == '\\' then AngleScan(s, i + 2)
    else if s[i] == '>' then i
    else AngleScan(s, i + 1)
  }

  function BareScan(s: string, i: nat, depth: nat): (r: nat)
    ensures r <= |s| && (i <= |s| ==> i <= r)
    decreases |s| - i
  {
    if i >= |s| then |s|
    else if s[i] == '\\' then BareScan(s, i + 2, depth)
    else if s[i] == '(' then BareScan(s, i + 1, depth + 1)
    else if s[i] == ')' then
      if depth == 0 then i else BareScan(s, i + 1, depth - 1)
    else if IsSpace(s[i]) && depth == 0 then i
    else BareScan(s, i + 1, depth)
  }

  predicate Terminates(c: char) {
    c == ')' || IsSpace(c)
  }

  datatype Start = Found(index: nat) | Missing(reason: Destination)

  /** Where the destination begins, after the label, its delimiter and white space. */
  function StartOf(raw: string, kind: Kind): (r: Start)
    ensures if r.Found? then r.index <= |raw| else !r.reason.Range?
  {
    var end := LabelEndOf(raw);
    if end == -1 then Missing(NoLabelEnd)
    else if kind.Definition? then
      var colon := IndexFrom(raw, ':', end + 1);
      if colon == -1 then Missing(NoSeparator) else Found(SkipSpace(raw, colon + 1))
    else if end + 1 >= |raw| || raw[end + 1] != '(' then Missing(NoInlineDestination)
    else Found(SkipSpace(raw, end + 2))
  }

  predicate Bracketed(raw: string, start: nat) {
    start < |raw| && raw[start] == '<'
  }

  function DestinationOf(raw: string, kind: Kind): Destination {
    match StartOf(raw, kind)
    case Missing(reason) => reason
    case Found(start) =>
      if Bracketed(raw, start) then
        var end := AngleScan(raw, start + 1);
        if end == -1 then NoAngleEnd else Range(start + 1, end)
      else Range(start, BareScan(raw, start, 0))
  }

  // ---------- One step of each scan ----------

  lemma LabelStep(s: string, i: nat, depth: int)
    requires i < |s|
    ensures s[i] == '\\' ==> LabelScan(s, i, depth) == LabelScan(s, i + 2, depth)
    ensures s[i] == '[' ==> LabelScan(s, i, depth) == LabelScan(s, i + 1, depth + 1)
    ensures s[i] == ']' && depth != 1 ==> LabelScan(s, i, depth) == LabelScan(s, i + 1, depth - 1)
    ensures s[i] == ']' && depth == 1 ==> LabelScan(s, i, depth) == i
    ensures s[i] !in "\\[]" ==> LabelScan(s, i, depth) == LabelScan(s, i + 1, depth)
  {
  }

  lemma BareDone(s: string, i: nat, depth: nat)
    ensures i >= |s| ==> BareScan(s, i, depth) == |s|
  {
  }

  lemma BareStep(s: string, i: nat, depth: nat)
    requires i < |s|
    ensures s[i] == '\\' ==> BareScan(s, i, depth) == BareScan(s, i + 2, depth)
    ensures s[i] == '(' ==> BareScan(s, i, depth) == BareScan(s, i + 1, depth + 1)
    ensures s[i] == ')' && depth > 0 ==> BareScan(s, i, depth) == BareScan(s, i + 1, depth - 1)
    ensures Terminates(s[i]) && depth == 0 ==> BareScan(s, i, depth) == i
    ensures s[i] !in "\\()" && !(IsSpace(s[i]) && depth == 0) ==>
      BareScan(s, i, depth) == BareScan(s, i + 1, depth)
  {
  }

  lemma AngleDone(s: string, i: nat)
    ensures i >= |s| ==> AngleScan(s, i) == -1
  {
  }

  lemma AngleStep(s: string, i: nat)
    requires i < |s|
    ensures s[i] == '\\' ==> AngleScan(s, i) == AngleScan(s, i + 2)
    ensures s[i] == '>' ==> AngleScan(s, i) == i
    ensures s[i] != '\\' && s[i] != '>' ==> AngleScan(s, i) == AngleScan(s, i + 1)
  {
  }

  // ---------- The scanner as loops ----------

  method SkipWhitespace(source: string, start: nat) returns (index: nat)
    ensures index == SkipSpace(source, start)
  {
    index := start;
    while index < |source| && IsSpace(source[index])
      invariant SkipSpace(source, index) == SkipSpace(source, start)
    {
      index := index + 1;
    }
  }

  method LabelEnd(source: string) returns (end: int)
    ensures end == LabelEndOf(source)
  {
    var first := IndexFrom(source, '[', 0);
    if first == -1 { return -1; }
    var depth := 0;
    var index := first;
    while index < |source|
      invariant first <= index
      invariant LabelScan(source, index, depth) == LabelEndOf(source)
      decreases |source| - index
    {
      var c := source[index];
      if c == '\\' {
        index := index + 1;
      } else if c == '[' {
        depth := depth + 1;
      } else if c == ']' {
        depth := depth - 1;
        if depth == 0 { return index; }
      }
      index := index + 1;
    }
    return -1;
  }

  method DestinationRange(raw: string, kind: Kind) returns (range: Destination)
    ensures range == DestinationOf(raw, kind)
  {
    hide LabelScan, LabelEndOf, AngleScan, BareScan, IsSpace, SkipSpace, IndexFrom;
    var endOfLabel := LabelEnd(raw);
    if endOfLabel == -1 { return NoLabelEnd; }
    var start: nat;
    if kind == Definition {
      var colon := IndexFrom(raw, ':', endOfLabel + 1);
      if colon == -1 { return NoSeparator; }
      start := SkipWhitespace(raw, colon + 1);
    } else {
      if endOfLabel + 1 >= |raw| || raw[endOfLabel + 1] != '(' { return NoInlineDestination; }
      start := SkipWhitespace(raw, endOfLabel + 2);
    }
    if start < |raw| && raw[start] == '<' {
      var index := start + 1;
      while index < |raw|
        invariant start < index
        invariant AngleScan(raw, index) == AngleScan(raw, start + 1)
        decreases |raw| - index
      {
        AngleStep(raw, index);
        if raw[index] == '\\' {
          index := index + 1;
        } else if raw[index] == '>' {
          return Range(start + 1, index);
        }
        index := index + 1;
      }
      AngleDone(raw, index);
      return NoAngleEnd;
    }
    var depth := 0;
    var index := start;
    while index < |raw|
      invariant start <= index && 0 <= depth
      invariant BareScan(raw, index, depth) == BareScan(raw, start, 0)
      decreases |raw| - index
    {
      BareStep(raw, index, depth);
      var c := raw[index];
      if c == '\\' {
        index := index + 1;
      } else if c == '(' {
        depth := depth + 1;
      } else if c == ')' {
        if depth == 0 { return Range(start, index); }
        depth := depth - 1;
      } else if IsSpace(c) && depth == 0 {
        return Range(start, index);
      }
      index := index + 1;
    }
    BareDone(raw, index, depth);
    return Range(start, |raw|);
  }

  // ---------- Where the scans stop ----------

  lemma {:induction false} LabelStops(s: string, i: nat, depth: int)
    requires depth >= 1 && LabelScan(s, i, depth) >= 0
    ensures s[LabelScan(s, i, depth)] == ']'
    decreases |s| - i
  {
    if s[i] == '\\' {
      LabelStops(s, i + 2, depth);
    } else if s[i] == '[' {
      LabelStops(s, i + 1, depth + 1);
    } else if s[i] != ']' {
      LabelStops(s, i + 1, depth);
    } else if depth > 1 {
      LabelStops(s, i + 1, depth - 1);
    }
  }

  lemma {:induction false} BareStops(s: string, i: nat, depth: nat)
    requires BareScan(s, i, depth) < |s|
    ensures Terminates(s[BareScan(s, i, depth)])
    decreases |s| - i
  {
    var r := BareScan(s, i, depth);
    if s[i] == '\\' {
      BareStops(s, i + 2, depth);
    } else if s[i] == '(' {
      BareStops(s, i + 1, depth + 1);
    } else if s[i] == ')' && depth > 0 {
      BareStops(s, i + 1, depth - 1);
    } else if r != i {
      BareStops(s, i + 1, depth);
    }
  }

  /** A closing angle bracket stands at `i`. */
  predicate Closes(s: string, i: nat) {
    i < |s| && s[i] == '>'
  }

  lemma {:induction false} AngleStops(s: string, i: nat)
    requires AngleScan(s, i) >= 0
    ensures Closes(s, AngleScan(s, i))
    decreases |s| - i
  {
    if s[i] == '\\' {
      AngleStops(s, i + 2);
    } else if s[i] != '>' {
      AngleStops(s, i + 1);
    }
  }
}
