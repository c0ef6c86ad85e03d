/** Schema key paths of dsh/scripts/gen-config-catalog.ts: how the schema walk prints
    them, and how the type walk reads them back. */
module SchemaPath {

  import opened TypeLookup

  // ------------------------------------------------------------------------- printing

  /** The path text for a step list: `.name` for a member, `[]` for an element hop. */
  function Print(steps: seq<Step>): string
    requires steps != [] && steps[0].Member?
  {
    var last := steps[|steps| - 1];
    if |steps| == 1 then last.name
    else
      Print(steps[..|steps| - 1]) + match last case Member(name) => "." + name case Element => "[]"
  }

  /** A schema value expression: chained refinements are already unwrapped. */
  datatype Schema = Scalar | ObjectOf(fields: seq<Field>) | ListOf(element: Schema)

  datatype Field = Field(key: string, value: Schema)

  /** `collectValuePaths(value, base)`: the keys it pushes. */
  function CollectPaths(value: Schema, base: string): seq<string> {
    match value
    case Scalar => []
    case ObjectOf(fields) => CollectFields(fields, base)
    case ListOf(element) => CollectPaths(element, base + "[]")
  }

  function CollectFields(fields: seq<Field>, base: string): seq<string> {
    if fields == [] then []
    else
      [base + "." + fields[0].key] + CollectPaths(fields[0].value, base + "." + fields[0].key)
      + CollectFields(fields[1..], base)
  }

  /** The step lists of the same members. */
  ghost function MemberSteps(value: Schema, base: seq<Step>): seq<seq<Step>> {
    match value
    case Scalar => []
    case ObjectOf(fields) => FieldSteps(fields, base)
    case ListOf(element) => MemberSteps(element, base + [Element])
  }

  ghost function FieldSteps(fields: seq<Field>, base: seq<Step>): seq<seq<Step>> {
    if fields == [] then []
    else
      [base + [Member(fields[0].key)]] + MemberSteps(fields[0].value, base + [Member(fields[0].key)])
      + FieldSteps(fields[1..], base)
  }

  // -------------------------------------------------------------------------- parsing

  /** A character in front of split text: a dot opens a segment, any other character
      joins the first one. */
  function Prepend(c: char, segments: seq<string>): (r: seq<string>)
    requires segments != []
    ensures r != []
  {
    if c == '.' then [""] + segments else segments[0 := [c] + segments[0]]
  }

  /** `path.split('.')` */
  function SplitDots(path: string): (segments: seq<string>)
    ensures segments != []
  {
    if path == "" then [""] else Prepend(path[0], SplitDots(path[1..]))
  }

  predicate EndsWithBrackets(name: string) {
    |name| >= 2 && name[|name| - 2..] == "[]"
  }

  /** A segment without its trailing `[]` pairs, then one element hop for each pair. */
  function ParseSegment(segment: string): (steps: seq<Step>)
    ensures steps != []
    decreases |segment|
  {
    if EndsWithBrackets(segment) then ParseSegment(segment[..|segment| - 2]) + [Element] else [Member(segment)]
  }

  function ParseSegments(segments: seq<string>): seq<Step> {
    if segments == [] then []
    else ParseSegments(segments[..|segments| - 1]) + ParseSegment(segments[|segments| - 1])
  }

  function Parse(path: string): seq<Step> {
    ParseSegments(SplitDots(path))
  }

  function Elements(n: nat): (r: seq<Step>)
    ensures |r| == n && forall i | 0 <= i < n :: r[i] == Element
  {
    seq(n, _ => Element)
  }

  lemma {:induction false} StripBrackets(segment: string, name: string, arrays: nat)
    requires ParseSegment(segment) == ParseSegment(name) + Elements(arrays)
    requires EndsWithBrackets(name)
    ensures ParseSegment(segment) == ParseSegment(name[..|name| - 2]) + Elements(arrays + 1)
  {
    assert [Element] + Elements(arrays) == Elements(arrays + 1);
  }

  /** `parsePath`, with its two loops. */
  method ParsePath(path: string) returns (steps: seq<Step>)
    ensures steps == Parse(path)
  {
    steps := [];
    var segments := SplitDots(path);
    for k := 0 to |segments|
      invariant steps == ParseSegments(segments[..k])
    {
      var segment := segments[k];
      var name := segment;
      var arrays: nat := 0;
      while EndsWithBrackets(name)
        invariant ParseSegment(segment) == ParseSegment(name) + Elements(arrays)
        decreases |name|
      {
        StripBrackets(segment, name, arrays);
        name := name[..|name| - 2];
        arrays := arrays + 1;
      }
      steps := steps + [Member(name)];
      for i := 0 to arrays
        invariant steps == ParseSegments(segments[..k]) + [Member(name)] + Elements(i)
      {
        assert Elements(i) + [Element] == Elements(i + 1);
        steps := steps + [Element];
      }
      assert segments[..k + 1][..k] == segments[..k];
    }
    assert segments[..|segments|] == segments;
  }

  // ------------------------------------------------------------------------ round trip

  /** A member name that survives printing and parsing. */
  ghost predicate CleanName(name: string) {
    '.' !in name && forall front: string :: name != front + "[]"
  }

  lemma CleanNameIff(name: string)
    ensures CleanName(name) <==> '.' !in name && !EndsWithBrackets(name)
  {
    if EndsWithBrackets(name) {
      assert name == name[..|name| - 2] + "[]";
    }
    if front: string :| name == front + "[]" {
      assert name[|name| - 2..] == "[]";
    }
  }

  ghost predicate CleanStep(step: Step) {
    step.Member? ==> CleanName(step.name)
  }

  ghost predicate CleanSteps(steps: seq<Step>) {
    forall i | 0 <= i < |steps| :: CleanStep(steps[i])
  }

  lemma PrependJoin(c: char, segments: seq<string>, more: seq<string>)
    requires segments != []
    ensures Prepend(c, segments) + more == Prepend(c, segments + more)
  {
  }

  lemma PrependDot(segments: seq<string>)
    requires segments != []
    ensures Prepend('.', segments) == [""] + segments
  {
  }

  lemma {:induction false} SplitJoin(a: string, b: string)
    ensures SplitDots(a + "." + b) == SplitDots(a) + SplitDots(b)
  {
    hide Prepend;
    var text := a + "." + b;
    if a == "" {
      assert text[0] == '.' && text[1..] == b;
      PrependDot(SplitDots(b));
    } else {
      SplitJoin(a[1..], b);
      assert text[0] == a[0] && text[1..] == a[1..] + "." + b;
      PrependJoin(a[0], SplitDots(a[1..]), SplitDots(b));
    }
  }

  ghost function AppendLast(segments: seq<string>, b: string): seq<string>
    requires segments != []
  {
    segments[|segments| - 1 := segments[|segments| - 1] + b]
  }

  lemma PrependAppend(c: char, segments: seq<string>, b: string)
    requires segments != []
    ensures AppendLast(Prepend(c, segments), b) == Prepend(c, AppendLast(segments, b))
  {
    if |segments| == 1 {
      assert [c] + segments[0] + b == [c] + (segments[0] + b);
    }
  }

  /** Appending to a path appends to its last segment. */
  lemma {:induction false} SplitAppend(a: string, b: string)
    requires '.' !in b
    ensures SplitDots(a + b) == AppendLast(SplitDots(a), b)
  {
    hide Prepend;
    if a == "" {
      assert a + b == b;
      SplitPlain(b);
    } else {
      hide AppendLast;
      SplitAppend(a[1..], b);
      assert (a + b)[0] == a[0] && (a + b)[1..] == a[1..] + b;
      PrependAppend(a[0], SplitDots(a[1..]), b);
    }
  }

  lemma {:induction false} SplitPlain(b: string)
    requires '.' !in b
    ensures SplitDots(b) == [b]
  {
    if b != "" {
      SplitPlain(b[1..]);
      assert b == [b[0]] + b[1..];
    }
  }

  lemma {:induction false} ParseConcat(s: seq<string>, t: seq<string>)
    ensures ParseSegments(s + t) == ParseSegments(s) + ParseSegments(t)
  {
    hide ParseSegment;
    if t == [] {
      assert s + t == s;
    } else {
      var init, last := t[..|t| - 1], t[|t| - 1];
      ParseConcat(s, init);
      assert (s + t)[..|s + t| - 1] == s + init && (s + t)[|s + t| - 1] == last;
      assert ParseSegments(s) + ParseSegments(init) + ParseSegment(last)
          == ParseSegments(s) + (ParseSegments(init) + ParseSegment(last));
    }
  }

  lemma ParseMember(path: string, name: string)
    ensures Parse(path + "." + name) == Parse(path) + Parse(name)
  {
    SplitJoin(path, name);
    ParseConcat(SplitDots(path), SplitDots(name));
  }

  lemma ParseElement(path: string)
    ensures Parse(path + "[]") == Parse(path) + [Element]
  {
    SplitAppend(path, "[]");
    hide SplitDots;
    var s := SplitDots(path);
    var n := |s| - 1;
    var longer := s[n] + "[]";
    assert longer[|longer| - 2..] == "[]" && longer[..|longer| - 2] == s[n];
    assert AppendLast(s, "[]")[..n] == s[..n];
    assert ParseSegments(s[..n]) + (ParseSegment(s[n]) + [Element]) ==
      ParseSegments(s[..n]) + ParseSegment(s[n]) + [Element];
  }

  /** What parsing makes of one printed step: a name is parsed on its own. */
  ghost function ExpandStep(step: Step): seq<Step> {
    match step case Member(name) => Parse(name) case Element => [Element]
  }

  /** And of a printed step list. */
  ghost function Expand(steps: seq<Step>): seq<Step> {
    if steps == [] then [] else Expand(steps[..|steps| - 1]) + ExpandStep(steps[|steps| - 1])
  }

  lemma {:induction false} ParsePrint(steps: seq<Step>)
    requires steps != [] && steps[0].Member?
    ensures Parse(Print(steps)) == Expand(steps)
  {
    hide Parse;
    var init := steps[..|steps| - 1];
    if |steps| > 1 {
      ParsePrint(init);
      match steps[|steps| - 1]
      case Member(name) =>
        ParseMember(Print(init), name);
        assert Print(init) + "." + name == Print(init) + ("." + name);
      case Element => ParseElement(Print(init));
    } else {
      assert init == [] && Expand(init) == [];
      assert [] + Parse(steps[0].name) == Parse(steps[0].name);
    }
  }

  lemma {:induction false} ParseNonEmpty(segments: seq<string>)
    ensures |ParseSegments(segments)| >= |segments|
  {
    if segments != [] {
      ParseNonEmpty(segments[..|segments| - 1]);
    }
  }

  lemma {:induction false} DotsSplit(name: string)
    requires '.' in name
    ensures |SplitDots(name)| >= 2
  {
    if name[0] != '.' {
      assert '.' in name[1..];
      DotsSplit(name[1..]);
    }
  }

  /** A name parses to itself exactly when it is clean. */
  lemma NameRoundTrip(name: string)
    ensures |Parse(name)| >= 1
    ensures Parse(name) == [Member(name)] <==> CleanName(name)
  {
    ParseNonEmpty(SplitDots(name));
    CleanNameIff(name);
    hide CleanName;
    if '.' in name {
      DotsSplit(name);
    } else {
      SplitPlain(name);
      assert [name][..0] == [];
      assert ParseSegments([name]) == ParseSegment(name);
    }
  }

  lemma StepRoundTrip(step: Step)
    ensures |ExpandStep(step)| >= 1
    ensures ExpandStep(step) == [step] <==> CleanStep(step)
  {
    hide Parse, CleanName;
    if step.Member? {
      NameRoundTrip(step.name);
    }
  }

  lemma {:induction false} ExpandLength(steps: seq<Step>)
    ensures |Expand(steps)| >= |steps|
  {
    hide ExpandStep;
    if steps != [] {
      ExpandLength(steps[..|steps| - 1]);
      StepRoundTrip(steps[|steps| - 1]);
    }
  }

  lemma SameParts<T>(a: seq<T>, x: seq<T>, b: seq<T>, y: seq<T>)
    requires |a| >= |b| && |x| >= |y|
    ensures a + x == b + y <==> a == b && x == y
  {
    if a + x == b + y {
      assert |a + x| == |b + y|;
      assert a == (a + x)[..|a|] && b == (b + y)[..|b|];
      assert x == (a + x)[|a|..] && y == (b + y)[|b|..];
    }
  }

  lemma {:induction false} ExpandIdentity(steps: seq<Step>)
    ensures Expand(steps) == steps <==> CleanSteps(steps)
  {
    hide ExpandStep, CleanStep;
    if steps != [] {
      var n := |steps| - 1;
      var init, last := steps[..n], steps[n];
      ExpandIdentity(init);
      ExpandLength(init);
      StepRoundTrip(last);
      SameParts(Expand(init), ExpandStep(last), init, [last]);
      assert steps == init + [last];
      assert CleanSteps(steps) <==> CleanSteps(init) && CleanStep(last);
    }
  }

  /** Reading a printed path back gives its steps exactly when no member name contains
      a dot or ends in a bracket pair. */
  lemma RoundTrip(steps: seq<Step>)
    requires steps != [] && steps[0].Member?
    ensures Parse(Print(steps)) == steps <==> CleanSteps(steps)
  {
    ParsePrint(steps);
    ExpandIdentity(steps);
  }

  ghost function JoinDots(segments: seq<string>): string
    requires segments != []
  {
    var n := |segments| - 1;
    if n == 0 then segments[0] else JoinDots(segments[..n]) + "." + segments[n]
  }

  lemma JoinLast(segments: seq<string>, last: string)
    requires segments != []
    ensures JoinDots(segments + [last]) == JoinDots(segments) + "." + last
  {
    assert (segments + [last])[..|segments|] == segments;
  }

  lemma JoinFirst(c: char, segment: string)
    ensures JoinDots(Prepend(c, [segment])) == [c] + segment
  {
    if c == '.' {
      assert JoinDots([""]) == "";
      JoinLast([""], segment);
    } else {
      assert [segment][0 := [c] + segment] == [[c] + segment];
    }
  }

  lemma {:induction false} JoinPrepend(c: char, segments: seq<string>)
    requires segments != []
    ensures JoinDots(Prepend(c, segments)) == [c] + JoinDots(segments)
  {
    hide Prepend;
    var n := |segments| - 1;
    var init, last := segments[..n], segments[n];
    assert segments == init + [last];
    if n > 0 {
      hide JoinDots;
      JoinPrepend(c, init);
      PrependJoin(c, init, [last]);
      JoinLast(init, last);
      JoinLast(Prepend(c, init), last);
      assert [c] + JoinDots(init) + "." + last == [c] + (JoinDots(init) + "." + last);
    } else {
      assert segments == [last];
      JoinFirst(c, last);
    }
  }

  lemma {:induction false} SplitDotsExact(path: string)
    ensures JoinDots(SplitDots(path)) == path
    ensures forall i | 0 <= i < |SplitDots(path)| :: '.' !in SplitDots(path)[i]
  {
    if path != "" {
      SplitDotsExact(path[1..]);
      JoinPrepend(path[0], SplitDots(path[1..]));
    }
  }

  lemma {:induction false} SegmentClean(segment: string)
    requires '.' !in segment
    ensures CleanSteps(ParseSegment(segment)) && ParseSegment(segment)[0].Member?
    decreases |segment|
  {
    hide CleanName;
    if EndsWithBrackets(segment) {
      SegmentClean(segment[..|segment| - 2]);
    } else {
      CleanNameIff(segment);
    }
  }

  lemma {:induction false} SegmentPrinted(steps: seq<Step>, segment: string)
    requires (steps != [] ==> steps[0].Member?) && ParseSegment(segment)[0].Member?
    ensures Print(steps + ParseSegment(segment)) == if steps == [] then segment else Print(steps) + "." + segment
    decreases |segment|
  {
    if EndsWithBrackets(segment) {
      var front := segment[..|segment| - 2];
      SegmentPrinted(steps, front);
      var shorter := steps + ParseSegment(front);
      assert steps + ParseSegment(segment) == shorter + [Element];
      assert (shorter + [Element])[..|shorter|] == shorter;
      assert segment == front + "[]";
    } else {
      assert steps + ParseSegment(segment) == steps + [Member(segment)];
      assert (steps + [Member(segment)])[..|steps|] == steps;
      assert steps != [] ==> Print(steps) + ("." + segment) == Print(steps) + "." + segment;
    }
  }

  lemma {:induction false} SegmentsPrinted(segments: seq<string>)
    requires segments != [] && forall i | 0 <= i < |segments| :: '.' !in segments[i]
    ensures var steps := ParseSegments(segments);
      steps != [] && steps[0].Member? && CleanSteps(steps) && Print(steps) == JoinDots(segments)
  {
    hide ParseSegment, CleanName;
    var n := |segments| - 1;
    SegmentClean(segments[n]);
    if n > 0 {
      SegmentsPrinted(segments[..n]);
    }
    SegmentPrinted(ParseSegments(segments[..n]), segments[n]);
  }

  /** Every path is the printed form of the steps parsed from it, and their names are clean: by the
      round trip, no other steps with clean names print so. */
  lemma ParseExact(path: string)
    ensures var steps := Parse(path);
      steps != [] && steps[0].Member? && CleanSteps(steps) && Print(steps) == path
  {
    SplitDotsExact(path);
    hide SplitDots;
    SegmentsPrinted(SplitDots(path));
  }

  ghost predicate Printed(paths: seq<string>, steps: seq<seq<Step>>) {
    && |paths| == |steps|
    && forall i | 0 <= i < |paths| :: steps[i] != [] && steps[i][0].Member? && paths[i] == Print(steps[i])
  }

  /** The schema walk pushes the printed forms of the schema's members, in order. */
  lemma {:induction false} CollectPrinted(value: Schema, base: seq<Step>)
    requires base != [] && base[0].Member?
    ensures Printed(CollectPaths(value, Print(base)), MemberSteps(value, base))
    decreases value, 0
  {
    match value
    case Scalar =>
    case ObjectOf(fields) => CollectFieldsPrinted(fields, base);
    case ListOf(element) =>
      assert (base + [Element])[..|base|] == base;
      CollectPrinted(element, base + [Element]);
  }

  lemma {:induction false} CollectFieldsPrinted(fields: seq<Field>, base: seq<Step>)
    requires base != [] && base[0].Member?
    ensures Printed(CollectFields(fields, Print(base)), FieldSteps(fields, base))
    decreases fields, 0
  {
    if fields != [] {
      var inner := base + [Member(fields[0].key)];
      assert inner[..|base|] == base;
      assert Print(inner) == Print(base) + "." + fields[0].key;
      CollectPrinted(fields[0].value, inner);
      CollectFieldsPrinted(fields[1..], base);
    }
  }

  /** So every collected path is parsed to the member it was collected for, when the
      names on the way are clean. */
  lemma CollectedPathsParse(value: Schema, key: string, i: nat)
    requires i < |CollectPaths(value, key)|
    ensures |MemberSteps(value, [Member(key)])| == |CollectPaths(value, key)|
    ensures var steps := MemberSteps(value, [Member(key)])[i];
            Parse(CollectPaths(value, key)[i]) == steps <==> CleanSteps(steps)
  {
    CollectPrinted(value, [Member(key)]);
    RoundTrip(MemberSteps(value, [Member(key)])[i]);
  }
}
