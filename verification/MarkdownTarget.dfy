/**
  The link destination of section 6.3 of CommonMark 0.31.2 that is not in angle brackets, and how
  the destination scanner reads one.
*/
module MarkdownTarget {
  import opened Whitespace
  import opened MarkdownScanner
  import opened MarkdownGrammar

  // ---------- The grammar of the standard ----------

  /** ASCII punctuation, which a backslash can escape. */
  predicate IsPunctuation(c: char) {
    '!' <= c <= '/' || ':' <= c <= '@' || '[' <= c <= '`' || '{' <= c <= '~'
  }

  /** An ASCII control character or the space, which no destination contains. */
  predicate IsBlank(c: char) {
    c <= ' ' || c == '\U{7F}'
  }

  predicate Punctuated(s: string) {
    s != "" && IsPunctuation(s[0])
  }

  /** `t` is read as a destination in front of `follow`: it has no blank, its unescaped parentheses
      are balanced, and a backslash is an escape exactly in front of punctuation. */
  predicate Destines(t: Text, follow: string) {
    match t
    case End => true
    case Plain(c, rest) =>
      && !IsBlank(c) && c != '(' && c != ')'
      && (c == '\\' ==> !Punctuated(Render(rest, '(', ')') + follow))
      && Destines(rest, follow)
    case Escaped(c, rest) => IsPunctuation(c) && Destines(rest, follow)
    case Group(inner, rest) => Destines(inner, ")") && Destines(rest, follow)
  }

  lemma {:induction false} DestinesBlankFree(t: Text, follow: string)
    requires Destines(t, follow)
    ensures forall i | 0 <= i < |Render(t, '(', ')')| :: !IsBlank(Render(t, '(', ')')[i])
  {
    match t
    case End =>
    case Plain(_, rest) => DestinesBlankFree(rest, follow);
    case Escaped(_, rest) => DestinesBlankFree(rest, follow);
    case Group(inner, rest) =>
      DestinesBlankFree(inner, ")");
      DestinesBlankFree(rest, follow);
  }

  // ---------- One text, one destination ----------

  /** A destination cannot go on: with nothing, a blank, or a closing parenthesis. */
  predicate Stops(follow: string) {
    follow == "" || IsBlank(follow[0]) || follow[0] == ')'
  }

  /** Of what follows, only the first character matters. */
  lemma {:induction false} DestinesFollow(t: Text, f: string, g: string)
    requires Destines(t, f) && f != "" && g != "" && f[0] == g[0]
    ensures Destines(t, g)
  {
    match t
    case End =>
    case Plain(c, rest) =>
      DestinesFollow(rest, f, g);
      var text := Render(rest, '(', ')');
      assert (text + f)[0] == (text + g)[0];
    case Escaped(_, rest) => DestinesFollow(rest, f, g);
    case Group(_, rest) => DestinesFollow(rest, f, g);
  }

  lemma RenderPlain(c: char, rest: Text, follow: string)
    ensures Render(Plain(c, rest), '(', ')') + follow == [c] + (Render(rest, '(', ')') + follow)
  {
  }

  lemma RenderEscaped(c: char, rest: Text, follow: string)
    ensures Render(Escaped(c, rest), '(', ')') + follow == ['\\'] + ([c] + (Render(rest, '(', ')') + follow))
  {
  }

  lemma RenderGroup(inner: Text, rest: Text, follow: string)
    ensures Render(Group(inner, rest), '(', ')') + follow
         == ['('] + (Render(inner, '(', ')') + ([')'] + (Render(rest, '(', ')') + follow)))
  {
  }

  lemma FirstCharacter(t: Text, follow: string)
    requires Destines(t, follow)
    ensures t.Plain? ==> Render(t, '(', ')') + follow != "" && (Render(t, '(', ')') + follow)[0] == t.c
    ensures t.Plain? ==> !IsBlank(t.c) && t.c != ')' && t.c != '('
    ensures t.Escaped? ==> Render(t, '(', ')') + follow != "" && (Render(t, '(', ')') + follow)[0] == '\\'
    ensures t.Group? ==> Render(t, '(', ')') + follow != "" && (Render(t, '(', ')') + follow)[0] == '('
    ensures t == End ==> Render(t, '(', ')') + follow == follow
  {
  }

  /** Where the text goes on as `follow` tells, it can be read as a destination in one way only. */
  lemma {:induction false} DestinationUnique(t: Text, f: string, u: Text, g: string)
    requires Destines(t, f) && Destines(u, g) && Stops(f) && Stops(g)
    requires Render(t, '(', ')') + f == Render(u, '(', ')') + g
    ensures t == u
  {
    FirstCharacter(t, f);
    FirstCharacter(u, g);
    match t
    case End =>
    case Plain(c, rest) =>
      RenderPlain(c, rest, f);
      if u.Plain? {
        RenderPlain(u.c, u.rest, g);
        SameTail([c], Render(rest, '(', ')') + f, [u.c], Render(u.rest, '(', ')') + g);
        DestinationUnique(rest, f, u.rest, g);
      } else if u.Escaped? {
        RenderEscaped(u.c, u.rest, g);
        SameTail([c], Render(rest, '(', ')') + f, ['\\'], [u.c] + (Render(u.rest, '(', ')') + g));
      }
    case Escaped(c, rest) =>
      RenderEscaped(c, rest, f);
      if u.Escaped? {
        RenderEscaped(u.c, u.rest, g);
        var x, y := Render(rest, '(', ')') + f, Render(u.rest, '(', ')') + g;
        SameTail(['\\'], [c] + x, ['\\'], [u.c] + y);
        SameTail([c], x, [u.c], y);
        DestinationUnique(rest, f, u.rest, g);
      } else if u.Plain? {
        RenderPlain(u.c, u.rest, g);
        SameTail(['\\'], [c] + (Render(rest, '(', ')') + f), [u.c], Render(u.rest, '(', ')') + g);
      }
    case Group(inner, rest) =>
      if u.Group? {
        var x, y := Render(rest, '(', ')') + f, Render(u.rest, '(', ')') + g;
        RenderGroup(inner, rest, f);
        RenderGroup(u.inner, u.rest, g);
        SameTail(['('], Render(inner, '(', ')') + ([')'] + x), ['('], Render(u.inner, '(', ')') + ([')'] + y));
        DestinesFollow(inner, ")", [')'] + x);
        DestinesFollow(u.inner, ")", [')'] + y);
        DestinationUnique(inner, [')'] + x, u.inner, [')'] + y);
        SameTail(Render(inner, '(', ')'), [')'] + x, Render(u.inner, '(', ')'), [')'] + y);
        SameTail([')'], x, [')'], y);
        DestinationUnique(rest, f, u.rest, g);
      }
  }

  lemma SameTail(a: string, x: string, b: string, y: string)
    requires |a| == |b| && a + x == b + y
    ensures a == b && x == y
  {
    assert a == (a + x)[..|a|] && b == (b + y)[..|b|];
    assert x == (a + x)[|a|..] && y == (b + y)[|b|..];
  }

  // ---------- How the scanner reads it ----------

  /** White space outside parentheses that no backslash stands before: a space of ECMAScript that the
      standard does not count as one. */
  predicate Exposed(t: Text) {
    match t
    case End => false
    case Plain(c, rest) =>
      if c == '\\' && rest.Plain? then Exposed(rest.rest) else IsSpace(c) || Exposed(rest)
    case Escaped(_, rest) => Exposed(rest)
    case Group(_, rest) => Exposed(rest)
  }

  /** The last character is a backslash that escapes nothing. */
  predicate Dangles(t: Text) {
    match t
    case End => false
    case Plain(c, rest) =>
      if c == '\\' && rest.Plain? then Dangles(rest.rest) else (c == '\\' && rest == End) || Dangles(rest)
    case Escaped(_, rest) => Dangles(rest)
    case Group(_, rest) => Dangles(rest)
  }

  /** A backslash takes the next character with it, whatever it is. */
  function Paired(t: Text): Text {
    match t
    case End => End
    case Plain(c, rest) =>
      if c != '\\' then Plain(c, Paired(rest))
      else if rest.Plain? then Escaped(rest.c, Paired(rest.rest))
      else Paired(rest)
    case Escaped(c, rest) => Escaped(c, Paired(rest))
    case Group(inner, rest) => Group(Paired(inner), Paired(rest))
  }

  /** A backslash that ends a destination without escaping anything in it. */
  function Ending(dangling: bool): string {
    if dangling then "\\" else ""
  }

  lemma RenderFirst(t: Text, follow: string)
    requires t.Escaped? || t.Group?
    ensures Punctuated(Render(t, '(', ')') + follow)
  {
  }

  /** Only in front of something else than punctuation can a backslash dangle. */
  lemma {:induction false} DanglesBefore(t: Text, follow: string)
    requires Destines(t, follow) && Dangles(t)
    ensures !Punctuated(follow)
  {
    match t
    case Plain(c, rest) =>
      if c == '\\' && rest.Plain? {
        DanglesBefore(rest.rest, follow);
      } else if c == '\\' && rest == End {
        assert "" + follow == follow;
      } else {
        DanglesBefore(rest, follow);
      }
    case Escaped(_, rest) => DanglesBefore(rest, follow);
    case Group(_, rest) => DanglesBefore(rest, follow);
  }

  lemma {:induction false} PairedReads(t: Text, follow: string)
    requires Destines(t, follow)
    ensures Proper(Paired(t), '(', ')')
    ensures Render(Paired(t), '(', ')') + Ending(Dangles(t)) == Render(t, '(', ')')
    ensures Tight(Paired(t)) <==> !Exposed(t)
  {
    hide IsSpace, IsBlank, Punctuated;
    match t
    case End =>
    case Plain(c, rest) =>
      if c != '\\' {
        PairedReads(rest, follow);
      } else if rest.Plain? {
        PairedReads(rest.rest, follow);
      } else if rest != End {
        RenderFirst(rest, follow);
      } else {
        BackslashIsNotSpace();
      }
    case Escaped(_, rest) => PairedReads(rest, follow);
    case Group(inner, rest) =>
      PairedReads(inner, ")");
      PairedReads(rest, follow);
      GroupPaired(inner, rest);
  }

  lemma GroupPaired(inner: Text, rest: Text)
    requires Destines(inner, ")")
    requires Render(Paired(inner), '(', ')') + Ending(Dangles(inner)) == Render(inner, '(', ')')
    requires Render(Paired(rest), '(', ')') + Ending(Dangles(rest)) == Render(rest, '(', ')')
    ensures var t := Group(inner, rest); Render(Paired(t), '(', ')') + Ending(Dangles(t)) == Render(t, '(', ')')
  {
    if Dangles(inner) {
      DanglesBefore(inner, ")");
    }
    hide Destines, Ending;
    var a, b, e := Render(Paired(inner), '(', ')'), Render(Paired(rest), '(', ')'), Ending(Dangles(rest));
    assert Ending(false) == "" && a + "" == a by { EndingNone(); }
    assert ['('] + a + [')'] + b + e == ['('] + a + [')'] + (b + e);
  }

  lemma EndingNone()
    ensures Ending(false) == ""
  {
  }

  lemma BackslashIsNotSpace()
    ensures !IsSpace('\\')
  {
  }

  /** The scanner stops at the first exposed white space. */
  lemma {:induction false} BareShort(s: string, i: nat, t: Text)
    requires Proper(t, '(', ')') && !Tight(t) && Holds(s, i, Render(t, '(', ')'))
    ensures BareScan(s, i, 0) < i + |Render(t, '(', ')')|
    decreases t
  {
    hide Holds, BareScan, IsSpace;
    RenderStarts(s, i, t, '(', ')');
    BareStep(s, i, 0);
    match t
    case Plain(c, rest) =>
      HoldsChar(s, i, c, Render(rest, '(', ')'));
      if !IsSpace(c) {
        BareShort(s, i + 1, rest);
      }
    case Escaped(c, rest) =>
      HoldsEscape(s, i, c, Render(rest, '(', ')'));
      BareShort(s, i + 2, rest);
    case Group(inner, rest) =>
      GroupHolds(s, i, t, '(', ')');
      BareSkips(s, i + 1, 1, inner);
      BareStep(s, i + 1 + |Render(inner, '(', ')')|, 1);
      BareShort(s, i + 2 + |Render(inner, '(', ')')|, rest);
  }
}
