/** Which declarations a walk can enter. */
module TypeReach {

  import opened Options
  import opened TypeLookup

  /** The declarations a node leads to without entering one. */
  ghost function Refs(w: World, file: File, node: TypeNode): set<Key> {
    match node
    case Literal(members) => MemberRefs(w, file, members)
    case Parenthesized(inner) => Refs(w, file, inner)
    case Operator(_, inner) => Refs(w, file, inner)
    case Intersection(parts) => PartRefs(w, file, parts)
    case Union(parts) => PartRefs(w, file, parts)
    case ArrayOf(element) => Refs(w, file, element)
    case Indexed(target, key) => if key.Some? then Refs(w, file, target) else {}
    case Reference(head, qualified, args) =>
      if (IsPassthrough(head) || IsArrayName(head)) && args != [] then Refs(w, file, args[0])
      else if !qualified && Resolve(w, file, head).Some? then {Resolve(w, file, head).value}
      else {}
    case Opaque => {}
  }

  ghost function PartRefs(w: World, file: File, parts: seq<TypeNode>): (r: set<Key>)
    ensures forall t | t in parts :: Refs(w, file, t) <= r
  {
    if parts == [] then {} else Refs(w, file, parts[0]) + PartRefs(w, file, parts[1..])
  }

  ghost function MemberRefs(w: World, file: File, members: seq<Signature>): (r: set<Key>)
    ensures forall m | m in members :: SignatureRefs(w, file, m) <= r
  {
    if members == [] then {} else SignatureRefs(w, file, members[0]) + MemberRefs(w, file, members[1..])
  }

  ghost function SignatureRefs(w: World, file: File, m: Signature): set<Key> {
    match m
    case Property(_, Some(annotation)) => Refs(w, file, annotation)
    case _ => {}
  }

  ghost function BaseRefs(w: World, file: File, base: Option<string>): set<Key> {
    if base.Some? && Resolve(w, file, base.value).Some? then {Resolve(w, file, base.value).value} else {}
  }

  ghost function HeritageRefs(w: World, file: File, bases: seq<Option<string>>): (r: set<Key>)
    ensures forall b | b in bases :: BaseRefs(w, file, b) <= r
  {
    if bases == [] then {} else BaseRefs(w, file, bases[0]) + HeritageRefs(w, file, bases[1..])
  }

  ghost function DeclarationRefs(w: World, key: Key): set<Key>
    requires key in w.declarations
  {
    var (file, declaration) := w.declarations[key];
    match declaration
    case Enum => {}
    case Alias(body) => Refs(w, file, body)
    case Interface(members, bases) => MemberRefs(w, file, members) + HeritageRefs(w, file, bases)
  }

  /** What the declarations of `r` lead to is in `r`. */
  ghost predicate Closed(w: World, r: set<Key>) {
    forall key | key in r && key in w.declarations :: DeclarationRefs(w, key) <= r
  }

  /** The least closed set around `s`. */
  ghost function Reach(w: World, s: set<Key>): set<Key> {
    s + set key | key in w.declarations && forall r | s <= r && Closed(w, r) :: key in r
  }

  lemma ReachLeast(w: World, s: set<Key>, r: set<Key>)
    requires s <= r && Closed(w, r)
    ensures Reach(w, s) <= r
  {
    hide Closed;
  }

  lemma {:induction false} RefsDeclared(w: World, file: File, node: TypeNode)
    ensures Refs(w, file, node) <= w.declarations.Keys
  {
    match node
    case Literal(members) => MembersDeclared(w, file, members);
    case Parenthesized(inner) => RefsDeclared(w, file, inner);
    case Operator(_, inner) => RefsDeclared(w, file, inner);
    case Intersection(parts) => PartsDeclared(w, file, parts);
    case Union(parts) => PartsDeclared(w, file, parts);
    case ArrayOf(element) => RefsDeclared(w, file, element);
    case Indexed(target, _) => RefsDeclared(w, file, target);
    case Reference(_, _, args) =>
      if args != [] {
        RefsDeclared(w, file, args[0]);
      }
    case Opaque =>
  }

  lemma {:induction false} PartsDeclared(w: World, file: File, parts: seq<TypeNode>)
    ensures PartRefs(w, file, parts) <= w.declarations.Keys
  {
    if parts != [] {
      RefsDeclared(w, file, parts[0]);
      PartsDeclared(w, file, parts[1..]);
    }
  }

  lemma {:induction false} MembersDeclared(w: World, file: File, members: seq<Signature>)
    ensures MemberRefs(w, file, members) <= w.declarations.Keys
  {
    if members != [] {
      SignatureDeclared(w, file, members[0]);
      MembersDeclared(w, file, members[1..]);
    }
  }

  lemma {:induction false} SignatureDeclared(w: World, file: File, m: Signature)
    ensures SignatureRefs(w, file, m) <= w.declarations.Keys
  {
    match m
    case Property(_, Some(annotation)) => RefsDeclared(w, file, annotation);
    case _ =>
  }

  lemma {:induction false} HeritageDeclared(w: World, file: File, bases: seq<Option<string>>)
    ensures HeritageRefs(w, file, bases) <= w.declarations.Keys
  {
    if bases != [] {
      HeritageDeclared(w, file, bases[1..]);
    }
  }

  lemma DeclarationRefsDeclared(w: World, key: Key)
    requires key in w.declarations
    ensures DeclarationRefs(w, key) <= w.declarations.Keys
  {
    var (file, declaration) := w.declarations[key];
    match declaration
    case Enum =>
    case Alias(body) => RefsDeclared(w, file, body);
    case Interface(members, bases) =>
      MembersDeclared(w, file, members);
      HeritageDeclared(w, file, bases);
  }

  lemma ReachClosed(w: World, s: set<Key>)
    ensures s <= Reach(w, s) && Closed(w, Reach(w, s))
  {
    var reach := Reach(w, s);
    hide DeclarationRefs;
    forall key | key in reach && key in w.declarations
      ensures DeclarationRefs(w, key) <= reach
    {
      DeclarationRefsDeclared(w, key);
      forall j | j in DeclarationRefs(w, key)
        ensures j in reach
      {
        forall r | s <= r && Closed(w, r)
          ensures j in r
        {
          assert key in r;
        }
      }
    }
  }

  lemma EverythingClosed(w: World)
    ensures Closed(w, w.declarations.Keys)
  {
    hide DeclarationRefs;
    forall key | key in w.declarations
      ensures DeclarationRefs(w, key) <= w.declarations.Keys
    {
      DeclarationRefsDeclared(w, key);
    }
  }
}
