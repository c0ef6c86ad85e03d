/** The shared guard of the type walk: what a larger `seen` set can do to an answer. */
module TypeGuard {

  import opened Options
  import opened TypeLookup
  import opened TypePresence
  import opened TypeSoundness
  import opened TypeReach

  // ---------------------------------------------------------------- marks stay in reach

  /** Everything marked between `seen` and `after` is in `r`. */
  ghost predicate MarksIn(seen: Seen, after: Seen, r: set<Key>) {
    seen <= after && forall mark | mark in after && mark !in seen :: mark.0 in r
  }

  lemma {:induction false} TypeMarks(w: World, r: set<Key>, fuel: nat, file: File, node: TypeNode, steps: seq<Step>,
                                     seen: Seen)
    requires Closed(w, r) && Refs(w, file, node) <= r
    ensures MarksIn(seen, LookupType(w, fuel, file, node, steps, seen).seen, r)
    decreases fuel, 1, 0
  {
    hide Closed;
    if fuel > 0 && steps != [] {
      match node
      case Literal(members) =>
        if steps[0].Member? && FirstWritten(members, steps[0].name).Some? {
          PropertyMarks(w, r, fuel, file, FirstWritten(members, steps[0].name).value, steps, seen);
        }
      case Parenthesized(inner) => TypeMarks(w, r, fuel - 1, file, inner, steps, seen);
      case Operator(_, inner) => TypeMarks(w, r, fuel - 1, file, inner, steps, seen);
      case Intersection(parts) => PartsMarks(w, r, fuel - 1, file, parts, steps, seen);
      case Union(parts) => PartsMarks(w, r, fuel - 1, file, parts, steps, seen);
      case ArrayOf(element) =>
        if steps[0].Element? {
          TypeMarks(w, r, fuel - 1, file, element, steps[1..], seen);
        }
      case Indexed(target, key) =>
        if key.Some? {
          TypeMarks(w, r, fuel - 1, file, target, [Member(key.value)] + steps, seen);
        }
      case Reference(head, qualified, args) =>
        if IsPassthrough(head) && args != [] {
          TypeMarks(w, r, fuel - 1, file, args[0], steps, seen);
        } else if IsArrayName(head) && args != [] {
          if steps[0].Element? {
            TypeMarks(w, r, fuel - 1, file, args[0], steps[1..], seen);
          }
        } else if !qualified && Resolve(w, file, head).Some? {
          DeclarationMarks(w, r, fuel - 1, Resolve(w, file, head).value, steps, seen);
        }
      case Opaque =>
    }
  }

  lemma {:induction false} PropertyMarks(w: World, r: set<Key>, fuel: nat, file: File, p: Signature, steps: seq<Step>,
                                         seen: Seen)
    requires Closed(w, r) && SignatureRefs(w, file, p) <= r && fuel > 0 && steps != [] && p.Property?
    ensures MarksIn(seen, IntoProperty(w, fuel, file, p, steps, seen).seen, r)
    decreases fuel, 0, 0
  {
    if |steps| > 1 && p.annotation.Some? {
      TypeMarks(w, r, fuel - 1, file, p.annotation.value, steps[1..], seen);
    }
  }

  lemma {:induction false} PartsMarks(w: World, r: set<Key>, fuel: nat, file: File, parts: seq<TypeNode>,
                                      steps: seq<Step>, seen: Seen)
    requires Closed(w, r) && PartRefs(w, file, parts) <= r
    ensures MarksIn(seen, LookupParts(w, fuel, file, parts, steps, seen).seen, r)
    decreases fuel, 2, |parts|
  {
    hide Closed;
    if parts != [] {
      TypeMarks(w, r, fuel, file, parts[0], steps, seen);
      PartsMarks(w, r, fuel, file, parts[1..], steps, LookupType(w, fuel, file, parts[0], steps, seen).seen);
    }
  }

  lemma {:induction false} DeclarationMarks(w: World, r: set<Key>, fuel: nat, key: Key, steps: seq<Step>, seen: Seen)
    requires Closed(w, r) && key in r && key in w.declarations
    ensures MarksIn(seen, LookupDeclaration(w, fuel, key, steps, seen).seen, r)
    decreases fuel, 1, 0
  {
    if fuel > 0 && steps != [] && (key, |steps|) !in seen {
      assert DeclarationRefs(w, key) <= r;
      hide Closed;
      var (file, declaration) := w.declarations[key];
      var marked := seen + {(key, |steps|)};
      match declaration
      case Enum =>
      case Alias(body) => TypeMarks(w, r, fuel - 1, file, body, steps, marked);
      case Interface(members, bases) =>
        if steps[0].Member? {
          match FirstWritten(members, steps[0].name)
          case Some(p) => PropertyMarks(w, r, fuel, file, p, steps, marked);
          case None => BasesMarks(w, r, fuel - 1, file, bases, steps, marked);
        }
    }
  }

  lemma {:induction false} BasesMarks(w: World, r: set<Key>, fuel: nat, file: File, bases: seq<Option<string>>,
                                      steps: seq<Step>, seen: Seen)
    requires Closed(w, r) && HeritageRefs(w, file, bases) <= r
    ensures MarksIn(seen, LookupBases(w, fuel, file, bases, steps, seen).seen, r)
    decreases fuel, 2, |bases|
  {
    hide Closed;
    if bases != [] {
      BaseMarks(w, r, fuel, file, bases[0], steps, seen);
      BasesMarks(w, r, fuel, file, bases[1..], steps, LookupBase(w, fuel, file, bases[0], steps, seen).seen);
    }
  }

  lemma {:induction false} BaseMarks(w: World, r: set<Key>, fuel: nat, file: File, base: Option<string>,
                                     steps: seq<Step>, seen: Seen)
    requires Closed(w, r) && BaseRefs(w, file, base) <= r
    ensures MarksIn(seen, LookupBase(w, fuel, file, base, steps, seen).seen, r)
    decreases fuel, 2, 0
  {
    if base.Some? && Resolve(w, file, base.value).Some? {
      DeclarationMarks(w, r, fuel, Resolve(w, file, base.value).value, steps, seen);
    }
  }

  /** `seen` only grows along a walk, by marks of declarations the node leads to. */
  lemma TypeSeenGrows(w: World, fuel: nat, file: File, node: TypeNode, steps: seq<Step>, seen: Seen)
    ensures MarksIn(seen, LookupType(w, fuel, file, node, steps, seen).seen, Reach(w, Refs(w, file, node)))
  {
    ReachClosed(w, Refs(w, file, node));
    TypeMarks(w, Reach(w, Refs(w, file, node)), fuel, file, node, steps, seen);
  }

  // ---------------------------------------------------------------- unshared declarations

  ghost predicate PartsApart(w: World, file: File, parts: seq<TypeNode>) {
    forall i, j | 0 <= i < j < |parts| :: Reach(w, Refs(w, file, parts[i])) !! Reach(w, Refs(w, file, parts[j]))
  }

  ghost predicate BasesApart(w: World, file: File, bases: seq<Option<string>>) {
    forall i, j | 0 <= i < j < |bases| :: Reach(w, BaseRefs(w, file, bases[i])) !! Reach(w, BaseRefs(w, file, bases[j]))
  }

  /** No compound under the node leads to one declaration from two of its branches. */
  ghost predicate Unshared(w: World, file: File, node: TypeNode) {
    match node
    case Literal(members) => forall m | m in members :: SignatureUnshared(w, file, m)
    case Parenthesized(inner) => Unshared(w, file, inner)
    case Operator(_, inner) => Unshared(w, file, inner)
    case Intersection(parts) => PartsApart(w, file, parts) && forall t | t in parts :: Unshared(w, file, t)
    case Union(parts) => PartsApart(w, file, parts) && forall t | t in parts :: Unshared(w, file, t)
    case ArrayOf(element) => Unshared(w, file, element)
    case Indexed(target, key) => if key.Some? then Unshared(w, file, target) else true
    case Reference(head, _, args) =>
      if (IsPassthrough(head) || IsArrayName(head)) && args != [] then Unshared(w, file, args[0]) else true
    case Opaque => true
  }

  ghost predicate SignatureUnshared(w: World, file: File, m: Signature) {
    match m
    case Property(_, Some(annotation)) => Unshared(w, file, annotation)
    case _ => true
  }

  ghost predicate DeclarationUnshared(w: World, key: Key)
    requires key in w.declarations
  {
    var (file, declaration) := w.declarations[key];
    match declaration
    case Enum => true
    case Alias(body) => Unshared(w, file, body)
    case Interface(members, bases) =>
      (forall m | m in members :: SignatureUnshared(w, file, m)) && BasesApart(w, file, bases)
  }

  ghost predicate AllUnshared(w: World, r: set<Key>) {
    Closed(w, r) && forall key | key in r && key in w.declarations :: DeclarationUnshared(w, key)
  }

  // -------------------------------------------------------------------- monotone answers

  /** The same answer, or an open one. */
  ghost predicate Weaker(a: Option<Lookup>, b: Option<Lookup>) {
    a.Some? ==> b == a || b == Some(Unknown)
  }

  /** Within `r`, what is marked in `seen` is marked in `other`. */
  ghost predicate Fewer(seen: Seen, other: Seen, r: set<Key>) {
    forall mark | mark in seen && mark.0 in r :: mark in other
  }

  ghost predicate AllWeaker(a: Option<seq<Lookup>>, b: Option<seq<Lookup>>) {
    a.Some? ==>
      && b.Some? && |b.value| == |a.value|
      && forall i | 0 <= i < |a.value| :: b.value[i] == a.value[i] || b.value[i] == Unknown
  }

  lemma CombineWeaker(a: seq<Lookup>, b: seq<Lookup>)
    requires AllWeaker(Some(a), Some(b))
    ensures Combine(b) == Combine(a) || Combine(b) == Unknown
  {
    if Found in b {
      var i :| 0 <= i < |b| && b[i] == Found;
      assert a[i] in a;
    }
    if Combine(b) == Missing {
      forall x | x in a
        ensures x == Missing
      {
        var i :| 0 <= i < |a| && a[i] == x;
        assert b[i] in b;
      }
    }
  }

  lemma AgreeWeaker(a: seq<Lookup>, b: seq<Lookup>)
    requires AllWeaker(Some(a), Some(b))
    ensures Agree(b) == Agree(a) || Agree(b) == Unknown
  {
    forall x | x in a
      ensures Agree(b) != Unknown ==> x == Agree(b)
    {
      var i :| 0 <= i < |a| && a[i] == x;
      assert b[i] in b;
    }
    if a == [] {
      assert b == [];
    } else {
      assert a[0] in a && b[0] in b;
    }
  }

  /** Parts that lead to different declarations cannot see one another's marks. */
  lemma FewerAfter(w: World, seen: Seen, other: Seen, after: Seen, otherAfter: Seen, here: set<Key>, there: set<Key>)
    requires Fewer(seen, other, there) && here !! there
    requires MarksIn(seen, after, here) && other <= otherAfter
    ensures Fewer(after, otherAfter, there)
  {
    forall mark | mark in after && mark.0 in there
      ensures mark in otherAfter
    {
      assert mark in seen;
    }
  }

  /** Where no declaration is shared, a larger guard set leaves the answer or opens it. */
  lemma {:induction false} TypeMonotone(w: World, r: set<Key>, fuel: nat, file: File, node: TypeNode, steps: seq<Step>,
                                        seen: Seen, other: Seen)
    requires AllUnshared(w, r) && Refs(w, file, node) <= r && Unshared(w, file, node) && Fewer(seen, other, r)
    ensures Weaker(LookupType(w, fuel, file, node, steps, seen).result,
        LookupType(w, fuel, file, node, steps, other).result)
    decreases fuel, 1, 0
  {
    hide AllUnshared, Fewer, PartsApart;
    if fuel > 0 && steps != [] {
      match node
      case Literal(members) =>
        if steps[0].Member? && FirstWritten(members, steps[0].name).Some? {
          PropertyMonotone(w, r, fuel, file, FirstWritten(members, steps[0].name).value, steps, seen, other);
        }
      case Parenthesized(inner) => TypeMonotone(w, r, fuel - 1, file, inner, steps, seen, other);
      case Operator(_, inner) => TypeMonotone(w, r, fuel - 1, file, inner, steps, seen, other);
      case Intersection(parts) =>
        PartsMonotoneIn(w, r, fuel - 1, file, parts, steps, seen, other);
        var a := LookupParts(w, fuel - 1, file, parts, steps, seen).results;
        if a.Some? {
          CombineWeaker(a.value, LookupParts(w, fuel - 1, file, parts, steps, other).results.value);
        }
      case Union(parts) =>
        PartsMonotoneIn(w, r, fuel - 1, file, parts, steps, seen, other);
        var a := LookupParts(w, fuel - 1, file, parts, steps, seen).results;
        if a.Some? {
          AgreeWeaker(a.value, LookupParts(w, fuel - 1, file, parts, steps, other).results.value);
        }
      case ArrayOf(element) =>
        if steps[0].Element? {
          TypeMonotone(w, r, fuel - 1, file, element, steps[1..], seen, other);
        }
      case Indexed(target, key) =>
        if key.Some? {
          TypeMonotone(w, r, fuel - 1, file, target, [Member(key.value)] + steps, seen, other);
        }
      case Reference(head, qualified, args) =>
        if IsPassthrough(head) && args != [] {
          TypeMonotone(w, r, fuel - 1, file, args[0], steps, seen, other);
        } else if IsArrayName(head) && args != [] {
          if steps[0].Element? {
            TypeMonotone(w, r, fuel - 1, file, args[0], steps[1..], seen, other);
          }
        } else if !qualified && Resolve(w, file, head).Some? {
          DeclarationMonotone(w, r, fuel - 1, Resolve(w, file, head).value, steps, seen, other);
        }
      case Opaque =>
    }
  }

  lemma {:induction false} PropertyMonotone(w: World, r: set<Key>, fuel: nat, file: File, p: Signature,
                                            steps: seq<Step>, seen: Seen, other: Seen)
    requires AllUnshared(w, r) && SignatureRefs(w, file, p) <= r && SignatureUnshared(w, file, p) &&
        Fewer(seen, other, r)
    requires fuel > 0 && steps != [] && p.Property?
    ensures Weaker(IntoProperty(w, fuel, file, p, steps, seen).result,
        IntoProperty(w, fuel, file, p, steps, other).result)
    decreases fuel, 0, 0
  {
    hide AllUnshared, Fewer;
    if |steps| > 1 && p.annotation.Some? {
      TypeMonotone(w, r, fuel - 1, file, p.annotation.value, steps[1..], seen, other);
    }
  }

  /** Each part has its own reach. */
  ghost predicate PartsFewer(w: World, file: File, parts: seq<TypeNode>, seen: Seen, other: Seen) {
    forall i | 0 <= i < |parts| :: Fewer(seen, other, Reach(w, Refs(w, file, parts[i])))
  }

  ghost predicate PartsUnshared(w: World, file: File, parts: seq<TypeNode>) {
    forall i | 0 <= i < |parts| :: Unshared(w, file, parts[i]) && AllUnshared(w, Reach(w, Refs(w, file, parts[i])))
  }

  lemma PartsWithin(w: World, r: set<Key>, file: File, parts: seq<TypeNode>, seen: Seen, other: Seen)
    requires AllUnshared(w, r) && PartRefs(w, file, parts) <= r && Fewer(seen, other, r)
    requires forall t | t in parts :: Unshared(w, file, t)
    ensures PartsFewer(w, file, parts, seen, other) && PartsUnshared(w, file, parts)
  {
    hide Refs, Unshared, DeclarationUnshared, Closed;
    forall i | 0 <= i < |parts|
      ensures Fewer(seen, other, Reach(w, Refs(w, file, parts[i])))
      ensures Unshared(w, file, parts[i]) && AllUnshared(w, Reach(w, Refs(w, file, parts[i])))
    {
      assert parts[i] in parts;
      ReachLeast(w, Refs(w, file, parts[i]), r);
      ReachClosed(w, Refs(w, file, parts[i]));
      hide Reach;
    }
  }

  lemma {:induction false} PartsMonotoneIn(w: World, r: set<Key>, fuel: nat, file: File, parts: seq<TypeNode>,
                                           steps: seq<Step>, seen: Seen, other: Seen)
    requires AllUnshared(w, r) && PartRefs(w, file, parts) <= r && Fewer(seen, other, r) && PartsApart(w, file, parts)
    requires forall t | t in parts :: Unshared(w, file, t)
    ensures AllWeaker(LookupParts(w, fuel, file, parts, steps, seen).results,
                      LookupParts(w, fuel, file, parts, steps, other).results)
    decreases fuel, 3, |parts|
  {
    PartsWithin(w, r, file, parts, seen, other);
    PartsMonotone(w, fuel, file, parts, steps, seen, other);
  }

  lemma {:induction false} PartsMonotone(w: World, fuel: nat, file: File, parts: seq<TypeNode>, steps: seq<Step>,
                                         seen: Seen, other: Seen)
    requires PartsFewer(w, file, parts, seen, other) && PartsUnshared(w, file, parts) && PartsApart(w, file, parts)
    ensures AllWeaker(LookupParts(w, fuel, file, parts, steps, seen).results,
                      LookupParts(w, fuel, file, parts, steps, other).results)
    decreases fuel, 2, |parts|
  {
    if parts != [] {
      var reach := Reach(w, Refs(w, file, parts[0]));
      ReachClosed(w, Refs(w, file, parts[0]));
      hide LookupType, Reach, Refs, Unshared, AllUnshared, Fewer, Closed;
      TypeMonotone(w, reach, fuel, file, parts[0], steps, seen, other);
      var after := LookupType(w, fuel, file, parts[0], steps, seen).seen;
      var otherAfter := LookupType(w, fuel, file, parts[0], steps, other).seen;
      TypeSeenGrows(w, fuel, file, parts[0], steps, seen);
      TypeSeenGrows(w, fuel, file, parts[0], steps, other);
      var rest := parts[1..];
      forall i | 0 <= i < |rest|
        ensures Fewer(after, otherAfter, Reach(w, Refs(w, file, rest[i])))
      {
        assert rest[i] == parts[i + 1];
        FewerAfter(w, seen, other, after, otherAfter, reach, Reach(w, Refs(w, file, rest[i])));
      }
      PartsMonotone(w, fuel, file, rest, steps, after, otherAfter);
    }
  }

  lemma {:induction false} DeclarationMonotone(w: World, r: set<Key>, fuel: nat, key: Key, steps: seq<Step>,
                                               seen: Seen, other: Seen)
    requires AllUnshared(w, r) && key in r && key in w.declarations && Fewer(seen, other, r)
    ensures Weaker(LookupDeclaration(w, fuel, key, steps, seen).result,
        LookupDeclaration(w, fuel, key, steps, other).result)
    decreases fuel, 1, 0
  {
    if fuel > 0 && steps != [] && (key, |steps|) !in seen && (key, |steps|) !in other {
      assert DeclarationRefs(w, key) <= r && DeclarationUnshared(w, key);
      var marked, otherMarked := seen + {(key, |steps|)}, other + {(key, |steps|)};
      assert Fewer(marked, otherMarked, r);
      hide AllUnshared, Fewer, BasesApart;
      var (file, declaration) := w.declarations[key];
      match declaration
      case Enum =>
      case Alias(body) => TypeMonotone(w, r, fuel - 1, file, body, steps, marked, otherMarked);
      case Interface(members, bases) =>
        if steps[0].Member? {
          match FirstWritten(members, steps[0].name)
          case Some(p) => PropertyMonotone(w, r, fuel, file, p, steps, marked, otherMarked);
          case None =>
            BasesMonotoneIn(w, r, fuel - 1, file, bases, steps, marked, otherMarked);
            var a := LookupBases(w, fuel - 1, file, bases, steps, marked).results;
            if a.Some? {
              CombineWeaker(a.value, LookupBases(w, fuel - 1, file, bases, steps, otherMarked).results.value);
            }
        }
    }
  }

  ghost predicate BasesFewer(w: World, file: File, bases: seq<Option<string>>, seen: Seen, other: Seen) {
    forall i | 0 <= i < |bases| ::
      && Fewer(seen, other, Reach(w, BaseRefs(w, file, bases[i])))
      && AllUnshared(w, Reach(w, BaseRefs(w, file, bases[i])))
  }

  lemma {:induction false} BasesMonotoneIn(w: World, r: set<Key>, fuel: nat, file: File, bases: seq<Option<string>>,
                                           steps: seq<Step>, seen: Seen, other: Seen)
    requires AllUnshared(w, r) && HeritageRefs(w, file, bases) <= r && Fewer(seen, other, r) &&
        BasesApart(w, file, bases)
    ensures AllWeaker(LookupBases(w, fuel, file, bases, steps, seen).results,
                      LookupBases(w, fuel, file, bases, steps, other).results)
    decreases fuel, 3, |bases|
  {
    hide DeclarationUnshared, Closed;
    forall i | 0 <= i < |bases|
      ensures Fewer(seen, other, Reach(w, BaseRefs(w, file, bases[i])))
      ensures AllUnshared(w, Reach(w, BaseRefs(w, file, bases[i])))
    {
      assert bases[i] in bases;
      ReachLeast(w, BaseRefs(w, file, bases[i]), r);
      ReachClosed(w, BaseRefs(w, file, bases[i]));
      hide Reach;
    }
    BasesMonotone(w, fuel, file, bases, steps, seen, other);
  }

  lemma {:induction false} BasesMonotone(w: World, fuel: nat, file: File, bases: seq<Option<string>>, steps: seq<Step>,
                                         seen: Seen, other: Seen)
    requires BasesFewer(w, file, bases, seen, other) && BasesApart(w, file, bases)
    ensures AllWeaker(LookupBases(w, fuel, file, bases, steps, seen).results,
                      LookupBases(w, fuel, file, bases, steps, other).results)
    decreases fuel, 2, |bases|
  {
    hide BasesFewer, BasesApart, LookupBase;
    if bases != [] {
      BaseMonotone(w, fuel, file, bases, steps, seen, other);
      var after := LookupBase(w, fuel, file, bases[0], steps, seen).seen;
      var otherAfter := LookupBase(w, fuel, file, bases[0], steps, other).seen;
      BasesFewerAfter(w, fuel, file, bases, steps, seen, other);
      BasesMonotone(w, fuel, file, bases[1..], steps, after, otherAfter);
    }
  }

  lemma {:induction false} BaseMonotone(w: World, fuel: nat, file: File, bases: seq<Option<string>>, steps: seq<Step>,
                                        seen: Seen, other: Seen)
    requires bases != [] && BasesFewer(w, file, bases, seen, other)
    ensures Weaker(LookupBase(w, fuel, file, bases[0], steps, seen).result,
        LookupBase(w, fuel, file, bases[0], steps, other).result)
    decreases fuel, 1, 1
  {
    hide AllUnshared, Fewer, Closed;
    if bases[0].Some? && Resolve(w, file, bases[0].value).Some? {
      ReachClosed(w, BaseRefs(w, file, bases[0]));
      hide Reach;
      DeclarationMonotone(w, Reach(w, BaseRefs(w, file, bases[0])), fuel, Resolve(w, file, bases[0].value).value, steps,
        seen, other);
    }
  }

  /** What the first base marks concerns none of the others. */
  lemma BasesFewerAfter(w: World, fuel: nat, file: File, bases: seq<Option<string>>, steps: seq<Step>, seen: Seen,
                        other: Seen)
    requires bases != [] && BasesFewer(w, file, bases, seen, other) && BasesApart(w, file, bases)
    ensures BasesFewer(w, file, bases[1..], LookupBase(w, fuel, file, bases[0], steps, seen).seen,
                       LookupBase(w, fuel, file, bases[0], steps, other).seen)
    ensures BasesApart(w, file, bases[1..])
  {
    hide LookupBase, AllUnshared, Fewer, Closed, BaseRefs;
    var reach := Reach(w, BaseRefs(w, file, bases[0]));
    ReachClosed(w, BaseRefs(w, file, bases[0]));
    hide Reach;
    BaseMarks(w, reach, fuel, file, bases[0], steps, seen);
    BaseMarks(w, reach, fuel, file, bases[0], steps, other);
    var after := LookupBase(w, fuel, file, bases[0], steps, seen).seen;
    var otherAfter := LookupBase(w, fuel, file, bases[0], steps, other).seen;
    var rest := bases[1..];
    forall i | 0 <= i < |rest|
      ensures Fewer(after, otherAfter, Reach(w, BaseRefs(w, file, rest[i])))
      ensures AllUnshared(w, Reach(w, BaseRefs(w, file, rest[i])))
    {
      assert rest[i] == bases[i + 1];
      FewerAfter(w, seen, other, after, otherAfter, reach, Reach(w, BaseRefs(w, file, rest[i])));
    }
  }

  /** Nothing the node leads to is shared between branches. */
  ghost predicate Separate(w: World, file: File, node: TypeNode) {
    Unshared(w, file, node) && AllUnshared(w, Reach(w, Refs(w, file, node)))
  }

  /** If no declaration can be reached from two branches of a compound or of a heritage list, a
      larger `seen` set leaves an answer as it is or turns it into unknown. */
  lemma LargerSeenOpens(w: World, fuel: nat, file: File, node: TypeNode, steps: seq<Step>, seen: Seen, other: Seen)
    requires Separate(w, file, node) && seen <= other
    ensures Weaker(LookupType(w, fuel, file, node, steps, seen).result,
        LookupType(w, fuel, file, node, steps, other).result)
  {
    ReachClosed(w, Refs(w, file, node));
    hide Unshared, AllUnshared, Reach, Refs, Closed, LookupType;
    TypeMonotone(w, Reach(w, Refs(w, file, node)), fuel, file, node, steps, seen, other);
  }

  /** It is enough that the larger set has all the smaller one has of what the node leads to. */
  lemma FewerOpens(w: World, fuel: nat, file: File, node: TypeNode, steps: seq<Step>, seen: Seen, other: Seen)
    requires Separate(w, file, node) && Fewer(seen, other, Reach(w, Refs(w, file, node)))
    ensures Weaker(LookupType(w, fuel, file, node, steps, seen).result,
        LookupType(w, fuel, file, node, steps, other).result)
  {
    ReachClosed(w, Refs(w, file, node));
    hide Unshared, AllUnshared, Reach, Refs, Closed, LookupType, Fewer;
    TypeMonotone(w, Reach(w, Refs(w, file, node)), fuel, file, node, steps, seen, other);
  }

  // -------------------------------------------------------------- what sharing does to a pair

  /** The answers of an intersection of two parts, and where the first leaves the guard. */
  ghost predicate PairAnswers(w: World, fuel: nat, file: File, p: TypeNode, q: TypeNode, steps: seq<Step>, seen: Seen,
                              x: Lookup, y: Lookup, after: Seen)
  {
    && LookupType(w, fuel, file, p, steps, seen) == Answer(Some(x), after)
    && LookupType(w, fuel, file, q, steps, after).result == Some(y)
  }

  /** From the larger set the first part answers the same or is open, and the second part's
      answers do not contradict each other. */
  lemma SecondAgrees(w: World, fuel: nat, file: File, p: TypeNode, q: TypeNode, steps: seq<Step>,
                     seen: Seen, x: Lookup, y: Lookup, after: Seen,
                     other: Seen, x': Lookup, y': Lookup, otherAfter: Seen)
    requires seen <= other && Separate(w, file, p)
    requires PairAnswers(w, fuel, file, p, q, steps, seen, x, y, after)
    requires PairAnswers(w, fuel, file, p, q, steps, other, x', y', otherAfter)
    ensures x' == x || x' == Unknown
    ensures y == Unknown || y' == Unknown || y == y'
  {
    LargerSeenOpens(w, fuel, file, p, steps, seen, other);
    hide LookupType, Separate;
    if y == Found {
      NeverContradicts(w, file, q, steps, fuel, fuel, after, otherAfter);
    }
    if y' == Found {
      NeverContradicts(w, file, q, steps, fuel, fuel, otherAfter, after);
    }
  }

  /** When a larger guard set decides an intersection of two parts: exactly when from the smaller
      one the second part was opened by what the first had marked, the first did not find the
      path, and from the larger one the second part finds it, or both miss it. */
  lemma PairDecidesIff(w: World, fuel: nat, file: File, p: TypeNode, q: TypeNode, steps: seq<Step>,
                       seen: Seen, x: Lookup, y: Lookup, after: Seen,
                       other: Seen, x': Lookup, y': Lookup, otherAfter: Seen)
    requires steps != [] && seen <= other && Separate(w, file, p)
    requires PairAnswers(w, fuel, file, p, q, steps, seen, x, y, after)
    requires PairAnswers(w, fuel, file, p, q, steps, other, x', y', otherAfter)
    ensures !Weaker(LookupType(w, fuel + 1, file, Intersection([p, q]), steps, seen).result,
                    LookupType(w, fuel + 1, file, Intersection([p, q]), steps, other).result)
       <==> y == Unknown && ((x != Found && y' == Found) || (x' == Missing && y' == Missing))
  {
    hide LookupType, LookupParts, Separate, Combine, Agree;
    PairResult(w, fuel + 1, file, p, q, steps, seen);
    PairResult(w, fuel + 1, file, p, q, steps, other);
    SecondAgrees(w, fuel, file, p, q, steps, seen, x, y, after, other, x', y', otherAfter);
    CombinePair(x, y);
    CombinePair(x', y');
  }

  /** When it decides a union of two parts: exactly when from the smaller set the second part was
      opened by what the first had marked, and from the larger one the two agree. */
  lemma UnionDecidesIff(w: World, fuel: nat, file: File, p: TypeNode, q: TypeNode, steps: seq<Step>,
                        seen: Seen, x: Lookup, y: Lookup, after: Seen,
                        other: Seen, x': Lookup, y': Lookup, otherAfter: Seen)
    requires steps != [] && seen <= other && Separate(w, file, p)
    requires PairAnswers(w, fuel, file, p, q, steps, seen, x, y, after)
    requires PairAnswers(w, fuel, file, p, q, steps, other, x', y', otherAfter)
    ensures !Weaker(LookupType(w, fuel + 1, file, Union([p, q]), steps, seen).result,
                    LookupType(w, fuel + 1, file, Union([p, q]), steps, other).result)
       <==> y == Unknown && x' == y' && y' != Unknown
  {
    hide LookupType, LookupParts, Separate, Combine, Agree;
    PairResult(w, fuel + 1, file, p, q, steps, seen);
    PairResult(w, fuel + 1, file, p, q, steps, other);
    SecondAgrees(w, fuel, file, p, q, steps, seen, x, y, after, other, x', y', otherAfter);
    AgreePair(x, y);
    AgreePair(x', y');
  }

  lemma AgreePair(x: Lookup, y: Lookup)
    ensures Agree([x, y]) == if x == y then x else Unknown
  {
    var pair := [x, y];
    assert pair[0] in pair && pair[1] in pair;
  }

  lemma CombinePair(x: Lookup, y: Lookup)
    ensures Combine([x, y]) ==
      if x == Found || y == Found then Found else if x == Unknown || y == Unknown then Unknown else Missing
  {
    var pair := [x, y];
    assert pair[0] in pair && pair[1] in pair;
  }

  /** And then the two parts share a declaration that the first marks from the smaller set only. */
  lemma DecidedByShared(w: World, fuel: nat, file: File, p: TypeNode, q: TypeNode, steps: seq<Step>, seen: Seen,
                        other: Seen)
    returns (mark: (Key, nat))
    requires fuel > 0 && steps != [] && seen <= other && Separate(w, file, p) && Separate(w, file, q)
    requires !Weaker(LookupType(w, fuel, file, Intersection([p, q]), steps, seen).result,
                     LookupType(w, fuel, file, Intersection([p, q]), steps, other).result)
    ensures mark.0 in Reach(w, Refs(w, file, p)) && mark.0 in Reach(w, Refs(w, file, q))
    ensures mark in LookupType(w, fuel - 1, file, p, steps, seen).seen
    ensures mark !in LookupType(w, fuel - 1, file, p, steps, other).seen
  {
    hide LookupType, Separate, Reach, Refs, Weaker;
    var after := LookupType(w, fuel - 1, file, p, steps, seen).seen;
    var otherAfter := LookupType(w, fuel - 1, file, p, steps, other).seen;
    var there := Reach(w, Refs(w, file, q));
    TypeSeenGrows(w, fuel - 1, file, p, steps, seen);
    TypeSeenGrows(w, fuel - 1, file, p, steps, other);
    if Fewer(after, otherAfter, there) {
      PairMonotone(w, fuel, file, p, q, steps, seen, other);
    }
    mark :| mark in after && mark.0 in there && mark !in otherAfter;
  }

  lemma PairMonotone(w: World, fuel: nat, file: File, p: TypeNode, q: TypeNode, steps: seq<Step>, seen: Seen,
                     other: Seen)
    requires fuel > 0 && steps != [] && seen <= other && Separate(w, file, p) && Separate(w, file, q)
    requires Fewer(LookupType(w, fuel - 1, file, p, steps, seen).seen,
        LookupType(w, fuel - 1, file, p, steps, other).seen,
                   Reach(w, Refs(w, file, q)))
    ensures Weaker(LookupType(w, fuel, file, Intersection([p, q]), steps, seen).result,
                   LookupType(w, fuel, file, Intersection([p, q]), steps, other).result)
  {
    hide LookupType, LookupParts, Separate, Reach, Refs, Fewer, PairAnswer, Combine;
    PairResult(w, fuel, file, p, q, steps, seen);
    PairResult(w, fuel, file, p, q, steps, other);
    PairWeaker(w, fuel - 1, file, p, q, steps, seen, other);
    var x, y := PairAnswer(w, fuel - 1, file, p, q, steps, seen), PairAnswer(w, fuel - 1, file, p, q, steps, other);
    if x.results.Some? {
      CombineWeaker(x.results.value, y.results.value);
    }
  }

  lemma PairWeaker(w: World, fuel: nat, file: File, p: TypeNode, q: TypeNode, steps: seq<Step>, seen: Seen, other: Seen)
    requires seen <= other && Separate(w, file, p) && Separate(w, file, q)
    requires Fewer(LookupType(w, fuel, file, p, steps, seen).seen, LookupType(w, fuel, file, p, steps, other).seen,
                   Reach(w, Refs(w, file, q)))
    ensures AllWeaker(PairAnswer(w, fuel, file, p, q, steps, seen).results,
        PairAnswer(w, fuel, file, p, q, steps, other).results)
  {
    hide LookupType, Separate, Reach, Refs, Fewer;
    LargerSeenOpens(w, fuel, file, p, steps, seen, other);
    FewerOpens(w, fuel, file, q, steps, LookupType(w, fuel, file, p, steps, seen).seen,
               LookupType(w, fuel, file, p, steps, other).seen);
  }

  /** The answers of two parts, walked one after the other. */
  ghost function PairAnswer(w: World, fuel: nat, file: File, p: TypeNode, q: TypeNode, steps: seq<Step>,
                            seen: Seen): Answers {
    var x := LookupType(w, fuel, file, p, steps, seen);
    if x.result.None? then Answers(None, x.seen)
    else
      var y := LookupType(w, fuel, file, q, steps, x.seen);
      Answers(if y.result.None? then None else Some([x.result.value, y.result.value]), y.seen)
  }

  lemma PairParts(w: World, fuel: nat, file: File, p: TypeNode, q: TypeNode, steps: seq<Step>, seen: Seen)
    ensures LookupParts(w, fuel, file, [p, q], steps, seen) == PairAnswer(w, fuel, file, p, q, steps, seen)
  {
    var parts, last := [p, q], [q];
    assert parts[1..] == last && last[1..] == [];
    PartsFirst(w, fuel, file, parts, steps, seen);
    hide LookupType;
    var x := LookupType(w, fuel, file, p, steps, seen);
    var y := LookupType(w, fuel, file, q, steps, x.seen);
    PartsFirst(w, fuel, file, last, steps, x.seen);
    assert LookupParts(w, fuel, file, [], steps, y.seen) == Answers(Some([]), y.seen);
    if x.result.Some? && y.result.Some? {
      assert [y.result.value] + [] == [y.result.value];
      assert [x.result.value] + [y.result.value] == [x.result.value, y.result.value];
    }
  }

  lemma PartsFirst(w: World, fuel: nat, file: File, parts: seq<TypeNode>, steps: seq<Step>, seen: Seen)
    requires parts != []
    ensures var x := LookupType(w, fuel, file, parts[0], steps, seen);
      var rest := LookupParts(w, fuel, file, parts[1..], steps, x.seen);
      LookupParts(w, fuel, file, parts, steps, seen)
        == if x.result.None? then Answers(None, x.seen)
           else Answers(if rest.results.None? then None else Some([x.result.value] + rest.results.value), rest.seen)
  {
    hide LookupType;
  }

  lemma PairResult(w: World, fuel: nat, file: File, p: TypeNode, q: TypeNode, steps: seq<Step>, seen: Seen)
    requires fuel > 0 && steps != []
    ensures var all := PairAnswer(w, fuel - 1, file, p, q, steps, seen);
      && LookupType(w, fuel, file, Intersection([p, q]), steps, seen)
        == Answer(if all.results.None? then None else Some(Combine(all.results.value)), all.seen)
      && LookupType(w, fuel, file, Union([p, q]), steps, seen)
        == Answer(if all.results.None? then None else Some(Agree(all.results.value)), all.seen)
  {
    PairParts(w, fuel - 1, file, p, q, steps, seen);
    hide PairAnswer, LookupParts;
  }

  // ------------------------------------------------- a shared declaration on one walk

  function Named(name: string): TypeNode {
    Reference(name, false, [])
  }

  /** `D & E` */
  function Pair(): TypeNode {
    Intersection([Named("D"), Named("E")])
  }

  /** `type D = (D & E) | <opaque>` and `interface E { x }`: both parts of `D & E` lead to `E`. */
  function SharedWorld(): World {
    World(map[0 := (0, Alias(Union([Pair(), Opaque]))),
              1 := (0, Interface([Property(MemberName("x", Some("x")), None)], []))],
          map[(0, "D") := 0, (0, "E") := 1])
  }

  lemma SharedE(fuel: nat, seen: Seen)
    requires fuel >= 2
    ensures LookupType(SharedWorld(), fuel, 0, Named("E"), [Member("x")], seen)
         == Answer(Some(if (1, 1) in seen then Unknown else Found), seen + {(1, 1)})
  {
    var w, steps, members := SharedWorld(), [Member("x")], [Property(MemberName("x", Some("x")), None)];
    assert Resolve(w, 0, "E") == Some(1);
    assert w.declarations[1] == (0, Interface(members, []));
    assert members[0].name.written == "x" && FirstWritten(members, "x") == Some(members[0]);
    assert |steps| == 1 && steps[0] == Member("x");
    var answer := Answer(Some(if (1, 1) in seen then Unknown else Found), seen + {(1, 1)});
    if (1, 1) in seen {
      assert seen + {(1, 1)} == seen;
    }
    assert LookupDeclaration(w, fuel - 1, 1, steps, seen) == answer;
    assert LookupType(w, fuel, 0, Reference("E", false, []), steps, seen) == answer;
  }

  /** Entering `D` marks it and walks its body, where `D & E` stands again. */
  lemma EnterD(fuel: nat, seen: Seen)
    requires fuel >= 2
    ensures LookupType(SharedWorld(), fuel, 0, Named("D"), [Member("x")], seen)
         == if (0, 1) in seen then Answer(Some(Unknown), seen)
            else LookupType(SharedWorld(), fuel - 2, 0, Union([Pair(), Opaque]), [Member("x")], seen + {(0, 1)})
  {
    var w, steps := SharedWorld(), [Member("x")];
    assert Resolve(w, 0, "D") == Some(0);
    assert LookupType(w, fuel, 0, Named("D"), steps, seen) == LookupDeclaration(w, fuel - 1, 0, steps, seen);
  }

  /** Inside `D`, where `D` is marked, the pair finds the member of `E`. */
  lemma PairInside(fuel: nat)
    requires fuel >= 3
    ensures LookupType(SharedWorld(), fuel, 0, Pair(), [Member("x")], {(0, 1)})
         == Answer(Some(Found), {(0, 1), (1, 1)})
  {
    var w, steps, inside := SharedWorld(), [Member("x")], {(0, 1)};
    EnterD(fuel - 1, inside);
    SharedE(fuel - 1, inside);
    hide LookupType, SharedWorld;
    PairResult(w, fuel, 0, Named("D"), Named("E"), steps, inside);
    CombinePair(Unknown, Found);
    assert inside + {(1, 1)} == {(0, 1), (1, 1)};
  }

  lemma OpaqueOpen(w: World, fuel: nat, file: File, steps: seq<Step>, seen: Seen)
    requires fuel > 0 && steps != []
    ensures LookupType(w, fuel, file, Opaque, steps, seen) == Answer(Some(Unknown), seen)
  {
  }

  /** From the empty set `D` is open, with both declarations marked. */
  lemma OpenD(fuel: nat)
    requires fuel >= 6
    ensures LookupType(SharedWorld(), fuel, 0, Named("D"), [Member("x")], {}) == Answer(Some(Unknown), {(0, 1), (1, 1)})
  {
    hide LookupType, LookupParts, SharedWorld, Pair;
    var w, steps := SharedWorld(), [Member("x")];
    var none: Seen := {};
    EnterD(fuel, none);
    assert none + {(0, 1)} == {(0, 1)};
    PairInside(fuel - 3);
    OpaqueOpen(w, fuel - 3, 0, steps, {(0, 1), (1, 1)});
    PairResult(w, fuel - 2, 0, Pair(), Opaque, steps, {(0, 1)});
    var mixed := [Found, Unknown];
    assert mixed[0] in mixed && mixed[1] in mixed;
  }

  /** The node `D & E`, walked from the empty set, is unknown; on that walk it is met again
      inside `D`, from a larger set, and the path is found. With the parts the other way round
      the same type answers found from the empty set. Its parts share `E`. */
  lemma LargerSeenCanDecide(fuel: nat)
    requires fuel >= 7
    ensures var w, steps := SharedWorld(), [Member("x")];
      && LookupType(w, fuel, 0, Pair(), steps, {}).result == Some(Unknown)
      && LookupType(w, fuel - 1, 0, Named("D"), steps, {})
        == LookupType(w, fuel - 3, 0, Union([Pair(), Opaque]), steps, {(0, 1)})
      && LookupType(w, fuel - 4, 0, Pair(), steps, {(0, 1)}).result == Some(Found)
      && LookupType(w, fuel, 0, Intersection([Named("E"), Named("D")]), steps, {}).result == Some(Found)
      && 1 in Reach(w, Refs(w, 0, Named("D"))) * Reach(w, Refs(w, 0, Named("E")))
  {
    var w, steps := SharedWorld(), [Member("x")];
    var none: Seen := {};
    assert none + {(0, 1)} == {(0, 1)} && none + {(1, 1)} == {(1, 1)};
    EnterD(fuel - 1, none);
    PairInside(fuel - 4);
    OpenD(fuel - 1);
    SharedE(fuel - 1, {(0, 1), (1, 1)});
    SharedE(fuel - 1, none);
    EReached();
    DAnswers(fuel - 1, {(1, 1)});
    hide LookupType, SharedWorld, Reach, Refs;
    PairResult(w, fuel, 0, Named("D"), Named("E"), steps, none);
    PairResult(w, fuel, 0, Named("E"), Named("D"), steps, none);
    CombinePair(Unknown, Unknown);
    var y := LookupType(w, fuel - 1, 0, Named("D"), steps, {(1, 1)}).result;
    CombinePair(Found, y.value);
  }

  lemma DAnswers(fuel: nat, seen: Seen)
    requires fuel >= 6
    ensures LookupType(SharedWorld(), fuel, 0, Named("D"), [Member("x")], seen).result.Some?
  {
    var w, steps := SharedWorld(), [Member("x")];
    EnterD(fuel, seen);
    if (0, 1) !in seen {
      var inside := seen + {(0, 1)};
      EnterD(fuel - 4, inside);
      SharedE(fuel - 4, inside);
      var after := inside + {(1, 1)};
      assert LookupType(w, fuel - 3, 0, Opaque, steps, after) == Answer(Some(Unknown), after);
      hide LookupType, SharedWorld;
      PairResult(w, fuel - 3, 0, Named("D"), Named("E"), steps, inside);
      PairResult(w, fuel - 2, 0, Pair(), Opaque, steps, inside);
    }
  }

  lemma EReached()
    ensures 1 in Reach(SharedWorld(), Refs(SharedWorld(), 0, Named("D")))
    ensures 1 in Reach(SharedWorld(), Refs(SharedWorld(), 0, Named("E")))
  {
    SharedRefs();
    var w := SharedWorld();
    ReachClosed(w, {0});
    ReachClosed(w, {1});
    assert 0 in w.declarations;
    hide Refs, Reach, SharedWorld, DeclarationRefs;
    assert DeclarationRefs(w, 0) <= Reach(w, {0});
  }

  lemma SharedRefs()
    ensures Refs(SharedWorld(), 0, Named("D")) == {0} && Refs(SharedWorld(), 0, Named("E")) == {1}
    ensures 0 in SharedWorld().declarations && 1 in DeclarationRefs(SharedWorld(), 0)
  {
    var w := SharedWorld();
    assert Resolve(w, 0, "D") == Some(0) && Resolve(w, 0, "E") == Some(1);
    var parts, body := [Named("D"), Named("E")], [Pair(), Opaque];
    assert parts[1] in parts && body[0] in body;
  }
}
