/** The type walk is complete: with frames enough, and no declaration shared between branches, it
    finds what the declarations say is there and misses what they say is not. */
module TypeComplete {

  import opened Options
  import opened TypeLookup
  import opened TypePresence
  import opened TypeSoundness
  import opened TypeReach
  import opened TypeGuard
  import opened TypeTermination

  // ----------------------------------------------------------- marks that cannot block the walk

  lemma ReachWithin(w: World, s: set<Key>, t: set<Key>)
    requires s <= Reach(w, t)
    ensures Reach(w, s) <= Reach(w, t)
  {
    ReachClosed(w, t);
    ReachLeast(w, s, Reach(w, t));
  }

  /** A declaration visited before with that many of the steps left, from which the walk has come
      here: at that time it said nothing yet that needs no more than `k` steps. */
  ghost predicate Harmless(w: World, up: bool, k: nat, refs: set<Key>, steps: seq<Step>, mark: (Key, nat)) {
    && refs <= Reach(w, {mark.0})
    && (mark.1 <= |steps| ==> !DerivedAt(w, Written, up, k, mark.0, steps[|steps| - mark.1..]))
  }

  ghost predicate Open(w: World, up: bool, k: nat, refs: set<Key>, steps: seq<Step>, seen: Seen) {
    forall mark | mark in seen && mark.0 in Reach(w, refs) :: Harmless(w, up, k, refs, steps, mark)
  }

  /** No indexed access leads back to what has been visited. */
  ghost predicate Onward(w: World, file: File, node: TypeNode, seen: Seen) {
    forall mark | mark in seen && mark.0 in Reach(w, Refs(w, file, node)) :: Outward(w, file, node, mark.0)
  }

  lemma HarmlessFurther(w: World, up: bool, k: nat, less: nat, refs: set<Key>, fewer: set<Key>, steps: seq<Step>,
                        gone: nat, mark: (Key, nat))
    requires Harmless(w, up, k, refs, steps, mark) && fewer <= refs && gone <= |steps| && less <= k
    ensures Harmless(w, up, less, fewer, steps[gone..], mark)
  {
    hide Reach, DerivedAt;
    var rest := steps[gone..];
    if mark.1 <= |rest| {
      assert rest[|rest| - mark.1..] == steps[|steps| - mark.1..];
      if DerivedAt(w, Written, up, less, mark.0, rest[|rest| - mark.1..]) {
        DerivedAtGrowsTo(w, Written, up, less, k, mark.0, steps[|steps| - mark.1..]);
      }
    }
  }

  /** Further on: fewer references, a later part of the path, a smaller height. */
  lemma OpenFurther(w: World, up: bool, k: nat, less: nat, refs: set<Key>, fewer: set<Key>, steps: seq<Step>, gone: nat,
                    seen: Seen)
    requires Open(w, up, k, refs, steps, seen) && fewer <= refs && gone <= |steps| && less <= k
    ensures Open(w, up, less, fewer, steps[gone..], seen)
  {
    ReachClosed(w, refs);
    ReachWithin(w, fewer, refs);
    hide Reach, Closed, Harmless;
    forall mark | mark in seen && mark.0 in Reach(w, fewer)
      ensures Harmless(w, up, less, fewer, steps[gone..], mark)
    {
      HarmlessFurther(w, up, k, less, refs, fewer, steps, gone, mark);
    }
  }

  /** What is marked elsewhere leaves a place open. */
  lemma OpenAfter(w: World, up: bool, k: nat, refs: set<Key>, steps: seq<Step>, seen: Seen, after: Seen, here: set<Key>)
    requires Open(w, up, k, refs, steps, seen) && MarksIn(seen, after, here) && here !! Reach(w, refs)
    ensures Open(w, up, k, refs, steps, after)
  {
    hide Reach, Harmless;
  }

  lemma OnwardAfter(w: World, file: File, node: TypeNode, seen: Seen, after: Seen, here: set<Key>)
    requires Onward(w, file, node, seen) && MarksIn(seen, after, here) && here !! Reach(w, Refs(w, file, node))
    ensures Onward(w, file, node, after)
  {
    hide Reach, Refs, Outward;
  }

  /** A child of a node. */
  ghost predicate Inside(w: World, file: File, node: TypeNode, child: TypeNode) {
    && Refs(w, file, child) <= Refs(w, file, node)
    && (forall key :: Outward(w, file, node, key) ==> Outward(w, file, child, key))
    && (Unshared(w, file, node) ==> Unshared(w, file, child))
  }

  /** Where the walk stands: nothing marked so far can block what follows in `k` steps. */
  ghost predicate Clean(w: World, up: bool, k: nat, file: File, node: TypeNode, steps: seq<Step>, seen: Seen) {
    Open(w, up, k, Refs(w, file, node), steps, seen) && Onward(w, file, node, seen)
  }

  lemma CleanInside(w: World, up: bool, k: nat, file: File, node: TypeNode, child: TypeNode, steps: seq<Step>,
                    gone: nat, seen: Seen)
    requires k > 0 && Clean(w, up, k, file, node, steps, seen) && Inside(w, file, node, child) && gone <= |steps|
    ensures Clean(w, up, k - 1, file, child, steps[gone..], seen)
  {
    hide Outward, Refs, Unshared, DerivedAt, Closed;
    OpenFurther(w, up, k, k - 1, Refs(w, file, node), Refs(w, file, child), steps, gone, seen);
    ReachClosed(w, Refs(w, file, node));
    ReachWithin(w, Refs(w, file, child), Refs(w, file, node));
  }

  /** The target of an indexed access leads to nothing visited before. */
  lemma CleanTarget(w: World, up: bool, k: nat, file: File, target: TypeNode, name: string, steps: seq<Step>,
                    seen: Seen)
    requires k > 0 && Clean(w, up, k, file, Indexed(target, Some(name)), steps, seen)
    ensures Clean(w, up, k - 1, file, target, [Member(name)] + steps, seen)
  {
    hide Reach, DerivedAt;
  }

  lemma LeastHeightAt(w: World, up: bool, k: nat, key: Key, steps: seq<Step>) returns (least: nat)
    requires DerivedAt(w, Written, up, k, key, steps)
    ensures 0 < least <= k && DerivedAt(w, Written, up, least, key, steps)
    ensures !DerivedAt(w, Written, up, least - 1, key, steps)
  {
    least := k;
    while DerivedAt(w, Written, up, least - 1, key, steps)
      invariant 0 < least <= k && DerivedAt(w, Written, up, least, key, steps)
      decreases least
    {
      least := least - 1;
    }
  }

  // ---------------------------------------------------------------------- into a declaration

  /** An access in the body of a declaration does not lead back to what leads to the declaration. */
  lemma {:induction false} OutwardBack(w: World, file: File, node: TypeNode, key: Key, back: Key)
    requires Outward(w, file, node, key) && key in Reach(w, {back})
    ensures Outward(w, file, node, back)
  {
    hide Reach, Refs;
    match node
    case Literal(members) =>
      forall m | m in members
        ensures SignatureOutward(w, file, m, back)
      {
        SignatureOutwardBack(w, file, m, key, back);
      }
    case Parenthesized(inner) => OutwardBack(w, file, inner, key, back);
    case Operator(_, inner) => OutwardBack(w, file, inner, key, back);
    case Intersection(parts) =>
      forall t | t in parts
        ensures Outward(w, file, t, back)
      {
        OutwardBack(w, file, t, key, back);
      }
    case Union(parts) =>
      forall t | t in parts
        ensures Outward(w, file, t, back)
      {
        OutwardBack(w, file, t, key, back);
      }
    case ArrayOf(element) => OutwardBack(w, file, element, key, back);
    case Indexed(target, name) =>
      if name.Some? && back in Reach(w, Refs(w, file, target)) {
        ReachWithin(w, {back}, Refs(w, file, target));
        assert false;
      }
    case Reference(_, _, args) =>
      forall t | t in args
        ensures Outward(w, file, t, back)
      {
        OutwardBack(w, file, t, key, back);
      }
    case Opaque =>
  }

  lemma {:induction false} SignatureOutwardBack(w: World, file: File, m: Signature, key: Key, back: Key)
    requires SignatureOutward(w, file, m, key) && key in Reach(w, {back})
    ensures SignatureOutward(w, file, m, back)
  {
    match m
    case Property(_, Some(annotation)) => OutwardBack(w, file, annotation, key, back);
    case _ =>
  }

  /** What lies in a declaration is open once it is marked, if nothing followed from it before. */
  lemma OpenBelow(w: World, up: bool, k: nat, key: Key, refs: set<Key>, steps: seq<Step>, seen: Seen)
    requires Open(w, up, k, {key}, steps, seen) && key in w.declarations && refs <= DeclarationRefs(w, key)
    requires !DerivedAt(w, Written, up, k, key, steps)
    ensures Open(w, up, k, refs, steps, seen + {(key, |steps|)})
  {
    ReachClosed(w, {key});
    ReachWithin(w, refs, {key});
    hide DeclarationRefs, Closed, DerivedAt;
    var marked := seen + {(key, |steps|)};
    forall mark | mark in marked && mark.0 in Reach(w, refs)
      ensures Harmless(w, up, k, refs, steps, mark)
    {
      hide Reach;
      if mark == (key, |steps|) {
        assert steps[|steps| - mark.1..] == steps;
      } else {
        assert Harmless(w, up, k, {key}, steps, mark);
        ReachWithin(w, {key}, {mark.0});
      }
    }
  }

  /** Nor does the type of an alias or of a member lead back through an access. */
  lemma OnwardBelow(w: World, up: bool, k: nat, key: Key, file: File, node: TypeNode, steps: seq<Step>, seen: Seen)
    requires Open(w, up, k, {key}, steps, seen) && key in w.declarations
    requires Refs(w, file, node) <= DeclarationRefs(w, key) && Outward(w, file, node, key)
    ensures Onward(w, file, node, seen + {(key, |steps|)})
  {
    ReachClosed(w, {key});
    ReachWithin(w, Refs(w, file, node), {key});
    hide DeclarationRefs, Closed, DerivedAt, Refs, Outward;
    var marked := seen + {(key, |steps|)};
    forall mark | mark in marked && mark.0 in Reach(w, Refs(w, file, node))
      ensures Outward(w, file, node, mark.0)
    {
      hide Reach;
      if mark != (key, |steps|) {
        assert Harmless(w, up, k, {key}, steps, mark);
        OutwardBack(w, file, node, key, mark.0);
      }
    }
  }

  // ------------------------------------------------------------------------- the walk decides

  /** Nothing in reach is shared between branches, and no access leads a declaration to itself. */
  ghost predicate Tame(w: World, r: set<Key>, file: File, node: TypeNode) {
    Grounded(w) && AllUnshared(w, r) && Refs(w, file, node) <= r && Unshared(w, file, node)
  }

  ghost function Verdict(up: bool): Lookup {
    if up then Found else Missing
  }

  /** What the walk descends into lies inside the node. */
  lemma ChildInside(w: World, file: File, node: TypeNode)
    ensures match node
      case Literal(members) => forall m | m in members && m.Property? && m.annotation.Some? ::
        Inside(w, file, node, m.annotation.value)
      case Parenthesized(inner) => Inside(w, file, node, inner)
      case Operator(_, inner) => Inside(w, file, node, inner)
      case Intersection(parts) => forall t | t in parts :: Inside(w, file, node, t)
      case Union(parts) => forall t | t in parts :: Inside(w, file, node, t)
      case ArrayOf(element) => Inside(w, file, node, element)
      case Reference(head, _, args) =>
        (IsPassthrough(head) || IsArrayName(head)) && args != [] ==> Inside(w, file, node, args[0])
      case _ => true
  {
    hide Reach, IsPassthrough, IsArrayName, PartsApart;
    match node
    case Literal(members) =>
      forall m | m in members && m.Property? && m.annotation.Some?
        ensures Inside(w, file, node, m.annotation.value)
      {
        assert SignatureRefs(w, file, m) == Refs(w, file, m.annotation.value);
        assert SignatureUnshared(w, file, m) == Unshared(w, file, m.annotation.value);
        assert forall key :: SignatureOutward(w, file, m, key) == Outward(w, file, m.annotation.value, key);
      }
    case _ =>
  }

  lemma {:induction false} TypeDecided(w: World, r: set<Key>, up: bool, k: nat, fuel: nat, file: File, node: TypeNode,
                                       steps: seq<Step>, seen: Seen)
    requires Tame(w, r, file, node) && Clean(w, up, k, file, node, steps, seen)
    requires Derived(w, Written, up, k, file, node, steps)
    requires LookupType(w, fuel, file, node, steps, seen).result.Some?
    ensures LookupType(w, fuel, file, node, steps, seen).result == Some(Verdict(up))
    decreases k, 1, 0
  {
    hide FirstWritten, FirstDenoting, Silent, Combine, Agree, IsPassthrough, IsArrayName, Wraps, Lists;
    hide Grounded, AllUnshared, Unshared, Refs, Inside, Clean, PartsApart;
    if steps != [] {
      ChildInside(w, file, node);
      assert steps[0..] == steps;
      match node
      case Literal(members) =>
        ListExact(Written, members, steps[0].name, iset{});
        if FirstWritten(members, steps[0].name).Some? && |steps| > 1 {
          var annotation := FirstWritten(members, steps[0].name).value.annotation.value;
          ChildDecided(w, r, up, k, fuel, file, node, annotation, steps, 1, seen);
        }
      case Parenthesized(inner) => ChildDecided(w, r, up, k, fuel, file, node, inner, steps, 0, seen);
      case Operator(_, inner) => ChildDecided(w, r, up, k, fuel, file, node, inner, steps, 0, seen);
      case Intersection(parts) => CompoundDecided(w, r, up, k, fuel, file, node, parts, steps, seen);
      case Union(parts) => CompoundDecided(w, r, up, k, fuel, file, node, parts, steps, seen);
      case ArrayOf(element) => ChildDecided(w, r, up, k, fuel, file, node, element, steps, 1, seen);
      case Indexed(target, key) =>
        CleanTarget(w, up, k, file, target, key.value, steps, seen);
        assert Tame(w, r, file, target) by {
          TargetTame(w, r, file, target, key.value);
        }
        TypeDecided(w, r, up, k - 1, fuel - 1, file, target, [Member(key.value)] + steps, seen);
      case Reference(head, qualified, args) =>
        HeadsMeant(head);
        if IsPassthrough(head) && args != [] {
          ChildDecided(w, r, up, k, fuel, file, node, args[0], steps, 0, seen);
        } else if IsArrayName(head) && args != [] {
          ChildDecided(w, r, up, k, fuel, file, node, args[0], steps, 1, seen);
        } else {
          var key := Resolve(w, file, head).value;
          NamedOpen(w, up, k, file, head, args, steps, seen);
          assert key in r by {
            NamedIn(w, r, file, head, args);
          }
          DeclarationDecided(w, r, up, k - 1, fuel - 1, key, steps, seen);
        }
      case Opaque =>
    }
  }

  /** One step down, with or without a step of the path taken. */
  lemma {:induction false} ChildDecided(w: World, r: set<Key>, up: bool, k: nat, fuel: nat, file: File, node: TypeNode,
                                        child: TypeNode, steps: seq<Step>, gone: nat, seen: Seen)
    requires k > 0 && fuel > 0 && gone <= |steps|
    requires Tame(w, r, file, node) && Clean(w, up, k, file, node, steps, seen) && Inside(w, file, node, child)
    requires Derived(w, Written, up, k - 1, file, child, steps[gone..])
    requires LookupType(w, fuel - 1, file, child, steps[gone..], seen).result.Some?
    ensures LookupType(w, fuel - 1, file, child, steps[gone..], seen).result == Some(Verdict(up))
    decreases k, 0, 0
  {
    hide LookupType, Derived, Clean, Grounded, AllUnshared, Refs, Unshared, Outward;
    CleanInside(w, up, k, file, node, child, steps, gone, seen);
    TypeDecided(w, r, up, k - 1, fuel - 1, file, child, steps[gone..], seen);
  }

  lemma TargetTame(w: World, r: set<Key>, file: File, target: TypeNode, name: string)
    requires Tame(w, r, file, Indexed(target, Some(name)))
    ensures Tame(w, r, file, target)
  {
    hide Grounded, AllUnshared;
  }

  /** A reference that names a declaration. */
  ghost predicate NamesDeclaration(w: World, file: File, head: string, args: seq<TypeNode>) {
    Resolve(w, file, head).Some? && !((IsPassthrough(head) || IsArrayName(head)) && args != [])
  }

  lemma NamedOpen(w: World, up: bool, k: nat, file: File, head: string, args: seq<TypeNode>, steps: seq<Step>,
                  seen: Seen)
    requires k > 0 && NamesDeclaration(w, file, head, args)
    requires Clean(w, up, k, file, Reference(head, false, args), steps, seen)
    ensures Open(w, up, k - 1, {Resolve(w, file, head).value}, steps, seen)
  {
    var refs := {Resolve(w, file, head).value};
    assert Refs(w, file, Reference(head, false, args)) == refs;
    hide Refs, Onward, Open;
    assert steps[0..] == steps;
    OpenFurther(w, up, k, k - 1, refs, refs, steps, 0, seen);
  }

  lemma NamedIn(w: World, r: set<Key>, file: File, head: string, args: seq<TypeNode>)
    requires NamesDeclaration(w, file, head, args) && Tame(w, r, file, Reference(head, false, args))
    ensures Resolve(w, file, head).value in r
  {
    hide Grounded, AllUnshared;
  }

  /** The parts are tame and clean, and lead to different declarations. */
  ghost predicate PartsClean(w: World, r: set<Key>, up: bool, k: nat, file: File, parts: seq<TypeNode>,
                             steps: seq<Step>, seen: Seen) {
    && PartsApart(w, file, parts)
    && forall i | 0 <= i < |parts| ::
      Tame(w, r, file, parts[i]) && Clean(w, up, k, file, parts[i], steps, seen)
  }

  lemma PartsCleanInside(w: World, r: set<Key>, up: bool, k: nat, file: File, node: TypeNode, parts: seq<TypeNode>,
                         steps: seq<Step>, seen: Seen)
    requires k > 0 && (node == Intersection(parts) || node == Union(parts))
    requires Tame(w, r, file, node) && Clean(w, up, k, file, node, steps, seen)
    ensures PartsClean(w, r, up, k - 1, file, parts, steps, seen)
  {
    assert PartsApart(w, file, parts);
    ChildInside(w, file, node);
    assert steps[0..] == steps;
    hide PartsApart, Clean, Refs, Unshared, Outward, Grounded, AllUnshared;
    forall i | 0 <= i < |parts|
      ensures Tame(w, r, file, parts[i]) && Clean(w, up, k - 1, file, parts[i], steps, seen)
    {
      assert parts[i] in parts;
      CleanInside(w, up, k, file, node, parts[i], steps, 0, seen);
    }
  }

  lemma PartsCleanAfter(w: World, r: set<Key>, up: bool, k: nat, fuel: nat, file: File, parts: seq<TypeNode>,
                        steps: seq<Step>, seen: Seen)
    requires parts != [] && PartsClean(w, r, up, k, file, parts, steps, seen)
    ensures PartsClean(w, r, up, k, file, parts[1..], steps, LookupType(w, fuel, file, parts[0], steps, seen).seen)
  {
    hide LookupType, Refs, Tame, Onward, Open, Reach;
    var after := LookupType(w, fuel, file, parts[0], steps, seen).seen;
    TypeSeenGrows(w, fuel, file, parts[0], steps, seen);
    var rest, here := parts[1..], Reach(w, Refs(w, file, parts[0]));
    forall i | 0 <= i < |rest|
      ensures Tame(w, r, file, rest[i]) && Clean(w, up, k, file, rest[i], steps, after)
    {
      assert rest[i] == parts[i + 1];
      OpenAfter(w, up, k, Refs(w, file, rest[i]), steps, seen, after, here);
      OnwardAfter(w, file, rest[i], seen, after, here);
    }
  }

  /** Every part from which the verdict follows gives it. */
  ghost predicate PartsAnswer(w: World, up: bool, k: nat, file: File, parts: seq<TypeNode>, steps: seq<Step>,
                              results: seq<Lookup>) {
    && |results| == |parts|
    && forall i | 0 <= i < |parts| && Derived(w, Written, up, k, file, parts[i], steps) :: results[i] == Verdict(up)
  }

  lemma {:induction false} PartsDecided(w: World, r: set<Key>, up: bool, k: nat, fuel: nat, file: File,
                                        parts: seq<TypeNode>, steps: seq<Step>, seen: Seen)
    requires PartsClean(w, r, up, k, file, parts, steps, seen)
    requires LookupParts(w, fuel, file, parts, steps, seen).results.Some?
    ensures PartsAnswer(w, up, k, file, parts, steps, LookupParts(w, fuel, file, parts, steps, seen).results.value)
    decreases k, 2, |parts|
  {
    hide LookupType, Derived;
    if parts != [] {
      PartsCleanAfter(w, r, up, k, fuel, file, parts, steps, seen);
      hide PartsApart, Tame, Clean;
      if Derived(w, Written, up, k, file, parts[0], steps) {
        TypeDecided(w, r, up, k, fuel, file, parts[0], steps, seen);
      }
      PartsDecided(w, r, up, k, fuel, file, parts[1..], steps, LookupType(w, fuel, file, parts[0], steps, seen).seen);
    }
  }

  lemma CompoundAnswers(w: World, up: bool, k: nat, file: File, node: TypeNode, parts: seq<TypeNode>, steps: seq<Step>,
                        results: seq<Lookup>)
    requires k > 0 && steps != [] && (node == Intersection(parts) || node == Union(parts))
    requires Derived(w, Written, up, k, file, node, steps)
    requires PartsAnswer(w, up, k - 1, file, parts, steps, results)
    ensures (if node.Union? then Agree(results) else Combine(results)) == Verdict(up)
  {
    if node.Union? || !up {
      assert node.Union? ==> up || parts != [];
      assert forall t | t in parts :: Derived(w, Written, up, k - 1, file, t, steps);
      hide Derived;
      forall x | x in results
        ensures x == Verdict(up)
      {
        var i :| 0 <= i < |results| && results[i] == x;
        assert parts[i] in parts;
      }
      assert parts != [] ==> results[0] in results;
    } else {
      var t :| t in parts && Derived(w, Written, up, k - 1, file, t, steps);
      var i :| 0 <= i < |parts| && parts[i] == t;
      assert results[i] in results;
    }
  }

  lemma {:induction false} CompoundDecided(w: World, r: set<Key>, up: bool, k: nat, fuel: nat, file: File,
                                           node: TypeNode, parts: seq<TypeNode>, steps: seq<Step>, seen: Seen)
    requires steps != [] && (node == Intersection(parts) || node == Union(parts))
    requires Tame(w, r, file, node) && Clean(w, up, k, file, node, steps, seen)
    requires Derived(w, Written, up, k, file, node, steps)
    requires LookupType(w, fuel, file, node, steps, seen).result.Some?
    ensures LookupType(w, fuel, file, node, steps, seen).result == Some(Verdict(up))
    decreases k, 0, 0
  {
    hide Clean, Tame, Combine, Agree, Derived, LookupParts;
    assert k > 0 by {
      Positive(w, up, k, file, node, steps);
    }
    PartsCleanInside(w, r, up, k, file, node, parts, steps, seen);
    PartsDecided(w, r, up, k - 1, fuel - 1, file, parts, steps, seen);
    CompoundAnswers(w, up, k, file, node, parts, steps,
      LookupParts(w, fuel - 1, file, parts, steps, seen).results.value);
  }

  lemma Positive(w: World, up: bool, k: nat, file: File, node: TypeNode, steps: seq<Step>)
    requires Derived(w, Written, up, k, file, node, steps)
    ensures k > 0
  {
  }

  // --------------------------------------------------------------------------- declarations

  lemma {:induction false} DeclarationDecided(w: World, r: set<Key>, up: bool, k: nat, fuel: nat, key: Key,
                                              steps: seq<Step>, seen: Seen)
    requires Grounded(w) && AllUnshared(w, r) && key in r && key in w.declarations
    requires Open(w, up, k, {key}, steps, seen) && DerivedAt(w, Written, up, k, key, steps)
    requires LookupDeclaration(w, fuel, key, steps, seen).result.Some?
    ensures LookupDeclaration(w, fuel, key, steps, seen).result == Some(Verdict(up))
    decreases k, 2, 0
  {
    hide FirstWritten, FirstDenoting, Silent, Combine, LookupType, LookupBases, Derived;
    hide Grounded, AllUnshared, Refs, Tame, Clean, Open;
    if steps != [] {
      NotBlocked(w, up, k, key, steps, seen);
      var least := LeastHeightAt(w, up, k, key, steps);
      assert Open(w, up, least - 1, {key}, steps, seen) by {
        assert steps[0..] == steps;
        OpenFurther(w, up, k, least - 1, {key}, {key}, steps, 0, seen);
      }
      var (file, declaration) := w.declarations[key];
      var marked := seen + {(key, |steps|)};
      match declaration
      case Enum =>
      case Alias(body) =>
        assert steps[0..] == steps;
        BodyDecided(w, r, up, least, fuel, key, body, steps, 0, seen);
      case Interface(members, bases) =>
        ListExact(Written, members, steps[0].name, iset{});
        match FirstWritten(members, steps[0].name)
        case Some(p) =>
          if |steps| > 1 {
            BodyDecided(w, r, up, least, fuel, key, p.annotation.value, steps, 1, seen);
          }
        case None =>
          HeritageClean(w, r, up, least, key, steps, seen);
          BasesDecided(w, r, up, least, fuel - 1, file, bases, steps, marked);
          HeritageAnswers(w, up, least, key, steps, LookupBases(w, fuel - 1, file, bases, steps, marked).results.value);
    }
  }

  /** The recursion guard cannot have been set here: nothing followed from its mark. */
  lemma NotBlocked(w: World, up: bool, k: nat, key: Key, steps: seq<Step>, seen: Seen)
    requires Open(w, up, k, {key}, steps, seen) && DerivedAt(w, Written, up, k, key, steps)
    ensures (key, |steps|) !in seen
  {
    hide DerivedAt;
    ReachClosed(w, {key});
    hide Reach;
    var mark := (key, |steps|);
    assert steps[|steps| - mark.1..] == steps;
    assert !Harmless(w, up, k, {key}, steps, mark);
  }

  /** A node that a declaration holds: the type of an alias, or that of a member. */
  ghost predicate Holds(w: World, key: Key, node: TypeNode)
    requires key in w.declarations
  {
    var (_, declaration) := w.declarations[key];
    match declaration
    case Enum => false
    case Alias(body) => node == body
    case Interface(members, _) => exists m | m in members :: m.Property? && m.annotation == Some(node)
  }

  lemma HeldTame(w: World, r: set<Key>, key: Key, node: TypeNode)
    requires Grounded(w) && AllUnshared(w, r) && key in r && key in w.declarations && Holds(w, key, node)
    ensures Tame(w, r, w.declarations[key].0, node) && Outward(w, w.declarations[key].0, node, key)
    ensures Refs(w, w.declarations[key].0, node) <= DeclarationRefs(w, key)
  {
    assert DeclarationUnshared(w, key) && DeclarationRefs(w, key) <= r;
    hide Closed, BasesApart;
    var (file, declaration) := w.declarations[key];
    if declaration.Interface? {
      var m :| m in declaration.members && m.Property? && m.annotation == Some(node);
      assert SignatureUnshared(w, file, m) && SignatureOutward(w, file, m, key);
      assert SignatureRefs(w, file, m) == Refs(w, file, node);
    }
  }

  lemma {:induction false} BodyDecided(w: World, r: set<Key>, up: bool, least: nat, fuel: nat, key: Key, node: TypeNode,
                                       steps: seq<Step>, gone: nat, seen: Seen)
    requires least > 0 && fuel > 0 && gone <= |steps|
    requires Grounded(w) && AllUnshared(w, r) && key in r && key in w.declarations && Holds(w, key, node)
    requires Open(w, up, least - 1, {key}, steps, seen) && !DerivedAt(w, Written, up, least - 1, key, steps)
    requires Derived(w, Written, up, least - 1, w.declarations[key].0, node, steps[gone..])
    requires LookupType(w, fuel - 1, w.declarations[key].0, node, steps[gone..], seen + {(key, |steps|)}).result.Some?
    ensures LookupType(w, fuel - 1, w.declarations[key].0, node, steps[gone..], seen + {(key, |steps|)}).result
         == Some(Verdict(up))
    decreases least, 0, 0
  {
    hide LookupType, Derived, DerivedAt, Open, Grounded, AllUnshared, Refs, Outward, Holds, DeclarationRefs;
    var file, marked := w.declarations[key].0, seen + {(key, |steps|)};
    HeldTame(w, r, key, node);
    OpenBelow(w, up, least - 1, key, Refs(w, file, node), steps, seen);
    OnwardBelow(w, up, least - 1, key, file, node, steps, seen);
    OpenFurther(w, up, least - 1, least - 1, Refs(w, file, node), Refs(w, file, node), steps, gone, marked);
    TypeDecided(w, r, up, least - 1, fuel - 1, file, node, steps[gone..], marked);
  }

  /** The bases are open, and lead to different declarations. */
  ghost predicate BasesClean(w: World, r: set<Key>, up: bool, k: nat, file: File, bases: seq<Option<string>>,
                             steps: seq<Step>, seen: Seen) {
    && Grounded(w) && AllUnshared(w, r) && BasesApart(w, file, bases)
    && forall i | 0 <= i < |bases| ::
      BaseRefs(w, file, bases[i]) <= r && Open(w, up, k, BaseRefs(w, file, bases[i]), steps, seen)
  }

  lemma HeritageClean(w: World, r: set<Key>, up: bool, least: nat, key: Key, steps: seq<Step>, seen: Seen)
    requires least > 0 && Grounded(w) && AllUnshared(w, r) && key in r && key in w.declarations
    requires w.declarations[key].1.Interface?
    requires Open(w, up, least - 1, {key}, steps, seen) && !DerivedAt(w, Written, up, least - 1, key, steps)
    ensures BasesClean(w, r, up, least - 1, w.declarations[key].0, w.declarations[key].1.bases, steps,
      seen + {(key, |steps|)})
  {
    assert DeclarationUnshared(w, key) && DeclarationRefs(w, key) <= r;
    var (file, declaration) := w.declarations[key];
    assert HeritageRefs(w, file, declaration.bases) <= DeclarationRefs(w, key);
    hide DerivedAt, Open, Grounded, AllUnshared, BasesApart, DeclarationRefs, BaseRefs;
    forall i | 0 <= i < |declaration.bases|
      ensures BaseRefs(w, file, declaration.bases[i]) <= r
      ensures Open(w, up, least - 1, BaseRefs(w, file, declaration.bases[i]), steps, seen + {(key, |steps|)})
    {
      assert declaration.bases[i] in declaration.bases;
      OpenBelow(w, up, least - 1, key, BaseRefs(w, file, declaration.bases[i]), steps, seen);
    }
  }

  lemma BasesCleanAfter(w: World, r: set<Key>, up: bool, k: nat, fuel: nat, file: File, bases: seq<Option<string>>,
                        steps: seq<Step>, seen: Seen)
    requires bases != [] && BasesClean(w, r, up, k, file, bases, steps, seen)
    ensures BasesClean(w, r, up, k, file, bases[1..], steps, LookupBase(w, fuel, file, bases[0], steps, seen).seen)
  {
    hide LookupBase, BaseRefs, Grounded, AllUnshared, Open, Closed;
    var after := LookupBase(w, fuel, file, bases[0], steps, seen).seen;
    var rest, here := bases[1..], Reach(w, BaseRefs(w, file, bases[0]));
    ReachClosed(w, BaseRefs(w, file, bases[0]));
    BaseMarks(w, here, fuel, file, bases[0], steps, seen);
    hide Reach;
    forall i | 0 <= i < |rest|
      ensures BaseRefs(w, file, rest[i]) <= r && Open(w, up, k, BaseRefs(w, file, rest[i]), steps, after)
    {
      assert rest[i] == bases[i + 1];
      OpenAfter(w, up, k, BaseRefs(w, file, rest[i]), steps, seen, after, here);
    }
  }

  ghost predicate BasesAnswer(w: World, up: bool, k: nat, file: File, bases: seq<Option<string>>, steps: seq<Step>,
                              results: seq<Lookup>)
    requires k > 0
  {
    && |results| == |bases|
    && forall i | 0 <= i < |bases| && BaseDerived(w, Written, up, k, file, bases[i], steps) :: results[i] == Verdict(up)
  }

  lemma {:induction false} BasesDecided(w: World, r: set<Key>, up: bool, k: nat, fuel: nat, file: File,
                                        bases: seq<Option<string>>, steps: seq<Step>, seen: Seen)
    requires k > 0 && BasesClean(w, r, up, k - 1, file, bases, steps, seen)
    requires LookupBases(w, fuel, file, bases, steps, seen).results.Some?
    ensures BasesAnswer(w, up, k, file, bases, steps, LookupBases(w, fuel, file, bases, steps, seen).results.value)
    decreases k, 1, |bases|
  {
    hide LookupBase, BaseDerived, BasesClean;
    if bases != [] {
      BasesCleanAfter(w, r, up, k - 1, fuel, file, bases, steps, seen);
      if BaseDerived(w, Written, up, k, file, bases[0], steps) {
        BaseDecided(w, r, up, k, fuel, file, bases, steps, seen);
      }
      BasesDecided(w, r, up, k, fuel, file, bases[1..], steps, LookupBase(w, fuel, file, bases[0], steps, seen).seen);
    }
  }

  lemma {:induction false} BaseDecided(w: World, r: set<Key>, up: bool, k: nat, fuel: nat, file: File,
                                       bases: seq<Option<string>>, steps: seq<Step>, seen: Seen)
    requires k > 0 && bases != [] && BasesClean(w, r, up, k - 1, file, bases, steps, seen)
    requires BaseDerived(w, Written, up, k, file, bases[0], steps)
    requires LookupBase(w, fuel, file, bases[0], steps, seen).result.Some?
    ensures LookupBase(w, fuel, file, bases[0], steps, seen).result == Some(Verdict(up))
    decreases k, 0, 0
  {
    hide LookupDeclaration, DerivedAt, Grounded, AllUnshared, Open, BasesApart;
    DeclarationDecided(w, r, up, k - 1, fuel, Resolve(w, file, bases[0].value).value, steps, seen);
  }

  lemma HeritageAnswers(w: World, up: bool, k: nat, key: Key, steps: seq<Step>, results: seq<Lookup>)
    requires k > 0 && steps != [] && key in w.declarations && w.declarations[key].1.Interface? && steps[0].Member?
    requires FirstDenoting(Written, w.declarations[key].1.members, steps[0].name).None?
    requires DerivedAt(w, Written, up, k, key, steps)
    requires BasesAnswer(w, up, k, w.declarations[key].0, w.declarations[key].1.bases, steps, results)
    ensures Combine(results) == Verdict(up)
  {
    hide FirstDenoting, Silent, BaseDerived;
    var (file, declaration) := w.declarations[key];
    if up {
      var b :| b in declaration.bases && BaseDerived(w, Written, up, k, file, b, steps);
      var i :| 0 <= i < |declaration.bases| && declaration.bases[i] == b;
      assert results[i] in results;
    } else {
      forall x | x in results
        ensures x == Missing
      {
        var i :| 0 <= i < |results| && results[i] == x;
        assert declaration.bases[i] in declaration.bases;
      }
    }
  }

  // ------------------------------------------------------------------------------ the theorems

  lemma Decided(w: World, up: bool, fuel: nat, file: File, node: TypeNode, steps: seq<Step>)
    requires Grounded(w) && Separate(w, file, node) && Follows(w, Written, up, file, node, steps)
    requires LookupType(w, fuel, file, node, steps, {}).result.Some?
    ensures LookupType(w, fuel, file, node, steps, {}).result == Some(Verdict(up))
  {
    ReachClosed(w, Refs(w, file, node));
    hide Grounded, Unshared, AllUnshared, Reach, Refs, LookupType, Follows, Closed;
    var k := Height(w, Written, up, file, node, steps);
    TypeDecided(w, Reach(w, Refs(w, file, node)), up, k, fuel, file, node, steps, {});
  }

  lemma Sound(w: World, up: bool, fuel: nat, file: File, node: TypeNode, steps: seq<Step>)
    ensures Right(LookupType(w, fuel, file, node, steps, {}).result, Follows(w, Written, up, file, node, steps) == up)
  {
    hide LookupType, Follows, Respects;
    ReadingRespects(w, Written, up);
    TypeSound(w, Written, iset{}, Reading(w, Written, up), fuel, file, node, steps, {});
  }

  /** From an empty guard and with frames enough, the walk of a node without shared declarations
      finds a path if and only if its presence follows from the declarations as written, misses it
      if and only if its absence does, and says unknown where neither follows. */
  lemma TypeComplete(w: World, fuel: nat, file: File, node: TypeNode, steps: seq<Step>, size: nat)
    requires Grounded(w) && Separate(w, file, node) && Bounded(w, size)
    requires fuel >= Budget(Free(w, MostSteps(w, node, steps, size), {}), size) + Size(node) + 1
    ensures var answer := LookupType(w, fuel, file, node, steps, {}).result;
      && answer.Some?
      && (answer.value == Found <==> Follows(w, Written, true, file, node, steps))
      && (answer.value == Missing <==> Follows(w, Written, false, file, node, steps))
  {
    hide *;
    TypeTerminates(w, fuel, file, node, steps, {}, size);
    TypeDecides(w, fuel, file, node, steps);
  }

  /** However many frames there are, if they suffice. */
  lemma TypeDecides(w: World, fuel: nat, file: File, node: TypeNode, steps: seq<Step>)
    requires Grounded(w) && Separate(w, file, node)
    requires LookupType(w, fuel, file, node, steps, {}).result.Some?
    ensures var answer := LookupType(w, fuel, file, node, steps, {}).result.value;
      && (answer == Found <==> Follows(w, Written, true, file, node, steps))
      && (answer == Missing <==> Follows(w, Written, false, file, node, steps))
  {
    hide Grounded, Separate, LookupType, Follows;
    forall up
      ensures Follows(w, Written, up, file, node, steps) ==>
        LookupType(w, fuel, file, node, steps, {}).result == Some(Verdict(up))
      ensures Right(LookupType(w, fuel, file, node, steps, {}).result, Follows(w, Written, up, file, node, steps) == up)
    {
      if Follows(w, Written, up, file, node, steps) {
        Decided(w, up, fuel, file, node, steps);
      }
      Sound(w, up, fuel, file, node, steps);
    }
  }

  /** The same from a declaration. */
  lemma DeclarationComplete(w: World, fuel: nat, key: Key, steps: seq<Step>, size: nat)
    requires Grounded(w) && AllUnshared(w, Reach(w, {key})) && Bounded(w, size) && key in w.declarations
    requires fuel >= Budget(Free(w, |steps| + size * |w.declarations|, {}), size)
    ensures var answer := LookupDeclaration(w, fuel, key, steps, {}).result;
      && answer.Some?
      && (answer.value == Found <==> FollowsAt(w, Written, true, key, steps))
      && (answer.value == Missing <==> FollowsAt(w, Written, false, key, steps))
  {
    DeclarationTerminates(w, fuel, key, steps, {}, size);
    ReachClosed(w, {key});
    hide Grounded, AllUnshared, Reach, LookupDeclaration, Bounded, Budget, Free, Closed, Respects, FollowsAt;
    var r := Reach(w, {key});
    var answer := LookupDeclaration(w, fuel, key, steps, {}).result;
    forall up | FollowsAt(w, Written, up, key, steps)
      ensures answer == Some(Verdict(up))
    {
      var k := HeightAt(w, Written, up, key, steps);
      DeclarationDecided(w, r, up, k, fuel, key, steps, {});
    }
    forall up
      ensures Right(answer, Reading(w, Written, up).declares(key, steps))
    {
      ReadingRespects(w, Written, up);
      DeclarationSound(w, Written, iset{}, Reading(w, Written, up), fuel, key, steps, {});
    }
    assert Reading(w, Written, true).declares(key, steps) == FollowsAt(w, Written, true, key, steps);
    assert Reading(w, Written, false).declares(key, steps) == !FollowsAt(w, Written, false, key, steps);
  }
}
