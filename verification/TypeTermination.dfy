/** When the type walk ends: on recursive types too, unless a declaration reaches itself through
    the target of an indexed access. */
module TypeTermination {

  import opened Options
  import opened TypeLookup
  import opened TypeReach
  import opened TypeGuard

  /** The size of a node, an upper bound on the descent inside one declaration. */
  ghost function Size(node: TypeNode): nat {
    1 + match node
        case Literal(members) => SignatureSizes(members)
        case Parenthesized(inner) => Size(inner)
        case Operator(_, inner) => Size(inner)
        case Intersection(parts) => Sizes(parts)
        case Union(parts) => Sizes(parts)
        case ArrayOf(element) => Size(element)
        case Indexed(target, _) => Size(target)
        case Reference(_, _, args) => Sizes(args)
        case Opaque => 0
  }

  ghost function Sizes(nodes: seq<TypeNode>): nat {
    if nodes == [] then 0 else Size(nodes[0]) + Sizes(nodes[1..])
  }

  ghost function SignatureSizes(members: seq<Signature>): nat {
    if members == [] then 0 else SignatureSize(members[0]) + SignatureSizes(members[1..])
  }

  ghost function SignatureSize(m: Signature): nat {
    match m
    case Property(_, Some(annotation)) => Size(annotation)
    case _ => 0
  }

  lemma {:induction false} SizeOfPart(nodes: seq<TypeNode>, t: TypeNode)
    requires t in nodes
    ensures Size(t) <= Sizes(nodes)
  {
    if t != nodes[0] {
      assert t in nodes[1..];
      SizeOfPart(nodes[1..], t);
    }
  }

  lemma {:induction false} SizeOfSignature(members: seq<Signature>, m: Signature)
    requires m in members
    ensures SignatureSize(m) <= SignatureSizes(members)
  {
    if m != members[0] {
      assert m in members[1..];
      SizeOfSignature(members[1..], m);
    }
  }

  ghost function DeclarationSize(declaration: Declaration): nat {
    match declaration
    case Enum => 0
    case Alias(body) => Size(body)
    case Interface(members, _) => SignatureSizes(members)
  }

  /** The guard keys a walk of at most `n` steps can add. */
  ghost function GuardKeys(w: World, n: nat): Seen {
    set key, i | key in w.declarations && 0 <= i <= n :: (key, i)
  }

  /** Frames that suffice when `left` guard keys are still free. */
  ghost function Budget(left: nat, size: nat): nat {
    if left == 0 then 1 else size + 3 + Budget(left - 1, size)
  }

  lemma {:induction false} BudgetGrows(a: nat, b: nat, size: nat)
    requires a <= b
    ensures Budget(a, size) <= Budget(b, size)
    decreases b
  {
    if a < b {
      BudgetGrows(a, b - 1, size);
    }
  }

  ghost predicate Bounded(w: World, size: nat) {
    forall key | key in w.declarations :: DeclarationSize(w.declarations[key].1) <= size
  }

  ghost function Free(w: World, n: nat, seen: Seen): nat {
    |GuardKeys(w, n) - seen|
  }

  lemma FreeShrinks(w: World, n: nat, seen: Seen, more: Seen)
    requires seen <= more
    ensures Free(w, n, more) <= Free(w, n, seen)
  {
    var a, b := GuardKeys(w, n) - more, GuardKeys(w, n) - seen;
    assert b == a + (b - a);
    assert |b| == |a| + |b - a|;
  }

  lemma FreeMarks(w: World, n: nat, seen: Seen, key: Key, i: nat)
    requires key in w.declarations && i <= n && (key, i) !in seen
    ensures Free(w, n, seen) == Free(w, n, seen + {(key, i)}) + 1
  {
    var b := GuardKeys(w, n) - seen;
    assert (key, i) in b;
    assert GuardKeys(w, n) - (seen + {(key, i)}) == b - {(key, i)};
  }

  // ------------------------------------------------------------------ indexed accesses

  /** No indexed access under the node has a target that leads to `key`. */
  ghost predicate Outward(w: World, file: File, node: TypeNode, key: Key) {
    match node
    case Literal(members) => forall m | m in members :: SignatureOutward(w, file, m, key)
    case Parenthesized(inner) => Outward(w, file, inner, key)
    case Operator(_, inner) => Outward(w, file, inner, key)
    case Intersection(parts) => forall t | t in parts :: Outward(w, file, t, key)
    case Union(parts) => forall t | t in parts :: Outward(w, file, t, key)
    case ArrayOf(element) => Outward(w, file, element, key)
    case Indexed(target, name) => name.Some? ==> key !in Reach(w, Refs(w, file, target))
    case Reference(_, _, args) => forall t | t in args :: Outward(w, file, t, key)
    case Opaque => true
  }

  ghost predicate SignatureOutward(w: World, file: File, m: Signature, key: Key) {
    match m
    case Property(_, Some(annotation)) => Outward(w, file, annotation, key)
    case _ => true
  }

  /** No declaration reaches itself through the target of an indexed access. */
  ghost predicate Grounded(w: World) {
    forall key | key in w.declarations ::
      var (file, declaration) := w.declarations[key];
      match declaration
      case Enum => true
      case Alias(body) => Outward(w, file, body, key)
      case Interface(members, _) => forall m | m in members :: SignatureOutward(w, file, m, key)
  }

  /** How many steps indexed accesses may still push: `size` for each declaration in reach, and
      before any declaration is entered, or below an access, those of the node itself. */
  ghost function Room(home: Option<Key>, size: nat, r: set<Key>, own: nat): nat {
    size * |r| + if home.Some? then 0 else own
  }

  /** Where the walk stands: below the declaration `home`, or below none since the last access. */
  ghost predicate Standing(w: World, home: Option<Key>, size: nat, r: set<Key>, file: File, node: TypeNode) {
    && Closed(w, r) && Refs(w, file, node) <= r
    && (home.Some? ==> home.value in r && Outward(w, file, node, home.value) && Size(node) <= size)
  }

  /** An access leaves the declaration it stands in behind. */
  lemma RoomBelowAccess(w: World, home: Option<Key>, size: nat, r: set<Key>, file: File, target: TypeNode, name: string)
    returns (below: set<Key>)
    requires Standing(w, home, size, r, file, Indexed(target, Some(name)))
    ensures Standing(w, None, size, below, file, target)
    ensures Room(None, size, below, Size(target)) + 1 <= Room(home, size, r, Size(Indexed(target, Some(name))))
  {
    if home.Some? {
      below := Reach(w, Refs(w, file, target));
      ReachClosed(w, Refs(w, file, target));
      ReachLeast(w, Refs(w, file, target), r);
      var rest := r - {home.value};
      assert below <= rest;
      SubsetSmaller(below, rest);
      assert |rest| == |r| - 1;
      assert size * |below| <= size * (|r| - 1) by {
        Multiply(size, |below|, |r| - 1);
      }
      assert size * (|r| - 1) + size == size * |r|;
    } else {
      below := r;
    }
  }

  lemma SubsetSmaller(a: set<Key>, b: set<Key>)
    requires a <= b
    ensures |a| <= |b|
  {
    assert b == a + (b - a);
  }

  lemma Multiply(a: nat, b: nat, c: nat)
    requires b <= c
    ensures a * b <= a * c
  {
  }

  // ----------------------------------------------------------------------- the walk ends

  lemma {:induction false} TypeEnds(w: World, home: Option<Key>, r: set<Key>, fuel: nat, file: File, node: TypeNode,
                                    steps: seq<Step>, seen: Seen, n: nat, size: nat)
    requires Grounded(w) && Bounded(w, size) && Standing(w, home, size, r, file, node)
    requires |steps| + Room(home, size, r, Size(node)) <= n
    requires fuel >= Budget(Free(w, n, seen), size) + Size(node) + 1
    ensures LookupType(w, fuel, file, node, steps, seen).result.Some?
    decreases fuel, 1, 0
  {
    hide Free, Budget, Closed, Grounded, Bounded;
    if steps != [] {
      match node
      case Literal(members) =>
        if steps[0].Member? && FirstWritten(members, steps[0].name).Some? {
          var p := FirstWritten(members, steps[0].name).value;
          SizeOfSignature(members, p);
          PropertyEnds(w, home, r, fuel, file, p, steps, seen, n, size);
        }
      case Parenthesized(inner) => TypeEnds(w, home, r, fuel - 1, file, inner, steps, seen, n, size);
      case Operator(_, inner) => TypeEnds(w, home, r, fuel - 1, file, inner, steps, seen, n, size);
      case Intersection(parts) => PartsEnd(w, home, r, fuel - 1, file, parts, steps, seen, n, size);
      case Union(parts) => PartsEnd(w, home, r, fuel - 1, file, parts, steps, seen, n, size);
      case ArrayOf(element) =>
        if steps[0].Element? {
          TypeEnds(w, home, r, fuel - 1, file, element, steps[1..], seen, n, size);
        }
      case Indexed(target, key) =>
        if key.Some? {
          var below := RoomBelowAccess(w, home, size, r, file, target, key.value);
          TypeEnds(w, None, below, fuel - 1, file, target, [Member(key.value)] + steps, seen, n, size);
        }
      case Reference(head, qualified, args) =>
        if args != [] {
          SizeOfPart(args, args[0]);
        }
        if IsPassthrough(head) && args != [] {
          TypeEnds(w, home, r, fuel - 1, file, args[0], steps, seen, n, size);
        } else if IsArrayName(head) && args != [] {
          if steps[0].Element? {
            TypeEnds(w, home, r, fuel - 1, file, args[0], steps[1..], seen, n, size);
          }
        } else if !qualified && Resolve(w, file, head).Some? {
          DeclarationEnds(w, r, fuel - 1, Resolve(w, file, head).value, steps, seen, n, size);
        }
      case Opaque =>
    }
  }

  lemma {:induction false} PropertyEnds(w: World, home: Option<Key>, r: set<Key>, fuel: nat, file: File, p: Signature,
                                        steps: seq<Step>, seen: Seen, n: nat, size: nat)
    requires Grounded(w) && Bounded(w, size) && Closed(w, r) && SignatureRefs(w, file, p) <= r
    requires home.Some? ==> home.value in r && SignatureOutward(w, file, p, home.value) && SignatureSize(p) <= size
    requires fuel > 0 && steps != [] && p.Property? && |steps| + Room(home, size, r, SignatureSize(p)) <= n
    requires fuel >= Budget(Free(w, n, seen), size) + SignatureSize(p) + 2
    ensures IntoProperty(w, fuel, file, p, steps, seen).result.Some?
    decreases fuel, 0, 0
  {
    hide Free, Budget, Closed, Grounded, Bounded;
    if |steps| > 1 && p.annotation.Some? {
      TypeEnds(w, home, r, fuel - 1, file, p.annotation.value, steps[1..], seen, n, size);
    }
  }

  lemma {:induction false} PartsEnd(w: World, home: Option<Key>, r: set<Key>, fuel: nat, file: File,
                                    parts: seq<TypeNode>, steps: seq<Step>, seen: Seen, n: nat, size: nat)
    requires Grounded(w) && Bounded(w, size) && Closed(w, r) && PartRefs(w, file, parts) <= r
    requires home.Some? ==> home.value in r && Sizes(parts) <= size
    requires home.Some? ==> forall t | t in parts :: Outward(w, file, t, home.value)
    requires |steps| + Room(home, size, r, Sizes(parts)) <= n
    requires fuel >= Budget(Free(w, n, seen), size) + Sizes(parts) + 1
    ensures LookupParts(w, fuel, file, parts, steps, seen).results.Some?
    decreases fuel, 2, |parts|
  {
    hide Free, Budget, Closed, Grounded, Bounded;
    if parts != [] {
      TypeEnds(w, home, r, fuel, file, parts[0], steps, seen, n, size);
      var after := LookupType(w, fuel, file, parts[0], steps, seen).seen;
      TypeSeenGrows(w, fuel, file, parts[0], steps, seen);
      FreeShrinks(w, n, seen, after);
      BudgetGrows(Free(w, n, after), Free(w, n, seen), size);
      PartsEnd(w, home, r, fuel, file, parts[1..], steps, after, n, size);
    }
  }

  lemma {:induction false} DeclarationEnds(w: World, r: set<Key>, fuel: nat, key: Key, steps: seq<Step>, seen: Seen,
                                           n: nat, size: nat)
    requires Grounded(w) && Bounded(w, size) && Closed(w, r) && key in r && key in w.declarations
    requires |steps| + Room(Some(key), size, r, 0) <= n && fuel >= Budget(Free(w, n, seen), size)
    ensures LookupDeclaration(w, fuel, key, steps, seen).result.Some?
    decreases fuel, 1, 0
  {
    if steps != [] && (key, |steps|) !in seen {
      var (file, declaration) := w.declarations[key];
      var marked := seen + {(key, |steps|)};
      FreeMarks(w, n, seen, key, |steps|);
      DeclarationStanding(w, r, key, size);
      assert fuel >= Budget(Free(w, n, marked), size) + size + 3;
      hide Grounded, Closed, Bounded, Free, Budget, Refs, MemberRefs, HeritageRefs, Size, SignatureSizes;
      match declaration
      case Enum =>
      case Alias(body) => TypeEnds(w, Some(key), r, fuel - 1, file, body, steps, marked, n, size);
      case Interface(members, bases) =>
        if steps[0].Member? {
          match FirstWritten(members, steps[0].name)
          case Some(p) =>
            SizeOfSignature(members, p);
            PropertyEnds(w, Some(key), r, fuel, file, p, steps, marked, n, size);
          case None => BasesEnd(w, r, fuel - 1, file, bases, steps, marked, n, size);
        }
    }
  }

  lemma DeclarationStanding(w: World, r: set<Key>, key: Key, size: nat)
    requires Grounded(w) && Bounded(w, size) && Closed(w, r) && key in r && key in w.declarations
    ensures var (file, declaration) := w.declarations[key];
      match declaration
      case Enum => true
      case Alias(body) => Standing(w, Some(key), size, r, file, body)
      case Interface(members, bases) =>
        && SignatureSizes(members) <= size && HeritageRefs(w, file, bases) <= r
        && forall m | m in members :: SignatureRefs(w, file, m) <= r && SignatureOutward(w, file, m, key)
  {
    assert DeclarationSize(w.declarations[key].1) <= size && DeclarationRefs(w, key) <= r;
  }

  lemma {:induction false} BasesEnd(w: World, r: set<Key>, fuel: nat, file: File, bases: seq<Option<string>>,
                                    steps: seq<Step>, seen: Seen, n: nat, size: nat)
    requires Grounded(w) && Bounded(w, size) && Closed(w, r) && HeritageRefs(w, file, bases) <= r
    requires |steps| + size * |r| <= n && fuel >= Budget(Free(w, n, seen), size)
    ensures LookupBases(w, fuel, file, bases, steps, seen).results.Some?
    decreases fuel, 2, |bases|
  {
    hide Free, Budget, Closed, Grounded, Bounded;
    if bases != [] {
      var after := LookupBase(w, fuel, file, bases[0], steps, seen).seen;
      if bases[0].Some? && Resolve(w, file, bases[0].value).Some? {
        DeclarationEnds(w, r, fuel, Resolve(w, file, bases[0].value).value, steps, seen, n, size);
      }
      BaseMarks(w, r, fuel, file, bases[0], steps, seen);
      FreeShrinks(w, n, seen, after);
      BudgetGrows(Free(w, n, after), Free(w, n, seen), size);
      BasesEnd(w, r, fuel, file, bases[1..], steps, after, n, size);
    }
  }

  /** The most steps a walk of the node can have before it. */
  ghost function MostSteps(w: World, node: TypeNode, steps: seq<Step>, size: nat): nat {
    |steps| + size * |w.declarations| + Size(node)
  }

  /** If no declaration reaches itself through an indexed-access target, a walk ends within an
      explicit number of frames, whatever recursion there is besides. */
  lemma TypeTerminates(w: World, fuel: nat, file: File, node: TypeNode, steps: seq<Step>, seen: Seen, size: nat)
    requires Grounded(w) && Bounded(w, size)
    requires fuel >= Budget(Free(w, MostSteps(w, node, steps, size), seen), size) + Size(node) + 1
    ensures LookupType(w, fuel, file, node, steps, seen).result.Some?
  {
    hide Closed, Grounded, Bounded, Free, Budget, LookupType, Refs;
    EverythingClosed(w);
    RefsDeclared(w, file, node);
    assert |w.declarations| == |w.declarations.Keys|;
    TypeEnds(w, None, w.declarations.Keys, fuel, file, node, steps, seen, MostSteps(w, node, steps, size), size);
  }

  /** The same for a walk that starts at a declaration. */
  lemma DeclarationTerminates(w: World, fuel: nat, key: Key, steps: seq<Step>, seen: Seen, size: nat)
    requires Grounded(w) && Bounded(w, size) && key in w.declarations
    requires fuel >= Budget(Free(w, |steps| + size * |w.declarations|, seen), size)
    ensures LookupDeclaration(w, fuel, key, steps, seen).result.Some?
  {
    hide Closed, Grounded, Bounded, Free, Budget, LookupDeclaration, DeclarationRefs;
    EverythingClosed(w);
    assert |w.declarations| == |w.declarations.Keys|;
    DeclarationEnds(w, w.declarations.Keys, fuel, key, steps, seen, |steps| + size * |w.declarations|, size);
  }

  /** The alias `type A = A['x']`. */
  function SelfIndexed(): World {
    World(map[0 := (0, Alias(Indexed(Named("A"), Some("x"))))], map[(0, "A") := 0])
  }

  /** One round through the alias: three frames, one more step, one more guard key. */
  lemma SelfIndexedRound(fuel: nat, steps: seq<Step>, seen: Seen)
    requires steps != [] && (0, |steps|) !in seen
    ensures LookupDeclaration(SelfIndexed(), fuel, 0, steps, seen).result
         == if fuel < 3 then None
            else LookupDeclaration(SelfIndexed(), fuel - 3, 0, [Member("x")] + steps, seen + {(0, |steps|)}).result
  {
    var w, more, marked := SelfIndexed(), [Member("x")] + steps, seen + {(0, |steps|)};
    assert Resolve(w, 0, "A") == Some(0);
    if fuel >= 1 {
      assert LookupDeclaration(w, fuel, 0, steps, seen)
          == LookupType(w, fuel - 1, 0, Indexed(Named("A"), Some("x")), steps, marked);
    }
    if fuel >= 2 {
      assert LookupType(w, fuel - 1, 0, Indexed(Named("A"), Some("x")), steps, marked)
          == LookupType(w, fuel - 2, 0, Named("A"), more, marked);
    }
    if fuel >= 3 {
      assert LookupType(w, fuel - 2, 0, Named("A"), more, marked) == LookupDeclaration(w, fuel - 3, 0, more, marked);
    }
  }

  /** An indexed-access type pushes a step, so the guard key of a recursive alias is new
      every time round: no stack is deep enough. */
  lemma {:induction false} SelfIndexedNeverEnds(fuel: nat, steps: seq<Step>, seen: Seen)
    requires steps != [] && forall i | i >= |steps| :: (0, i) !in seen
    ensures LookupDeclaration(SelfIndexed(), fuel, 0, steps, seen).result.None?
    decreases fuel
  {
    SelfIndexedRound(fuel, steps, seen);
    if fuel >= 3 {
      SelfIndexedNeverEnds(fuel - 3, [Member("x")] + steps, seen + {(0, |steps|)});
    }
  }

  /** It is not grounded: it reaches itself through the target of its own access. */
  lemma SelfIndexedNotGrounded()
    ensures !Grounded(SelfIndexed())
  {
    var w := SelfIndexed();
    assert Resolve(w, 0, "A") == Some(0);
    ReachClosed(w, {0});
    assert Refs(w, 0, Named("A")) == {0};
    assert w.declarations[0] == (0, Alias(Indexed(Named("A"), Some("x"))));
  }
}
