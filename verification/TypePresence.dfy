/** What type declarations say about member paths, independently of any walk. Where they say
    nothing, as an opaque node does, a reading is free; the least and the greatest reading
    settle all free presence to absent and to present. */
module TypePresence {

  import opened Options
  import opened TypeLookup

  // ----------------------------------------------------------------------- member lists

  /** `Meant` reads a member list by the names its members denote. `Written` reads it as the
      walk does: by the written names of its property signatures, with all other members
      overlooked and `keyof` taken for its operand. */
  datatype View = Meant | Written

  predicate Denotes(v: View, m: Signature, name: string) {
    match v
    case Meant => (m.Property? || m.Method?) && m.name.denotes == Some(name)
    case Written => m.Property? && m.name.written == name
  }

  /** An index signature and a computed name may declare any name. */
  predicate MayDeclare(v: View, m: Signature, name: string) {
    Denotes(v, m, name) || (v.Meant? && (m.Index? || ((m.Property? || m.Method?) && m.name.denotes == None)))
  }

  function FirstDenoting(v: View, members: seq<Signature>, name: string): (r: Option<Signature>)
    ensures r.Some? ==> r.value in members && Denotes(v, r.value, name)
    ensures r.None? ==> forall m | m in members :: !Denotes(v, m, name)
  {
    if members == [] then None
    else if Denotes(v, members[0], name) then Some(members[0])
    else FirstDenoting(v, members[1..], name)
  }

  /** No member declares the name, and none may. */
  ghost predicate Silent(v: View, members: seq<Signature>, name: string) {
    forall m | m in members :: !MayDeclare(v, m, name)
  }

  // --------------------------------------------------------------------------- readings

  /** The utility types that have the members of their argument. */
  ghost predicate Wraps(head: string) {
    head in {"Partial", "Required", "Readonly", "NonNullable"}
  }

  /** The named types that are arrays of their argument. */
  ghost predicate Lists(head: string) {
    head in {"Array", "ReadonlyArray"}
  }

  /** An account of which member paths types and declarations have. */
  datatype Presence = Presence(
    has: (File, TypeNode, seq<Step>) -> bool,
    declares: (Key, seq<Step>) -> bool)

  /** Presence below the member that declares the first name of the path. */
  ghost predicate MemberRule(pr: Presence, file: File, m: Signature, steps: seq<Step>, value: bool)
    requires steps != []
  {
    if |steps| == 1 then value
    else m.Property? && m.annotation.Some? ==> value == pr.has(file, m.annotation.value, steps[1..])
  }

  /** What a type node says about a path, as far as the node can be seen through. */
  ghost predicate TypeRule(w: World, v: View, pr: Presence, file: File, node: TypeNode, steps: seq<Step>) {
    steps != [] ==>
      match node
      case Literal(members) =>
        steps[0].Member? ==> (
          match FirstDenoting(v, members, steps[0].name)
          case Some(m) => MemberRule(pr, file, m, steps, pr.has(file, node, steps))
          case None => Silent(v, members, steps[0].name) ==> !pr.has(file, node, steps)
        )
      case Parenthesized(inner) => pr.has(file, node, steps) == pr.has(file, inner, steps)
      case Operator(keyOf, inner) => !keyOf || v.Written? ==> pr.has(file, node, steps) == pr.has(file, inner, steps)
      case Intersection(parts) => pr.has(file, node, steps) <==> exists t | t in parts :: pr.has(file, t, steps)
      case Union(parts) =>
        && ((forall t | t in parts :: pr.has(file, t, steps)) ==> pr.has(file, node, steps))
        && (parts != [] && (forall t | t in parts :: !pr.has(file, t, steps)) ==> !pr.has(file, node, steps))
      case ArrayOf(element) => steps[0].Element? ==> pr.has(file, node, steps) == pr.has(file, element, steps[1..])
      case Indexed(target, key) =>
        key.Some? ==> pr.has(file, node, steps) == pr.has(file, target, [Member(key.value)] + steps)
      case Reference(head, qualified, args) =>
        if Wraps(head) && args != [] then pr.has(file, node, steps) == pr.has(file, args[0], steps)
        else if Lists(head) && args != [] then
          steps[0].Element? ==> pr.has(file, node, steps) == pr.has(file, args[0], steps[1..])
        else !qualified && Resolve(w, file, head).Some? ==>
          pr.has(file, node, steps) == pr.declares(Resolve(w, file, head).value, steps)
      case Opaque => true
  }

  ghost predicate BaseVisible(w: World, file: File, base: Option<string>) {
    base.Some? && Resolve(w, file, base.value).Some?
  }

  ghost predicate BaseHas(w: World, pr: Presence, file: File, base: Option<string>, steps: seq<Step>) {
    BaseVisible(w, file, base) && pr.declares(Resolve(w, file, base.value).value, steps)
  }

  ghost predicate DeclarationRule(w: World, v: View, pr: Presence, key: Key, steps: seq<Step>)
    requires key in w.declarations
  {
    steps != [] ==>
      var (file, declaration) := w.declarations[key];
      match declaration
      case Enum => true
      case Alias(body) => pr.declares(key, steps) == pr.has(file, body, steps)
      case Interface(members, bases) =>
        steps[0].Member? ==> (
          match FirstDenoting(v, members, steps[0].name)
          case Some(m) => MemberRule(pr, file, m, steps, pr.declares(key, steps))
          case None =>
            && ((exists b | b in bases :: BaseHas(w, pr, file, b, steps)) ==> pr.declares(key, steps))
            && (Silent(v, members, steps[0].name)
                && (forall b | b in bases :: BaseVisible(w, file, b) && !BaseHas(w, pr, file, b, steps))
                ==> !pr.declares(key, steps))
        )
  }

  /** `pr` is consistent with every node and declaration; the empty path is present. */
  ghost predicate Respects(w: World, v: View, pr: Presence) {
    && (forall file, node, steps :: TypeRule(w, v, pr, file, node, steps))
    && (forall key, steps | key in w.declarations :: DeclarationRule(w, v, pr, key, steps))
    && (forall file, node :: pr.has(file, node, []))
    && (forall key :: pr.declares(key, []))
  }

  // -------------------------------------------------------------- derivations of finite height

  /** Presence (`up`) or absence that follows from the declarations in at most `k` steps. */
  ghost predicate Derived(w: World, v: View, up: bool, k: nat, file: File, node: TypeNode, steps: seq<Step>)
    decreases k, 1
  {
    k > 0 &&
    if steps == [] then up
    else
      match node
      case Literal(members) =>
        steps[0].Member? && (
          match FirstDenoting(v, members, steps[0].name)
          case Some(m) => MemberDerived(w, v, up, k, file, m, steps)
          case None => !up && Silent(v, members, steps[0].name)
        )
      case Parenthesized(inner) => Derived(w, v, up, k - 1, file, inner, steps)
      case Operator(keyOf, inner) => (!keyOf || v.Written?) && Derived(w, v, up, k - 1, file, inner, steps)
      case Intersection(parts) =>
        if up then exists t | t in parts :: Derived(w, v, up, k - 1, file, t, steps)
        else forall t | t in parts :: Derived(w, v, up, k - 1, file, t, steps)
      case Union(parts) => (up || parts != []) && forall t | t in parts :: Derived(w, v, up, k - 1, file, t, steps)
      case ArrayOf(element) => steps[0].Element? && Derived(w, v, up, k - 1, file, element, steps[1..])
      case Indexed(target, key) => key.Some? && Derived(w, v, up, k - 1, file, target, [Member(key.value)] + steps)
      case Reference(head, qualified, args) =>
        if Wraps(head) && args != [] then Derived(w, v, up, k - 1, file, args[0], steps)
        else if Lists(head) && args != [] then
          steps[0].Element? && Derived(w, v, up, k - 1, file, args[0], steps[1..])
        else !qualified && Resolve(w, file, head).Some?
             && DerivedAt(w, v, up, k - 1, Resolve(w, file, head).value, steps)
      case Opaque => false
  }

  ghost predicate MemberDerived(w: World, v: View, up: bool, k: nat, file: File, m: Signature, steps: seq<Step>)
    requires k > 0 && steps != []
    decreases k, 0
  {
    if |steps| == 1 then up
    else m.Property? && m.annotation.Some? && Derived(w, v, up, k - 1, file, m.annotation.value, steps[1..])
  }

  ghost predicate DerivedAt(w: World, v: View, up: bool, k: nat, key: Key, steps: seq<Step>)
    decreases k, 1
  {
    k > 0 &&
    if steps == [] then up
    else if key !in w.declarations then false
    else
      var (file, declaration) := w.declarations[key];
      match declaration
      case Enum => false
      case Alias(body) => Derived(w, v, up, k - 1, file, body, steps)
      case Interface(members, bases) =>
        steps[0].Member? && (
          match FirstDenoting(v, members, steps[0].name)
          case Some(m) => MemberDerived(w, v, up, k, file, m, steps)
          case None =>
            if up then exists b | b in bases :: BaseDerived(w, v, up, k, file, b, steps)
            else Silent(v, members, steps[0].name) && forall b | b in bases :: BaseDerived(w, v, up, k, file, b, steps)
        )
  }

  ghost predicate BaseDerived(w: World, v: View, up: bool, k: nat, file: File, base: Option<string>, steps: seq<Step>)
    requires k > 0
    decreases k, 0
  {
    BaseVisible(w, file, base) && DerivedAt(w, v, up, k - 1, Resolve(w, file, base.value).value, steps)
  }

  lemma {:induction false} DerivedGrows(w: World, v: View, up: bool, k: nat, file: File, node: TypeNode,
                                        steps: seq<Step>)
    requires Derived(w, v, up, k, file, node, steps)
    ensures Derived(w, v, up, k + 1, file, node, steps)
    decreases k, 1
  {
    hide FirstDenoting, Silent, DerivedAt, MemberDerived;
    if steps != [] {
      match node
      case Literal(members) =>
        if FirstDenoting(v, members, steps[0].name).Some? {
          MemberGrows(w, v, up, k, file, FirstDenoting(v, members, steps[0].name).value, steps);
        }
      case Parenthesized(inner) => DerivedGrows(w, v, up, k - 1, file, inner, steps);
      case Operator(_, inner) => DerivedGrows(w, v, up, k - 1, file, inner, steps);
      case Intersection(parts) => PartsGrow(w, v, up, k - 1, file, parts, steps);
      case Union(parts) => PartsGrow(w, v, up, k - 1, file, parts, steps);
      case ArrayOf(element) => DerivedGrows(w, v, up, k - 1, file, element, steps[1..]);
      case Indexed(target, key) => DerivedGrows(w, v, up, k - 1, file, target, [Member(key.value)] + steps);
      case Reference(head, qualified, args) =>
        if Wraps(head) && args != [] {
          DerivedGrows(w, v, up, k - 1, file, args[0], steps);
        } else if Lists(head) && args != [] {
          DerivedGrows(w, v, up, k - 1, file, args[0], steps[1..]);
        } else {
          DerivedAtGrows(w, v, up, k - 1, Resolve(w, file, head).value, steps);
        }
      case Opaque =>
    }
  }

  lemma {:induction false} MemberGrows(w: World, v: View, up: bool, k: nat, file: File, m: Signature, steps: seq<Step>)
    requires k > 0 && steps != [] && MemberDerived(w, v, up, k, file, m, steps)
    ensures MemberDerived(w, v, up, k + 1, file, m, steps)
    decreases k, 0
  {
    if |steps| > 1 {
      DerivedGrows(w, v, up, k - 1, file, m.annotation.value, steps[1..]);
    }
  }

  lemma {:induction false} PartsGrow(w: World, v: View, up: bool, k: nat, file: File, parts: seq<TypeNode>,
                                     steps: seq<Step>)
    ensures forall t | t in parts && Derived(w, v, up, k, file, t, steps) :: Derived(w, v, up, k + 1, file, t, steps)
    decreases k, 2
  {
    forall t | t in parts && Derived(w, v, up, k, file, t, steps)
      ensures Derived(w, v, up, k + 1, file, t, steps)
    {
      DerivedGrows(w, v, up, k, file, t, steps);
    }
  }

  lemma {:induction false} DerivedAtGrows(w: World, v: View, up: bool, k: nat, key: Key, steps: seq<Step>)
    requires DerivedAt(w, v, up, k, key, steps)
    ensures DerivedAt(w, v, up, k + 1, key, steps)
    decreases k, 1
  {
    if steps != [] {
      var (file, declaration) := w.declarations[key];
      match declaration
      case Enum =>
      case Alias(body) => DerivedGrows(w, v, up, k - 1, file, body, steps);
      case Interface(members, bases) =>
        match FirstDenoting(v, members, steps[0].name)
        case Some(m) =>
          MemberGrows(w, v, up, k, file, m, steps);
        case None =>
          BasesGrow(w, v, up, k, file, bases, steps);
          if up {
            var b :| b in bases && BaseDerived(w, v, up, k, file, b, steps);
            assert BaseDerived(w, v, up, k + 1, file, b, steps);
          } else {
            assert forall b | b in bases :: BaseDerived(w, v, up, k + 1, file, b, steps);
          }
    }
  }

  lemma {:induction false} BasesGrow(w: World, v: View, up: bool, k: nat, file: File, bases: seq<Option<string>>,
                                     steps: seq<Step>)
    requires k > 0
    ensures forall b | b in bases && BaseDerived(w, v, up, k, file, b, steps) ::
              BaseDerived(w, v, up, k + 1, file, b, steps)
    decreases k, 0
  {
    forall b | b in bases && BaseDerived(w, v, up, k, file, b, steps)
      ensures BaseDerived(w, v, up, k + 1, file, b, steps)
    {
      DerivedAtGrows(w, v, up, k - 1, Resolve(w, file, b.value).value, steps);
    }
  }

  lemma {:induction false} DerivedGrowsTo(w: World, v: View, up: bool, k: nat, m: nat, file: File, node: TypeNode,
                                          steps: seq<Step>)
    requires Derived(w, v, up, k, file, node, steps) && k <= m
    ensures Derived(w, v, up, m, file, node, steps)
    decreases m
  {
    if k < m {
      DerivedGrowsTo(w, v, up, k, m - 1, file, node, steps);
      DerivedGrows(w, v, up, m - 1, file, node, steps);
    }
  }

  lemma {:induction false} DerivedAtGrowsTo(w: World, v: View, up: bool, k: nat, m: nat, key: Key, steps: seq<Step>)
    requires DerivedAt(w, v, up, k, key, steps) && k <= m
    ensures DerivedAt(w, v, up, m, key, steps)
    decreases m
  {
    if k < m {
      DerivedAtGrowsTo(w, v, up, k, m - 1, key, steps);
      DerivedAtGrows(w, v, up, m - 1, key, steps);
    }
  }

  ghost predicate Follows(w: World, v: View, up: bool, file: File, node: TypeNode, steps: seq<Step>) {
    exists k: nat :: Derived(w, v, up, k, file, node, steps)
  }

  ghost predicate FollowsAt(w: World, v: View, up: bool, key: Key, steps: seq<Step>) {
    exists k: nat :: DerivedAt(w, v, up, k, key, steps)
  }

  /** With `up` the least reading: present is what must be. Without it the greatest: absent is
      what must be. */
  ghost function Reading(w: World, v: View, up: bool): Presence {
    Presence((file: File, node: TypeNode, steps: seq<Step>) => Follows(w, v, up, file, node, steps) == up,
             (key: Key, steps: seq<Step>) => FollowsAt(w, v, up, key, steps) == up)
  }

  lemma Height(w: World, v: View, up: bool, file: File, node: TypeNode, steps: seq<Step>) returns (k: nat)
    requires Follows(w, v, up, file, node, steps)
    ensures Derived(w, v, up, k, file, node, steps)
  {
    k :| Derived(w, v, up, k, file, node, steps);
  }

  lemma HeightAt(w: World, v: View, up: bool, key: Key, steps: seq<Step>) returns (k: nat)
    requires FollowsAt(w, v, up, key, steps)
    ensures DerivedAt(w, v, up, k, key, steps)
  {
    k :| DerivedAt(w, v, up, k, key, steps);
  }

  lemma FollowsFrom(w: World, v: View, up: bool, k: nat, file: File, node: TypeNode, steps: seq<Step>)
    requires Derived(w, v, up, k, file, node, steps)
    ensures Follows(w, v, up, file, node, steps)
  {
  }

  lemma FollowsAtFrom(w: World, v: View, up: bool, k: nat, key: Key, steps: seq<Step>)
    requires DerivedAt(w, v, up, k, key, steps)
    ensures FollowsAt(w, v, up, key, steps)
  {
  }

  /** One height serves all the parts. */
  lemma {:induction false} CommonHeight(w: World, v: View, up: bool, file: File, parts: seq<TypeNode>, steps: seq<Step>)
    returns (k: nat)
    requires forall t | t in parts :: Follows(w, v, up, file, t, steps)
    ensures forall t | t in parts :: Derived(w, v, up, k, file, t, steps)
  {
    hide Derived, Follows;
    if parts == [] {
      k := 0;
    } else {
      var rest := CommonHeight(w, v, up, file, parts[1..], steps);
      var first := Height(w, v, up, file, parts[0], steps);
      k := if first <= rest then rest else first;
      forall t | t in parts
        ensures Derived(w, v, up, k, file, t, steps)
      {
        if t == parts[0] {
          DerivedGrowsTo(w, v, up, first, k, file, t, steps);
        } else {
          assert t in parts[1..];
          DerivedGrowsTo(w, v, up, rest, k, file, t, steps);
        }
      }
    }
  }

  ghost predicate BaseFollows(w: World, v: View, up: bool, file: File, base: Option<string>, steps: seq<Step>) {
    BaseVisible(w, file, base) && FollowsAt(w, v, up, Resolve(w, file, base.value).value, steps)
  }

  lemma {:induction false} CommonBaseHeight(w: World, v: View, up: bool, file: File, bases: seq<Option<string>>,
                                            steps: seq<Step>)
    returns (k: nat)
    requires forall b | b in bases :: BaseFollows(w, v, up, file, b, steps)
    ensures k > 0 && forall b | b in bases :: BaseDerived(w, v, up, k, file, b, steps)
  {
    hide DerivedAt, FollowsAt;
    if bases == [] {
      k := 1;
    } else {
      var rest := CommonBaseHeight(w, v, up, file, bases[1..], steps);
      var b0 := bases[0];
      assert BaseFollows(w, v, up, file, b0, steps);
      var first := HeightAt(w, v, up, Resolve(w, file, b0.value).value, steps);
      k := if first + 1 <= rest then rest else first + 1;
      forall b | b in bases
        ensures BaseDerived(w, v, up, k, file, b, steps)
      {
        if b == b0 {
          DerivedAtGrowsTo(w, v, up, first, k - 1, Resolve(w, file, b.value).value, steps);
        } else {
          assert b in bases[1..];
          DerivedAtGrowsTo(w, v, up, rest - 1, k - 1, Resolve(w, file, b.value).value, steps);
        }
      }
    }
  }

  // ----------------------------------------------------------- both readings are consistent

  /** What the shape of a node says one step down. */
  ghost predicate Below(w: World, v: View, up: bool, file: File, node: TypeNode, steps: seq<Step>)
    requires steps != []
  {
    match node
    case Literal(members) =>
      steps[0].Member? && (
        match FirstDenoting(v, members, steps[0].name)
        case Some(m) => BelowMember(w, v, up, file, m, steps)
        case None => !up && Silent(v, members, steps[0].name)
      )
    case Parenthesized(inner) => Follows(w, v, up, file, inner, steps)
    case Operator(keyOf, inner) => (!keyOf || v.Written?) && Follows(w, v, up, file, inner, steps)
    case Intersection(parts) =>
      if up then exists t | t in parts :: Follows(w, v, up, file, t, steps)
      else forall t | t in parts :: Follows(w, v, up, file, t, steps)
    case Union(parts) => (up || parts != []) && forall t | t in parts :: Follows(w, v, up, file, t, steps)
    case ArrayOf(element) => steps[0].Element? && Follows(w, v, up, file, element, steps[1..])
    case Indexed(target, key) => key.Some? && Follows(w, v, up, file, target, [Member(key.value)] + steps)
    case Reference(head, qualified, args) =>
      if Wraps(head) && args != [] then Follows(w, v, up, file, args[0], steps)
      else if Lists(head) && args != [] then steps[0].Element? && Follows(w, v, up, file, args[0], steps[1..])
      else !qualified && Resolve(w, file, head).Some? && FollowsAt(w, v, up, Resolve(w, file, head).value, steps)
    case Opaque => false
  }

  ghost predicate BelowMember(w: World, v: View, up: bool, file: File, m: Signature, steps: seq<Step>)
    requires steps != []
  {
    if |steps| == 1 then up
    else m.Property? && m.annotation.Some? && Follows(w, v, up, file, m.annotation.value, steps[1..])
  }

  lemma FollowsUnfolds(w: World, v: View, up: bool, file: File, node: TypeNode, steps: seq<Step>)
    requires steps != [] && Follows(w, v, up, file, node, steps)
    ensures Below(w, v, up, file, node, steps)
  {
    var k := Height(w, v, up, file, node, steps);
    hide Follows, FollowsAt;
    match node
    case Literal(members) =>
      if FirstDenoting(v, members, steps[0].name).Some? && |steps| > 1 {
        FollowsFrom(w, v, up, k - 1, file, FirstDenoting(v, members, steps[0].name).value.annotation.value, steps[1..]);
      }
    case Parenthesized(inner) => FollowsFrom(w, v, up, k - 1, file, inner, steps);
    case Operator(_, inner) => FollowsFrom(w, v, up, k - 1, file, inner, steps);
    case Intersection(parts) => PartsFollow(w, v, up, k - 1, file, parts, steps);
    case Union(parts) => PartsFollow(w, v, up, k - 1, file, parts, steps);
    case ArrayOf(element) => FollowsFrom(w, v, up, k - 1, file, element, steps[1..]);
    case Indexed(target, key) => FollowsFrom(w, v, up, k - 1, file, target, [Member(key.value)] + steps);
    case Reference(head, qualified, args) =>
      if Wraps(head) && args != [] {
        FollowsFrom(w, v, up, k - 1, file, args[0], steps);
      } else if Lists(head) && args != [] {
        FollowsFrom(w, v, up, k - 1, file, args[0], steps[1..]);
      } else {
        FollowsAtFrom(w, v, up, k - 1, Resolve(w, file, head).value, steps);
      }
    case Opaque =>
  }

  lemma PartsFollow(w: World, v: View, up: bool, k: nat, file: File, parts: seq<TypeNode>, steps: seq<Step>)
    ensures forall t | t in parts && Derived(w, v, up, k, file, t, steps) :: Follows(w, v, up, file, t, steps)
  {
    hide Derived;
  }

  lemma FollowsFolds(w: World, v: View, up: bool, file: File, node: TypeNode, steps: seq<Step>)
    requires steps != [] && Below(w, v, up, file, node, steps)
    ensures Follows(w, v, up, file, node, steps)
  {
    hide Follows, FollowsAt;
    var k: nat := 0;
    match node {
      case Literal(members) =>
        if FirstDenoting(v, members, steps[0].name).Some? && |steps| > 1 {
          k := Height(w, v, up, file, FirstDenoting(v, members, steps[0].name).value.annotation.value, steps[1..]);
        }
      case Parenthesized(inner) => k := Height(w, v, up, file, inner, steps);
      case Operator(_, inner) => k := Height(w, v, up, file, inner, steps);
      case Intersection(parts) =>
        if up {
          var t :| t in parts && Follows(w, v, up, file, t, steps);
          k := Height(w, v, up, file, t, steps);
        } else {
          k := CommonHeight(w, v, up, file, parts, steps);
        }
      case Union(parts) => k := CommonHeight(w, v, up, file, parts, steps);
      case ArrayOf(element) => k := Height(w, v, up, file, element, steps[1..]);
      case Indexed(target, key) => k := Height(w, v, up, file, target, [Member(key.value)] + steps);
      case Reference(head, qualified, args) =>
        if Wraps(head) && args != [] {
          k := Height(w, v, up, file, args[0], steps);
        } else if Lists(head) && args != [] {
          k := Height(w, v, up, file, args[0], steps[1..]);
        } else {
          k := HeightAt(w, v, up, Resolve(w, file, head).value, steps);
        }
      case Opaque =>
    }
    FollowsFrom(w, v, up, k + 1, file, node, steps);
  }

  lemma ReadingRule(w: World, v: View, up: bool, file: File, node: TypeNode, steps: seq<Step>)
    ensures TypeRule(w, v, Reading(w, v, up), file, node, steps)
  {
    hide Follows, FollowsAt;
    if steps != [] {
      if Follows(w, v, up, file, node, steps) {
        FollowsUnfolds(w, v, up, file, node, steps);
      }
      if Below(w, v, up, file, node, steps) {
        FollowsFolds(w, v, up, file, node, steps);
      }
      assert node.Union? && node.parts != [] ==> node.parts[0] in node.parts;
    }
  }

  /** Likewise one step below a declaration. */
  ghost predicate BelowAt(w: World, v: View, up: bool, key: Key, steps: seq<Step>)
    requires steps != [] && key in w.declarations
  {
    var (file, declaration) := w.declarations[key];
    match declaration
    case Enum => false
    case Alias(body) => Follows(w, v, up, file, body, steps)
    case Interface(members, bases) =>
      steps[0].Member? && (
        match FirstDenoting(v, members, steps[0].name)
        case Some(m) => BelowMember(w, v, up, file, m, steps)
        case None =>
          if up then exists b | b in bases :: BaseFollows(w, v, up, file, b, steps)
          else Silent(v, members, steps[0].name) && forall b | b in bases :: BaseFollows(w, v, up, file, b, steps)
      )
  }

  lemma FollowsAtUnfolds(w: World, v: View, up: bool, key: Key, steps: seq<Step>)
    requires steps != [] && key in w.declarations && FollowsAt(w, v, up, key, steps)
    ensures BelowAt(w, v, up, key, steps)
  {
    var k := HeightAt(w, v, up, key, steps);
    hide Follows, FollowsAt;
    var (file, declaration) := w.declarations[key];
    match declaration
    case Enum =>
    case Alias(body) => FollowsFrom(w, v, up, k - 1, file, body, steps);
    case Interface(members, bases) =>
      match FirstDenoting(v, members, steps[0].name)
      case Some(m) =>
        if |steps| > 1 {
          FollowsFrom(w, v, up, k - 1, file, m.annotation.value, steps[1..]);
        }
      case None =>
        BasesFollow(w, v, up, k, file, bases, steps);
        if up {
          var b :| b in bases && BaseDerived(w, v, up, k, file, b, steps);
          assert BaseFollows(w, v, up, file, b, steps);
        }
  }

  lemma BasesFollow(w: World, v: View, up: bool, k: nat, file: File, bases: seq<Option<string>>, steps: seq<Step>)
    requires k > 0
    ensures forall b | b in bases && BaseDerived(w, v, up, k, file, b, steps) :: BaseFollows(w, v, up, file, b, steps)
  {
    hide DerivedAt;
  }

  lemma FollowsAtFolds(w: World, v: View, up: bool, key: Key, steps: seq<Step>)
    requires steps != [] && key in w.declarations && BelowAt(w, v, up, key, steps)
    ensures FollowsAt(w, v, up, key, steps)
  {
    hide Follows, FollowsAt;
    var k: nat := 0;
    var (file, declaration) := w.declarations[key];
    match declaration {
      case Enum =>
      case Alias(body) => k := Height(w, v, up, file, body, steps);
      case Interface(members, bases) =>
        match FirstDenoting(v, members, steps[0].name) {
          case Some(m) =>
            if |steps| > 1 {
              k := Height(w, v, up, file, m.annotation.value, steps[1..]);
            }
          case None =>
            if up {
              var b :| b in bases && BaseFollows(w, v, up, file, b, steps);
              k := HeightAt(w, v, up, Resolve(w, file, b.value).value, steps);
              assert BaseDerived(w, v, up, k + 1, file, b, steps);
            } else {
              var height := CommonBaseHeight(w, v, up, file, bases, steps);
              k := height - 1;
            }
        }
    }
    FollowsAtFrom(w, v, up, k + 1, key, steps);
  }

  lemma ReadingRuleAt(w: World, v: View, up: bool, key: Key, steps: seq<Step>)
    requires key in w.declarations
    ensures DeclarationRule(w, v, Reading(w, v, up), key, steps)
  {
    hide Follows, FollowsAt;
    if steps != [] {
      if FollowsAt(w, v, up, key, steps) {
        FollowsAtUnfolds(w, v, up, key, steps);
      }
      if BelowAt(w, v, up, key, steps) {
        FollowsAtFolds(w, v, up, key, steps);
      }
      BasesRead(w, v, up, key, steps);
    }
  }

  /** The heritage list, read by the least or by the greatest reading. */
  lemma BasesRead(w: World, v: View, up: bool, key: Key, steps: seq<Step>)
    requires key in w.declarations
    ensures var (file, declaration) := w.declarations[key];
      declaration.Interface? ==> forall b | b in declaration.bases && BaseVisible(w, file, b) ::
        BaseHas(w, Reading(w, v, up), file, b, steps) == (BaseFollows(w, v, up, file, b, steps) == up)
  {
  }

  /** Every world has a least and a greatest reading. */
  lemma ReadingRespects(w: World, v: View, up: bool)
    ensures Respects(w, v, Reading(w, v, up))
  {
    var pr := Reading(w, v, up);
    forall file, node
      ensures pr.has(file, node, [])
    {
      assert Derived(w, v, true, 1, file, node, []);
      assert !Follows(w, v, false, file, node, []);
    }
    forall key
      ensures pr.declares(key, [])
    {
      assert DerivedAt(w, v, true, 1, key, []);
      assert !FollowsAt(w, v, false, key, []);
    }
    hide TypeRule, DeclarationRule;
    forall file, node, steps
      ensures TypeRule(w, v, pr, file, node, steps)
    {
      ReadingRule(w, v, up, file, node, steps);
    }
    forall key, steps | key in w.declarations
      ensures DeclarationRule(w, v, pr, key, steps)
    {
      ReadingRuleAt(w, v, up, key, steps);
    }
  }
}
