/** When a definite answer of the type walk is right under every reading of the declarations. */
module TypeSoundness {

  import opened Options
  import opened TypeLookup
  import opened TypePresence
  import opened TypeReach

  // ------------------------------------------------------------- what the walk relies on

  /** At this name, comparing written names finds the member that declares it, and finds none
      only where none can. */
  ghost predicate Exact(v: View, members: seq<Signature>, name: string) {
    match FirstWritten(members, name)
    case Some(p) => FirstDenoting(v, members, name) == Some(p)
    case None => Silent(v, members, name)
  }

  lemma {:induction false} WrittenExact(members: seq<Signature>, name: string)
    ensures Exact(Written, members, name)
  {
    if members != [] {
      WrittenExact(members[1..], name);
    }
  }

  /** Identifiers and call signatures only. */
  ghost predicate Plain(members: seq<Signature>) {
    forall m | m in members :: m.Call? || (m.Property? && m.name.denotes == Some(m.name.written))
  }

  lemma {:induction false} PlainExact(members: seq<Signature>, name: string)
    requires Plain(members)
    ensures Exact(Meant, members, name)
  {
    if members != [] {
      PlainExact(members[1..], name);
      assert members[0] in members;
    }
  }

  /** At the given names, every member list met under the node is exact and no `keyof` occurs;
      the names used as index are among them. Read as written, every node conforms. */
  ghost predicate Conforms(v: View, node: TypeNode, names: iset<string>) {
    v.Written? ||
    match node
    case Literal(members) => ListsConform(v, members, names) &&
      forall m | m in members :: SignatureConforms(v, m, names)
    case Parenthesized(inner) => Conforms(v, inner, names)
    case Operator(keyOf, inner) => !keyOf && Conforms(v, inner, names)
    case Intersection(parts) => forall t | t in parts :: Conforms(v, t, names)
    case Union(parts) => forall t | t in parts :: Conforms(v, t, names)
    case ArrayOf(element) => Conforms(v, element, names)
    case Indexed(target, key) => (key.Some? ==> key.value in names) && Conforms(v, target, names)
    case Reference(_, _, args) => forall t | t in args :: Conforms(v, t, names)
    case Opaque => true
  }

  ghost predicate ListsConform(v: View, members: seq<Signature>, names: iset<string>) {
    forall name | name in names :: Exact(v, members, name)
  }

  ghost predicate SignatureConforms(v: View, m: Signature, names: iset<string>) {
    m.Property? && m.annotation.Some? ==> Conforms(v, m.annotation.value, names)
  }

  ghost predicate MembersConform(v: View, members: seq<Signature>, names: iset<string>) {
    ListsConform(v, members, names) && forall m | m in members :: SignatureConforms(v, m, names)
  }

  ghost predicate DeclarationConforms(v: View, declaration: Declaration, names: iset<string>) {
    v.Written? ||
    match declaration
    case Enum => true
    case Alias(body) => Conforms(v, body, names)
    case Interface(members, _) => MembersConform(v, members, names)
  }

  ghost predicate AllConform(w: World, v: View, names: iset<string>, r: set<Key>) {
    forall key | key in r && key in w.declarations :: DeclarationConforms(v, w.declarations[key].1, names)
  }

  ghost predicate Asks(steps: seq<Step>, names: iset<string>) {
    forall i | 0 <= i < |steps| && steps[i].Member? :: steps[i].name in names
  }

  /** What a walk needs: the view of the walk itself, or names at which the declarations of `r` are
      exact. */
  ghost predicate Clear(w: World, v: View, steps: seq<Step>, names: iset<string>, r: set<Key>) {
    AllConform(w, v, names, r) && (v.Meant? ==> Asks(steps, names))
  }

  // ------------------------------------------------------------------------ soundness

  /** A definite answer is right; an unknown or exhausted one claims nothing. */
  ghost predicate Right(result: Option<Lookup>, present: bool) {
    result.Some? ==> (result.value == Found ==> present) && (result.value == Missing ==> !present)
  }

  ghost predicate AllRight(pr: Presence, file: File, parts: seq<TypeNode>, steps: seq<Step>, results: seq<Lookup>) {
    && |results| == |parts|
    && forall i | 0 <= i < |parts| :: Right(Some(results[i]), pr.has(file, parts[i], steps))
  }

  lemma CombineRight(pr: Presence, file: File, parts: seq<TypeNode>, steps: seq<Step>, results: seq<Lookup>)
    requires AllRight(pr, file, parts, steps, results)
    ensures Right(Some(Combine(results)), exists t | t in parts :: pr.has(file, t, steps))
  {
    if Found in results {
      var i :| 0 <= i < |results| && results[i] == Found;
      assert parts[i] in parts && pr.has(file, parts[i], steps);
    }
  }

  lemma AgreeRight(pr: Presence, file: File, parts: seq<TypeNode>, steps: seq<Step>, results: seq<Lookup>)
    requires AllRight(pr, file, parts, steps, results)
    ensures Agree(results) == Found ==> forall t | t in parts :: pr.has(file, t, steps)
    ensures Agree(results) == Missing ==> parts != [] && forall t | t in parts :: !pr.has(file, t, steps)
  {
    forall t | t in parts
      ensures Agree(results) == Found ==> pr.has(file, t, steps)
      ensures Agree(results) == Missing ==> !pr.has(file, t, steps)
    {
      var i :| 0 <= i < |parts| && parts[i] == t;
      assert results[i] in results;
    }
  }

  /** The list's answer at a name, from either view. */
  lemma ListExact(v: View, members: seq<Signature>, name: string, names: iset<string>)
    requires v.Written? || (MembersConform(v, members, names) && name in names)
    ensures Exact(v, members, name)
    ensures FirstWritten(members, name).None? ==> FirstDenoting(v, members, name).None?
  {
    if v.Written? {
      WrittenExact(members, name);
    }
  }

  lemma HeadsMeant(head: string)
    ensures IsPassthrough(head) <==> Wraps(head)
    ensures IsArrayName(head) <==> Lists(head)
  {
  }

  lemma {:induction false} TypeSoundIn(w: World, v: View, names: iset<string>, r: set<Key>, pr: Presence, fuel: nat,
                                       file: File, node: TypeNode, steps: seq<Step>, seen: Seen)
    requires Respects(w, v, pr) && Clear(w, v, steps, names, r) && Conforms(v, node, names)
    requires Closed(w, r) && Refs(w, file, node) <= r
    ensures Right(LookupType(w, fuel, file, node, steps, seen).result, pr.has(file, node, steps))
    decreases fuel, 1, 0
  {
    hide FirstWritten, FirstDenoting, Silent, Combine, Agree, MemberRule, SignatureConforms;
    hide IsPassthrough, IsArrayName, Wraps, Lists;
    hide Closed, AllConform;
    if fuel > 0 && steps != [] {
      assert TypeRule(w, v, pr, file, node, steps);
      match node
      case Literal(members) =>
        if steps[0].Member? {
          ListExact(v, members, steps[0].name, names);
          match FirstWritten(members, steps[0].name)
          case Some(p) =>
            PropertySoundIn(w, v, names, r, pr, fuel, file, p, steps, seen, pr.has(file, node, steps));
          case None =>
        }
      case Parenthesized(inner) => TypeSoundIn(w, v, names, r, pr, fuel - 1, file, inner, steps, seen);
      case Operator(_, inner) => TypeSoundIn(w, v, names, r, pr, fuel - 1, file, inner, steps, seen);
      case Intersection(parts) =>
        PartsSoundIn(w, v, names, r, pr, fuel - 1, file, parts, steps, seen);
        var all := LookupParts(w, fuel - 1, file, parts, steps, seen).results;
        if all.Some? {
          CombineRight(pr, file, parts, steps, all.value);
        }
      case Union(parts) =>
        PartsSoundIn(w, v, names, r, pr, fuel - 1, file, parts, steps, seen);
        var all := LookupParts(w, fuel - 1, file, parts, steps, seen).results;
        if all.Some? {
          AgreeRight(pr, file, parts, steps, all.value);
        }
      case ArrayOf(element) =>
        if steps[0].Element? {
          TypeSoundIn(w, v, names, r, pr, fuel - 1, file, element, steps[1..], seen);
        }
      case Indexed(target, key) =>
        if key.Some? {
          TypeSoundIn(w, v, names, r, pr, fuel - 1, file, target, [Member(key.value)] + steps, seen);
        }
      case Reference(head, qualified, args) =>
        HeadsMeant(head);
        if IsPassthrough(head) && args != [] {
          TypeSoundIn(w, v, names, r, pr, fuel - 1, file, args[0], steps, seen);
        } else if IsArrayName(head) && args != [] {
          if steps[0].Element? {
            TypeSoundIn(w, v, names, r, pr, fuel - 1, file, args[0], steps[1..], seen);
          }
        } else if !qualified && Resolve(w, file, head).Some? {
          DeclarationSoundIn(w, v, names, r, pr, fuel - 1, Resolve(w, file, head).value, steps, seen);
        }
      case Opaque =>
    }
  }

  /** The property found by its written name, if it is the member that declares the name. */
  lemma {:induction false} PropertySoundIn(w: World, v: View, names: iset<string>, r: set<Key>, pr: Presence, fuel: nat,
                                           file: File, p: Signature, steps: seq<Step>, seen: Seen, value: bool)
    requires Respects(w, v, pr) && Clear(w, v, steps, names, r) && (v.Written? || SignatureConforms(v, p, names))
    requires Closed(w, r) && SignatureRefs(w, file, p) <= r
    requires fuel > 0 && steps != [] && p.Property? && MemberRule(pr, file, p, steps, value)
    ensures Right(IntoProperty(w, fuel, file, p, steps, seen).result, value)
    decreases fuel, 0, 0
  {
    if |steps| > 1 && p.annotation.Some? {
      TypeSoundIn(w, v, names, r, pr, fuel - 1, file, p.annotation.value, steps[1..], seen);
    }
  }

  lemma {:induction false} PartsSoundIn(w: World, v: View, names: iset<string>, r: set<Key>, pr: Presence, fuel: nat,
                                        file: File, parts: seq<TypeNode>, steps: seq<Step>, seen: Seen)
    requires Respects(w, v, pr) && Clear(w, v, steps, names, r) && forall t | t in parts :: Conforms(v, t, names)
    requires Closed(w, r) && PartRefs(w, file, parts) <= r
    ensures var all := LookupParts(w, fuel, file, parts, steps, seen).results;
            all.Some? ==> AllRight(pr, file, parts, steps, all.value)
    decreases fuel, 2, |parts|
  {
    if parts != [] {
      TypeSoundIn(w, v, names, r, pr, fuel, file, parts[0], steps, seen);
      PartsSoundIn(w, v, names, r, pr, fuel, file, parts[1..], steps,
        LookupType(w, fuel, file, parts[0], steps, seen).seen);
    }
  }

  lemma {:induction false} DeclarationSoundIn(w: World, v: View, names: iset<string>, r: set<Key>, pr: Presence,
                                              fuel: nat, key: Key, steps: seq<Step>, seen: Seen)
    requires Respects(w, v, pr) && Clear(w, v, steps, names, r) && key in w.declarations && Closed(w, r) && key in r
    ensures Right(LookupDeclaration(w, fuel, key, steps, seen).result, pr.declares(key, steps))
    decreases fuel, 1, 0
  {
    hide FirstWritten, FirstDenoting, Silent;
    if fuel > 0 && steps != [] && (key, |steps|) !in seen {
      assert DeclarationRule(w, v, pr, key, steps);
      var (file, declaration) := w.declarations[key];
      var marked := seen + {(key, |steps|)};
      match declaration
      case Enum =>
      case Alias(body) => TypeSoundIn(w, v, names, r, pr, fuel - 1, file, body, steps, marked);
      case Interface(members, bases) =>
        if steps[0].Member? {
          ListExact(v, members, steps[0].name, names);
          match FirstWritten(members, steps[0].name)
          case Some(p) =>
            PropertySoundIn(w, v, names, r, pr, fuel, file, p, steps, marked, pr.declares(key, steps));
          case None =>
            BasesSoundIn(w, v, names, r, pr, fuel - 1, file, bases, steps, marked);
            var all := LookupBases(w, fuel - 1, file, bases, steps, marked).results;
            if all.Some? {
              BasesCombine(w, pr, file, bases, steps, all.value);
            }
        }
    }
  }

  lemma BasesCombine(w: World, pr: Presence, file: File, bases: seq<Option<string>>, steps: seq<Step>,
                     results: seq<Lookup>)
    requires BasesRight(w, pr, file, bases, steps, results)
    ensures Combine(results) == Found ==> exists b | b in bases :: BaseHas(w, pr, file, b, steps)
    ensures Combine(results) == Missing ==>
      forall b | b in bases :: BaseVisible(w, file, b) && !BaseHas(w, pr, file, b, steps)
  {
    hide BaseHas, BaseVisible;
    if Found in results {
      var i :| 0 <= i < |results| && results[i] == Found;
      assert bases[i] in bases && BaseRight(w, pr, file, bases[i], steps, results[i]);
    }
    forall b | b in bases
      ensures Combine(results) == Missing ==> BaseVisible(w, file, b) && !BaseHas(w, pr, file, b, steps)
    {
      var i :| 0 <= i < |bases| && bases[i] == b;
      assert results[i] in results && BaseRight(w, pr, file, bases[i], steps, results[i]);
    }
  }

  ghost predicate BaseRight(w: World, pr: Presence, file: File, base: Option<string>, steps: seq<Step>, x: Lookup) {
    && (x == Found ==> BaseHas(w, pr, file, base, steps))
    && (x == Missing ==> BaseVisible(w, file, base) && !BaseHas(w, pr, file, base, steps))
  }

  ghost predicate BasesRight(w: World, pr: Presence, file: File, bases: seq<Option<string>>, steps: seq<Step>,
                             results: seq<Lookup>) {
    && |results| == |bases|
    && forall i | 0 <= i < |bases| :: BaseRight(w, pr, file, bases[i], steps, results[i])
  }

  lemma {:induction false} BasesSoundIn(w: World, v: View, names: iset<string>, r: set<Key>, pr: Presence, fuel: nat,
                                        file: File, bases: seq<Option<string>>, steps: seq<Step>, seen: Seen)
    requires Respects(w, v, pr) && Clear(w, v, steps, names, r)
    requires Closed(w, r) && HeritageRefs(w, file, bases) <= r
    ensures var all := LookupBases(w, fuel, file, bases, steps, seen).results;
            all.Some? ==> BasesRight(w, pr, file, bases, steps, all.value)
    decreases fuel, 2, |bases|
  {
    if bases != [] {
      if BaseVisible(w, file, bases[0]) {
        DeclarationSoundIn(w, v, names, r, pr, fuel, Resolve(w, file, bases[0].value).value, steps, seen);
      }
      BasesSoundIn(w, v, names, r, pr, fuel, file, bases[1..], steps,
        LookupBase(w, fuel, file, bases[0], steps, seen).seen);
    }
  }

  /** A definite answer is right under every reading, if the declarations the node leads to are exact
      at the names asked for. */
  lemma TypeSound(w: World, v: View, names: iset<string>, pr: Presence, fuel: nat, file: File, node: TypeNode,
                  steps: seq<Step>, seen: Seen)
    requires Respects(w, v, pr) && Conforms(v, node, names)
    requires Clear(w, v, steps, names, Reach(w, Refs(w, file, node)))
    ensures Right(LookupType(w, fuel, file, node, steps, seen).result, pr.has(file, node, steps))
  {
    ReachClosed(w, Refs(w, file, node));
    hide *;
    TypeSoundIn(w, v, names, Reach(w, Refs(w, file, node)), pr, fuel, file, node, steps, seen);
  }

  /** The same from a declaration. */
  lemma DeclarationSound(w: World, v: View, names: iset<string>, pr: Presence, fuel: nat, key: Key, steps: seq<Step>,
                         seen: Seen)
    requires Respects(w, v, pr) && key in w.declarations && Clear(w, v, steps, names, Reach(w, {key}))
    ensures Right(LookupDeclaration(w, fuel, key, steps, seen).result, pr.declares(key, steps))
  {
    ReachClosed(w, {key});
    hide *;
    DeclarationSoundIn(w, v, names, Reach(w, {key}), pr, fuel, key, steps, seen);
  }

  /** Whatever the types, what was visited before and how deep the stack, two lookups of one
      path never contradict each other: as written, some reading makes both right. */
  lemma NeverContradicts(w: World, file: File, node: TypeNode, steps: seq<Step>, fuel: nat, more: nat,
                         seen: Seen, other: Seen)
    requires LookupType(w, fuel, file, node, steps, seen).result == Some(Found)
    ensures LookupType(w, more, file, node, steps, other).result != Some(Missing)
  {
    hide LookupType, Respects, Reading;
    var names: iset<string> := iset{};
    ReadingRespects(w, Written, true);
    TypeSound(w, Written, names, Reading(w, Written, true), fuel, file, node, steps, seen);
    TypeSound(w, Written, names, Reading(w, Written, true), more, file, node, steps, other);
  }

  // ------------------------------------------------ exactly when one list answers rightly

  /** The answer is right whatever the free presence is. */
  ghost predicate AlwaysRight(w: World, file: File, node: TypeNode, steps: seq<Step>, result: Option<Lookup>) {
    forall pr | Respects(w, Meant, pr) :: Right(result, pr.has(file, node, steps))
  }

  /** What comparing written names needs to be right about one name. */
  ghost predicate Told(members: seq<Signature>, name: string) {
    if FirstWritten(members, name).Some? then FirstDenoting(Meant, members, name).Some?
    else Silent(Meant, members, name)
  }

  /** A literal's answer about a name is right under every reading if and only if a property
      written like it comes with a member that denotes it, and without one no member can. */
  lemma LiteralRightIff(w: World, fuel: nat, file: File, members: seq<Signature>, name: string, seen: Seen)
    requires fuel > 0
    ensures var answer := LookupType(w, fuel, file, Literal(members), [Member(name)], seen).result;
      AlwaysRight(w, file, Literal(members), [Member(name)], answer) <==> Told(members, name)
  {
    hide Respects, Silent, Derived;
    ListAnswer(w, fuel, file, members, name, seen);
    hide LookupType;
    var node, steps := Literal(members), [Member(name)];
    var answer := LookupType(w, fuel, file, node, steps, seen).result;
    forall pr | Respects(w, Meant, pr) && Told(members, name)
      ensures Right(answer, pr.has(file, node, steps))
    {
      ListRead(w, pr, file, members, name);
    }
    if AlwaysRight(w, file, node, steps, answer) {
      ReadingRespects(w, Meant, true);
      ReadingRespects(w, Meant, false);
      ListExtremes(w, file, members, name);
    }
  }

  lemma ListAnswer(w: World, fuel: nat, file: File, members: seq<Signature>, name: string, seen: Seen)
    requires fuel > 0
    ensures LookupType(w, fuel, file, Literal(members), [Member(name)], seen).result
         == Some(if FirstWritten(members, name).Some? then Found else Missing)
  {
    hide FirstWritten;
  }

  /** Every reading of a list: what a member denotes is present, what none can denote is absent. */
  lemma ListRead(w: World, pr: Presence, file: File, members: seq<Signature>, name: string)
    requires Respects(w, Meant, pr)
    ensures FirstDenoting(Meant, members, name).Some? ==> pr.has(file, Literal(members), [Member(name)])
    ensures Silent(Meant, members, name) ==> !pr.has(file, Literal(members), [Member(name)])
  {
    assert TypeRule(w, Meant, pr, file, Literal(members), [Member(name)]);
    hide TypeRule;
    if Silent(Meant, members, name) {
      SilentDenotesNothing(Meant, members, name);
    }
    ListReadRule(w, pr, file, members, name);
  }

  lemma SilentDenotesNothing(v: View, members: seq<Signature>, name: string)
    requires Silent(v, members, name)
    ensures FirstDenoting(v, members, name).None?
  {
  }

  lemma ListReadRule(w: World, pr: Presence, file: File, members: seq<Signature>, name: string)
    requires TypeRule(w, Meant, pr, file, Literal(members), [Member(name)])
    ensures FirstDenoting(Meant, members, name).Some? ==> pr.has(file, Literal(members), [Member(name)])
    ensures FirstDenoting(Meant, members, name).None? && Silent(Meant, members, name)
      ==> !pr.has(file, Literal(members), [Member(name)])
  {
    hide Silent, FirstDenoting;
  }

  /** The least reading has no more than what a member denotes, the greatest lacks no more than
      what none can. */
  lemma ListExtremes(w: World, file: File, members: seq<Signature>, name: string)
    ensures FirstDenoting(Meant, members, name).None? ==>
      !Reading(w, Meant, true).has(file, Literal(members), [Member(name)])
    ensures !Silent(Meant, members, name) ==> Reading(w, Meant, false).has(file, Literal(members), [Member(name)])
  {
    hide Silent, FirstDenoting;
    forall k: nat | FirstDenoting(Meant, members, name).None?
      ensures !Derived(w, Meant, true, k, file, Literal(members), [Member(name)])
    {
    }
    forall k: nat | !Silent(Meant, members, name)
      ensures !Derived(w, Meant, false, k, file, Literal(members), [Member(name)])
    {
    }
  }

  /** Every name a member denotes is told, and is the written name of a property. */
  ghost predicate DenotesWritten(members: seq<Signature>) {
    forall m | m in members ::
      !m.Index? && (m.Property? || m.Method? ==>
        m.name.denotes.Some? && FirstWritten(members, m.name.denotes.value).Some?)
  }

  /** Every written name of a property is the name of a member. */
  ghost predicate WrittenDenotes(members: seq<Signature>) {
    forall m | m in members && m.Property? :: FirstDenoting(Meant, members, m.name.written).Some?
  }

  /** A list answers rightly about every name if and only if its members' names are told and,
      as written and as meant, the same. */
  lemma ListRightForAll(members: seq<Signature>)
    ensures (forall name :: Told(members, name)) <==> DenotesWritten(members) && WrittenDenotes(members)
  {
    hide FirstWritten, FirstDenoting;
    if forall name :: Told(members, name) {
      var unused := FreshName(members);
      assert Told(members, unused);
      forall m | m in members
        ensures !m.Index? && (m.Property? || m.Method? ==>
            m.name.denotes.Some? && FirstWritten(members, m.name.denotes.value).Some?)
        ensures m.Property? ==> FirstDenoting(Meant, members, m.name.written).Some?
      {
        assert !MayDeclare(Meant, m, unused);
        if (m.Property? || m.Method?) && m.name.denotes.Some? {
          assert Told(members, m.name.denotes.value) && MayDeclare(Meant, m, m.name.denotes.value);
        }
        if m.Property? {
          assert Told(members, m.name.written);
        }
      }
    }
    if DenotesWritten(members) && WrittenDenotes(members) {
      forall name
        ensures Told(members, name)
      {
        var p := FirstWritten(members, name);
        if p.Some? {
          assert p.value in members;
        }
      }
    }
  }

  /** No list of members writes every name. */
  lemma {:induction false} FreshName(members: seq<Signature>) returns (name: string)
    ensures FirstWritten(members, name).None?
  {
    var longest := LongestName(members);
    name := seq(longest + 1, _ => 'x');
    assert |name| == longest + 1;
  }

  lemma {:induction false} LongestName(members: seq<Signature>) returns (n: nat)
    ensures forall m | m in members && m.Property? :: |m.name.written| <= n
  {
    if members == [] {
      n := 0;
    } else {
      n := LongestName(members[1..]);
      if members[0].Property? && |members[0].name.written| > n {
        n := |members[0].name.written|;
      }
      assert forall m | m in members :: m == members[0] || m in members[1..];
    }
  }

  /** An interface that answers missing, its bases having answered rightly, is right under every
      reading if and only if none of its own members can declare the name. */
  lemma InterfaceMissingIff(w: World, fuel: nat, key: Key, name: string, seen: Seen)
    requires key in w.declarations && w.declarations[key].1.Interface?
    requires LookupDeclaration(w, fuel, key, [Member(name)], seen).result == Some(Missing)
    requires forall pr | Respects(w, Meant, pr) :: OwnBasesRight(w, pr, fuel, key, [Member(name)], seen)
    ensures (forall pr | Respects(w, Meant, pr) :: !pr.declares(key, [Member(name)]))
       <==> Silent(Meant, w.declarations[key].1.members, name)
  {
    hide Respects, LookupDeclaration, OwnBasesRight;
    var (file, declaration) := w.declarations[key];
    forall pr | Respects(w, Meant, pr) && Silent(Meant, declaration.members, name)
      ensures !pr.declares(key, [Member(name)])
    {
      SilentDenotesNothing(Meant, declaration.members, name);
      MissingBases(w, pr, fuel, key, [Member(name)], seen);
      InterfaceRead(w, pr, key, name);
    }
    if !Silent(Meant, declaration.members, name) {
      ReadingRespects(w, Meant, false);
      InterfaceGreatest(w, key, name);
    }
  }

  /** The answers the bases of an interface give when it is walked. */
  ghost predicate OwnBasesRight(w: World, pr: Presence, fuel: nat, key: Key, steps: seq<Step>, seen: Seen)
    requires key in w.declarations && w.declarations[key].1.Interface?
  {
    var (file, declaration) := w.declarations[key];
    fuel > 0 ==>
      var results := LookupBases(w, fuel - 1, file, declaration.bases, steps, seen + {(key, |steps|)}).results;
      results.Some? ==> BasesRight(w, pr, file, declaration.bases, steps, results.value)
  }

  lemma MissingBases(w: World, pr: Presence, fuel: nat, key: Key, steps: seq<Step>, seen: Seen)
    requires key in w.declarations && w.declarations[key].1.Interface? && |steps| == 1
    requires LookupDeclaration(w, fuel, key, steps, seen).result == Some(Missing)
    requires OwnBasesRight(w, pr, fuel, key, steps, seen)
    ensures BasesMissing(w, pr, key, steps)
  {
    hide BaseVisible, BaseHas;
    var (file, declaration) := w.declarations[key];
    var results := LookupBases(w, fuel - 1, file, declaration.bases, steps, seen + {(key, |steps|)}).results;
    BasesCombine(w, pr, file, declaration.bases, steps, results.value);
  }

  ghost predicate BasesMissing(w: World, pr: Presence, key: Key, steps: seq<Step>)
    requires key in w.declarations && w.declarations[key].1.Interface?
  {
    var (file, declaration) := w.declarations[key];
    forall b | b in declaration.bases :: BaseVisible(w, file, b) && !BaseHas(w, pr, file, b, steps)
  }

  lemma InterfaceRead(w: World, pr: Presence, key: Key, name: string)
    requires key in w.declarations && w.declarations[key].1.Interface?
    requires Respects(w, Meant, pr) && BasesMissing(w, pr, key, [Member(name)])
    requires Silent(Meant, w.declarations[key].1.members, name)
    requires FirstDenoting(Meant, w.declarations[key].1.members, name).None?
    ensures !pr.declares(key, [Member(name)])
  {
    assert DeclarationRule(w, Meant, pr, key, [Member(name)]);
    hide Silent, FirstDenoting, BaseHas, BaseVisible;
  }

  lemma InterfaceGreatest(w: World, key: Key, name: string)
    requires key in w.declarations && w.declarations[key].1.Interface?
    requires !Silent(Meant, w.declarations[key].1.members, name)
    ensures Reading(w, Meant, false).declares(key, [Member(name)])
  {
    hide Silent, FirstDenoting;
    forall k: nat
      ensures !DerivedAt(w, Meant, false, k, key, [Member(name)])
    {
    }
  }

  /** A `keyof` type is walked as its operand, whose members say nothing about the members of
      the type of its keys: the answer is right under every reading if and only if it is open. */
  lemma KeyOfRightIff(w: World, fuel: nat, file: File, inner: TypeNode, steps: seq<Step>, seen: Seen)
    requires fuel > 0 && steps != []
    ensures var answer := LookupType(w, fuel - 1, file, inner, steps, seen).result;
      && LookupType(w, fuel, file, Operator(true, inner), steps, seen).result == answer
      && (AlwaysRight(w, file, Operator(true, inner), steps, answer) <==> answer in {None, Some(Unknown)})
  {
    hide Respects;
    var node := Operator(true, inner);
    var answer := LookupType(w, fuel - 1, file, inner, steps, seen).result;
    hide LookupType;
    assert LookupType(w, fuel, file, node, steps, seen).result == answer by {
      KeyOfWalk(w, fuel, file, inner, steps, seen);
    }
    ReadingRespects(w, Meant, true);
    ReadingRespects(w, Meant, false);
    assert forall up, k: nat :: !Derived(w, Meant, up, k, file, node, steps);
    assert !Reading(w, Meant, true).has(file, node, steps) && Reading(w, Meant, false).has(file, node, steps);
    if answer.Some? && answer.value != Unknown {
      assert answer.value == Found || answer.value == Missing;
    }
  }

  lemma KeyOfWalk(w: World, fuel: nat, file: File, inner: TypeNode, steps: seq<Step>, seen: Seen)
    requires fuel > 0 && steps != []
    ensures LookupType(w, fuel, file, Operator(true, inner), steps, seen) ==
        LookupType(w, fuel - 1, file, inner, steps, seen)
  {
  }

  // ----------------------------------------------------------------- wrong answers

  /** A property written with quotes: asked for by the name it denotes, it is called missing,
      and under every reading it is there. */
  lemma QuotedNameMissing(w: World, fuel: nat, file: File, seen: Seen, pr: Presence)
    requires fuel > 0 && Respects(w, Meant, pr)
    ensures var members := [Property(MemberName("'max-size'", Some("max-size")), None)];
      && LookupType(w, fuel, file, Literal(members), [Member("max-size")], seen).result == Some(Missing)
      && pr.has(file, Literal(members), [Member("max-size")])
  {
    var members := [Property(MemberName("'max-size'", Some("max-size")), None)];
    assert "'max-size'"[0] != "max-size"[0];
    assert FirstDenoting(Meant, members, "max-size") == Some(members[0]);
    assert members[1..] == [];
    ListRead(w, pr, file, members, "max-size");
  }

  /** A method is not a property signature: its name is called missing, and it is there. */
  lemma MethodMissing(w: World, fuel: nat, file: File, name: string, seen: Seen, pr: Presence)
    requires fuel > 0 && Respects(w, Meant, pr)
    ensures var members := [Method(MemberName(name, Some(name)))];
      && LookupType(w, fuel, file, Literal(members), [Member(name)], seen).result == Some(Missing)
      && pr.has(file, Literal(members), [Member(name)])
  {
    var members := [Method(MemberName(name, Some(name)))];
    assert members[1..] == [];
    assert FirstDenoting(Meant, members, name) == Some(members[0]);
    ListRead(w, pr, file, members, name);
  }

  /** `keyof {}`: every name is called missing, and a reading of the type of its keys has it. */
  lemma KeyOfMissing(w: World, fuel: nat, file: File, name: string, seen: Seen)
    requires fuel > 1
    ensures var node := Operator(true, Literal([]));
      && LookupType(w, fuel, file, node, [Member(name)], seen).result == Some(Missing)
      && Respects(w, Meant, Reading(w, Meant, false))
      && Reading(w, Meant, false).has(file, node, [Member(name)])
  {
    ReadingRespects(w, Meant, false);
    hide Respects;
    assert forall k: nat :: !Derived(w, Meant, false, k, file, Operator(true, Literal([])), [Member(name)]);
  }
}
