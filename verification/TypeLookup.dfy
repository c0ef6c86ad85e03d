/** The schema-path check of dsh/scripts/gen-config-catalog.ts: a walk of a key path
    against a declared type, answering found, missing or unknown. */
module TypeLookup {

  import opened Options

  /** One step of a key path: a named member, or an array-element hop. */
  datatype Step = Member(name: string) | Element

  datatype Lookup = Found | Missing | Unknown

  /** The type-syntax shapes the walk distinguishes; `Opaque` is every other node. */
  datatype TypeNode =
    | Literal(members: seq<Signature>)
    | Parenthesized(inner: TypeNode)
    | Operator(keyOf: bool, inner: TypeNode)
    | Intersection(parts: seq<TypeNode>)
    | Union(parts: seq<TypeNode>)
    | ArrayOf(element: TypeNode)
    | Indexed(target: TypeNode, key: Option<string>)
    | Reference(head: string, qualified: bool, args: seq<TypeNode>)
    | Opaque

  /** A member's name as it is written, quotes and brackets included, and the name it
      denotes; a computed name may denote one that the declaration does not tell. */
  datatype MemberName = MemberName(written: string, denotes: Option<string>)

  /** `Method` stands for accessors too, `Call` for construct signatures. */
  datatype Signature =
    | Property(name: MemberName, annotation: Option<TypeNode>)
    | Method(name: MemberName)
    | Index
    | Call

  /** A base that is not a plain identifier is `None`. */
  datatype Declaration =
    | Interface(members: seq<Signature>, bases: seq<Option<string>>)
    | Alias(body: TypeNode)
    | Enum

  type File = nat
  type Key = nat

  /** Declarations by identity (file and position), and what each name resolves to in
      each file; a name that is absent is out of reach. */
  datatype World = World(declarations: map<Key, (File, Declaration)>, names: map<(File, string), Key>)

  function Resolve(w: World, file: File, name: string): (r: Option<Key>)
    ensures r.Some? ==> (file, name) in w.names && r.value == w.names[(file, name)] && r.value in w.declarations
    ensures r.None? ==> forall key | key in w.declarations :: (file, name) !in w.names || w.names[(file, name)] != key
  {
    if (file, name) in w.names && w.names[(file, name)] in w.declarations then Some(w.names[(file, name)]) else None
  }

  predicate IsPassthrough(name: string) {
    name == "Partial" || name == "Required" || name == "Readonly" || name == "NonNullable"
  }

  predicate IsArrayName(name: string) {
    name == "Array" || name == "ReadonlyArray"
  }

  /** The first property signature whose name is written like the one asked for. */
  function FirstWritten(members: seq<Signature>, name: string): (r: Option<Signature>)
    ensures r.Some? ==> r.value in members && r.value.Property? && r.value.name.written == name
    ensures r.None? ==> forall m | m in members && m.Property? :: m.name.written != name
  {
    if members == [] then None
    else if members[0].Property? && members[0].name.written == name then Some(members[0])
    else FirstWritten(members[1..], name)
  }

  /** One found decides; an unknown leaves the answer open; otherwise the member is missing. */
  function Combine(results: seq<Lookup>): (r: Lookup)
    ensures r == Found <==> Found in results
    ensures r == Missing <==> forall x | x in results :: x == Missing
  {
    if Found in results then Found
    else if Unknown in results then Unknown
    else
      NeitherFoundNorUnknown(results);
      Missing
  }

  lemma NeitherFoundNorUnknown(results: seq<Lookup>)
    requires Found !in results && Unknown !in results
    ensures forall x | x in results :: x == Missing
  {
    forall x | x in results
      ensures x == Missing
    {
      match x
      case Found =>
      case Missing =>
      case Unknown =>
    }
  }

  /** A union answers only what all its branches answer. */
  function Agree(results: seq<Lookup>): Lookup {
    if forall x | x in results :: x == Found then Found
    else if forall x | x in results :: x == Missing then Missing
    else Unknown
  }

  // ---------------------------------------------------------------------- the walk

  /** A declaration visited with that many steps left. */
  type Seen = set<(Key, nat)>

  /** The answer with the `seen` set it leaves behind; `None` is call-stack exhaustion. */
  datatype Answer = Answer(result: Option<Lookup>, seen: Seen)

  datatype Answers = Answers(results: Option<seq<Lookup>>, seen: Seen)

  /** `lookupPath` on a type node. `fuel` is the number of stack frames still available. */
  function LookupType(w: World, fuel: nat, file: File, node: TypeNode, steps: seq<Step>, seen: Seen): Answer
    decreases fuel, 1, 0
  {
    if fuel == 0 then Answer(None, seen)
    else if steps == [] then Answer(Some(Found), seen)
    else
      match node
      case Literal(members) =>
        if steps[0].Element? then Answer(Some(Unknown), seen)
        else (
          match FirstWritten(members, steps[0].name)
          case None => Answer(Some(Missing), seen)
          case Some(p) => IntoProperty(w, fuel, file, p, steps, seen)
        )
      case Parenthesized(inner) => LookupType(w, fuel - 1, file, inner, steps, seen)
      case Operator(_, inner) => LookupType(w, fuel - 1, file, inner, steps, seen)
      case Intersection(parts) =>
        var all := LookupParts(w, fuel - 1, file, parts, steps, seen);
        Answer(if all.results.None? then None else Some(Combine(all.results.value)), all.seen)
      case Union(parts) =>
        var all := LookupParts(w, fuel - 1, file, parts, steps, seen);
        Answer(if all.results.None? then None else Some(Agree(all.results.value)), all.seen)
      case ArrayOf(element) =>
        if steps[0].Element? then LookupType(w, fuel - 1, file, element, steps[1..], seen)
        else Answer(Some(Unknown), seen)
      case Indexed(target, key) =>
        if key.Some? then LookupType(w, fuel - 1, file, target, [Member(key.value)] + steps, seen)
        else Answer(Some(Unknown), seen)
      case Reference(head, qualified, args) =>
        if IsPassthrough(head) && args != [] then LookupType(w, fuel - 1, file, args[0], steps, seen)
        else if IsArrayName(head) && args != [] then
          if steps[0].Element? then LookupType(w, fuel - 1, file, args[0], steps[1..], seen)
          else Answer(Some(Unknown), seen)
        else if qualified then Answer(Some(Unknown), seen)
        else (
          match Resolve(w, file, head)
          case None => Answer(Some(Unknown), seen)
          case Some(key) => LookupDeclaration(w, fuel - 1, key, steps, seen)
        )
      case Opaque => Answer(Some(Unknown), seen)
  }

  /** A matched property: found at the last step, else on into its annotation. */
  function IntoProperty(w: World, fuel: nat, file: File, p: Signature, steps: seq<Step>, seen: Seen): Answer
    requires fuel > 0 && steps != [] && p.Property?
    decreases fuel, 0, 0
  {
    if |steps| == 1 then Answer(Some(Found), seen)
    else if p.annotation.None? then Answer(Some(Unknown), seen)
    else LookupType(w, fuel - 1, file, p.annotation.value, steps[1..], seen)
  }

  /** The walk over each part of a compound type, in order. */
  function LookupParts(w: World, fuel: nat, file: File, parts: seq<TypeNode>, steps: seq<Step>, seen: Seen): Answers
    decreases fuel, 2, |parts|
  {
    if parts == [] then Answers(Some([]), seen)
    else
      var first := LookupType(w, fuel, file, parts[0], steps, seen);
      if first.result.None? then Answers(None, first.seen)
      else
        var rest := LookupParts(w, fuel, file, parts[1..], steps, first.seen);
        Answers(if rest.results.None? then None else Some([first.result.value] + rest.results.value), rest.seen)
  }

  /** `lookupPath` on a named declaration, behind the recursion guard. */
  function LookupDeclaration(w: World, fuel: nat, key: Key, steps: seq<Step>, seen: Seen): Answer
    requires key in w.declarations
    decreases fuel, 1, 0
  {
    if fuel == 0 then Answer(None, seen)
    else if steps == [] then Answer(Some(Found), seen)
    else
      var (file, declaration) := w.declarations[key];
      match declaration
      case Enum => Answer(Some(Unknown), seen)
      case Alias(body) =>
        if (key, |steps|) in seen then Answer(Some(Unknown), seen)
        else LookupType(w, fuel - 1, file, body, steps, seen + {(key, |steps|)})
      case Interface(members, bases) =>
        if (key, |steps|) in seen then Answer(Some(Unknown), seen)
        else
          var marked := seen + {(key, |steps|)};
          if steps[0].Element? then Answer(Some(Unknown), marked)
          else (
            match FirstWritten(members, steps[0].name)
            case Some(p) => IntoProperty(w, fuel, file, p, steps, marked)
            case None =>
              var all := LookupBases(w, fuel - 1, file, bases, steps, marked);
              Answer(if all.results.None? then None else Some(Combine(all.results.value)), all.seen)
          )
  }

  function LookupBases(w: World, fuel: nat, file: File, bases: seq<Option<string>>, steps: seq<Step>,
                       seen: Seen): Answers
    decreases fuel, 2, |bases|
  {
    if bases == [] then Answers(Some([]), seen)
    else
      var first := LookupBase(w, fuel, file, bases[0], steps, seen);
      if first.result.None? then Answers(None, first.seen)
      else
        var rest := LookupBases(w, fuel, file, bases[1..], steps, first.seen);
        Answers(if rest.results.None? then None else Some([first.result.value] + rest.results.value), rest.seen)
  }

  function LookupBase(w: World, fuel: nat, file: File, base: Option<string>, steps: seq<Step>, seen: Seen): Answer
    decreases fuel, 2, 0
  {
    if base.None? then Answer(Some(Unknown), seen)
    else
      match Resolve(w, file, base.value)
      case None => Answer(Some(Unknown), seen)
      case Some(key) => LookupDeclaration(w, fuel, key, steps, seen)
  }
}
