/** The Project Reference traversal of dsh/scripts/project-reference-faces.ts, over
    normalised absolute POSIX paths and configs that are already read and resolved. */
module ReferenceFaces {

  import opened Options
  import opened Digraph
  import Sorting

  datatype Face = Host | Client

  /** A reference as written, and the config path it resolves to. */
  datatype Reference = Reference(text: string, target: string)

  /** `parent` is the resolved local `extends` target, if there is one. */
  datatype Config = Config(parent: Option<string>, references: seq<Reference>)

  /** `configs` holds every config file that exists, `packages` the directories of the manifests. */
  datatype Workspace = Workspace(root: string, configs: map<string, Config>, packages: seq<string>)

  /** A reference edge that enters the wrong leaf of a split project. */
  datatype Violation = Violation(config: string, reference: Reference, splitRoot: string, face: Option<Face>)

  // ------------------------------------------------------------------------------ paths

  predicate StartsWith(s: string, prefix: string) {
    |prefix| <= |s| && s[..|prefix|] == prefix
  }

  function Basename(path: string): string
    decreases |path|
  {
    if path == "" || path[|path| - 1] == '/' then ""
    else Basename(path[..|path| - 1]) + [path[|path| - 1]]
  }

  function Leaf(dir: string, face: Face): string {
    dir + (match face case Host => "/tsconfig.host.json" case Client => "/tsconfig.client.json")
  }

  /** `relative(root, target)` does not leave `root`. */
  predicate Contains(root: string, target: string) {
    target == root || StartsWith(target, root + "/")
  }

  /** The packages that declare both face configs. */
  function Splits(w: Workspace, packages: seq<string>): seq<string> {
    if packages == [] then []
    else
      var n := |packages| - 1;
      Splits(w, packages[..n])
      + if Leaf(packages[n], Host) in w.configs && Leaf(packages[n], Client) in w.configs then [packages[n]] else []
  }

  function ByLength(left: string, right: string): int {
    |right| - |left|
  }

  function SplitProjectRoots(w: Workspace): seq<string> {
    Sorting.Sort(ByLength, Splits(w, w.packages))
  }

  /** `find`: the first root that contains the target. */
  function ContainingSplitRoot(splitRoots: seq<string>, target: string): (r: Option<string>)
    ensures r.Some? ==> exists i ::
      0 <= i < |splitRoots| && splitRoots[i] == r.value && Contains(r.value, target) &&
        NoneBefore(splitRoots, target, i)
    ensures r.None? ==> NoneBefore(splitRoots, target, |splitRoots|)
  {
    if splitRoots == [] then None
    else if Contains(splitRoots[0], target) then
      assert NoneBefore(splitRoots, target, 0);
      Some(splitRoots[0])
    else ContainingSplitRoot(splitRoots[1..], target)
  }

  ghost predicate NoneBefore(splitRoots: seq<string>, target: string, i: nat)
    requires i <= |splitRoots|
  {
    forall j | 0 <= j < i :: !Contains(splitRoots[j], target)
  }

  ghost predicate LongestFirst(splitRoots: seq<string>) {
    forall i, j | 0 <= i < j < |splitRoots| :: |splitRoots[i]| >= |splitRoots[j]|
  }

  /** The roots are sorted longest first, so the root found is the innermost one: every root that
      contains the target is that root or contains it. */
  lemma InnermostSplitRoot(splitRoots: seq<string>, target: string, root: string)
    requires LongestFirst(splitRoots) && root in splitRoots && Contains(root, target)
    ensures ContainingSplitRoot(splitRoots, target).Some?
    ensures Contains(root, ContainingSplitRoot(splitRoots, target).value)
  {
    hide ContainingSplitRoot;
    var k :| 0 <= k < |splitRoots| && splitRoots[k] == root;
    var found := ContainingSplitRoot(splitRoots, target).value;
    var i :| 0 <= i < |splitRoots| && splitRoots[i] == found && Contains(found, target) &&
      NoneBefore(splitRoots, target, i);
    assert |found| >= |root|;
    ContainsBoth(root, found, target);
  }

  /** Of two directories that contain a path, the shorter contains the longer. */
  lemma ContainsBoth(root: string, inner: string, target: string)
    requires Contains(root, target) && Contains(inner, target) && |root| <= |inner|
    ensures Contains(root, inner)
  {
    if inner == target {
    } else if |root| == |inner| {
      assert inner == (inner + "/")[..|inner|] == target[..|inner|];
      assert root == inner by {
        assert root == target[..|root|];
      }
    } else {
      var n := |root| + 1;
      assert inner == (inner + "/")[..|inner|] == target[..|inner|];
      assert inner[..n] == target[..n] == root + "/";
    }
  }

  // ------------------------------------------------------------------------------ faces

  /** The face a config has by its own path. */
  function Anchor(w: Workspace, path: string): Option<Face> {
    if Basename(path) == "tsconfig.host.json" then Some(Host)
    else if Basename(path) == "tsconfig.client.json" then Some(Client)
    else if path == w.root + "/tsconfig.base.json" then Some(Host)
    else if path == w.root + "/tsconfig.base.client.json" then Some(Client)
    else None
  }

  /** The next config of the `extends` chain, if it exists. */
  function Parent(w: Workspace, path: string): Option<string>
    requires path in w.configs
  {
    var parent := w.configs[path].parent;
    if parent.Some? && parent.value in w.configs then parent else None
  }

  /** `projectFace`: the guard ends the walk on a cyclic chain. */
  function ProjectFace(w: Workspace, path: string, seen: set<string>): Option<Face>
    requires path in w.configs
    decreases w.configs.Keys - seen
  {
    if Anchor(w, path).Some? then Anchor(w, path)
    else if path in seen then None
    else
      match Parent(w, path)
      case None => None
      case Some(parent) => ProjectFace(w, parent, seen + {path})
  }

  /** The face found within `n` hops along the chain, with no guard. */
  ghost function FaceWithin(w: Workspace, path: string, n: nat): Option<Face>
    requires path in w.configs
    decreases n
  {
    if Anchor(w, path).Some? then Anchor(w, path)
    else if n == 0 || Parent(w, path).None? then None
    else FaceWithin(w, Parent(w, path).value, n - 1)
  }

  lemma {:induction false} FaceWithinMore(w: Workspace, path: string, n: nat, m: nat)
    requires path in w.configs && n <= m && FaceWithin(w, path, n).Some?
    ensures FaceWithin(w, path, m) == FaceWithin(w, path, n)
    decreases n
  {
    if Anchor(w, path).None? {
      FaceWithinMore(w, Parent(w, path).value, n - 1, m - 1);
    }
  }

  lemma {:induction false} GuardedFound(w: Workspace, path: string, seen: set<string>) returns (n: nat)
    requires path in w.configs && ProjectFace(w, path, seen).Some?
    ensures FaceWithin(w, path, n) == ProjectFace(w, path, seen)
    decreases w.configs.Keys - seen
  {
    if Anchor(w, path).Some? {
      n := 0;
    } else {
      var more := GuardedFound(w, Parent(w, path).value, seen + {path});
      n := more + 1;
    }
  }

  /** The guard never hides a face: what is already seen lies farther from any anchor. */
  lemma {:induction false} FoundGuarded(w: Workspace, path: string, seen: set<string>, n: nat)
    requires path in w.configs && seen <= w.configs.Keys && FaceWithin(w, path, n).Some?
    requires forall s | s in seen :: FaceWithin(w, s, n).None?
    ensures ProjectFace(w, path, seen) == FaceWithin(w, path, n)
    decreases n
  {
    if Anchor(w, path).None? {
      if FaceWithin(w, path, n - 1).Some? {
        forall s | s in seen
          ensures FaceWithin(w, s, n - 1).None?
        {
          if FaceWithin(w, s, n - 1).Some? {
            FaceWithinMore(w, s, n - 1, n);
          }
        }
        FaceWithinMore(w, path, n - 1, n);
        FoundGuarded(w, path, seen, n - 1);
      } else {
        forall s | s in seen + {path}
          ensures FaceWithin(w, s, n - 1).None?
        {
          if s != path && FaceWithin(w, s, n - 1).Some? {
            FaceWithinMore(w, s, n - 1, n);
          }
        }
        FoundGuarded(w, Parent(w, path).value, seen + {path}, n - 1);
      }
    }
  }

  /** The face of a config is that of the nearest anchored config on its `extends`
      chain, cyclic or not; it has none exactly when no config of the chain is anchored. */
  lemma FaceIsNearestAnchor(w: Workspace, path: string, face: Face)
    requires path in w.configs
    ensures ProjectFace(w, path, {}) == Some(face) <==> exists n: nat :: FaceWithin(w, path, n) == Some(face)
  {
    if ProjectFace(w, path, {}) == Some(face) {
      var n := GuardedFound(w, path, {});
    }
    if n: nat :| FaceWithin(w, path, n) == Some(face) {
      FoundGuarded(w, path, {}, n);
    }
  }

  // ------------------------------------------------------------------------- acceptance

  /** The reference stays outside split projects or names the leaf of the config's face. */
  function Check(w: Workspace, path: string, reference: Reference): Option<Violation>
    requires path in w.configs
  {
    var face := ProjectFace(w, path, {});
    match ContainingSplitRoot(SplitProjectRoots(w), reference.target)
    case None => None
    case Some(splitRoot) =>
      if face.Some? && reference.target == Leaf(splitRoot, face.value) then None
      else Some(Violation(path, reference, splitRoot, face))
  }

  /** The violations of one config's references, in order. */
  function ViolationsOf(w: Workspace, path: string, references: seq<Reference>): seq<Violation>
    requires path in w.configs
  {
    if references == [] then []
    else
      var n := |references| - 1;
      ViolationsOf(w, path, references[..n])
      + match Check(w, path, references[n]) case Some(v) => [v] case None => []
  }

  function Targets(w: Workspace, path: string, references: seq<Reference>): seq<string>
    requires path in w.configs
  {
    if references == [] then []
    else
      var n := |references| - 1;
      Targets(w, path, references[..n])
      + match Check(w, path, references[n]) case Some(_) => [] case None => [references[n].target]
  }

  /** The accepted reference edges between existing configs. */
  ghost function AcceptedGraph(w: Workspace): Graph {
    map path | path in w.configs :: Targets(w, path, w.configs[path].references)
  }

  function HostRoot(w: Workspace): string {
    w.root + "/tsconfig.host.json"
  }

  function ClientRoot(w: Workspace): string {
    w.root + "/tsconfig.client.json"
  }

  /** Reachable from an aggregate along accepted edges. */
  ghost predicate Reached(w: Workspace, path: string) {
    Reach(AcceptedGraph(w), HostRoot(w), path) || Reach(AcceptedGraph(w), ClientRoot(w), path)
  }

  /** How often each violation is listed: once for each such reference of a reached config. */
  ghost function Listed(w: Workspace, v: Violation): nat {
    if v.config in w.configs && Reached(w, v.config) then
      multiset(ViolationsOf(w, v.config, w.configs[v.config].references))[v]
    else 0
  }

  // -------------------------------------------------------------------------- the rules

  /** The last component of the path is this file name. */
  ghost predicate Named(path: string, name: string) {
    path == name || (|path| > |name| && path[|path| - |name| - 1..] == "/" + name)
  }

  /** The four kinds of path that have a face of their own. */
  ghost predicate Anchors(w: Workspace, path: string, face: Face) {
    match face
    case Host => Named(path, "tsconfig.host.json") || path == w.root + "/tsconfig.base.json"
    case Client => Named(path, "tsconfig.client.json") || path == w.root + "/tsconfig.base.client.json"
  }

  /** A chain of existing configs, each extending the next, of which only the last is anchored. */
  ghost predicate Inherits(w: Workspace, path: string, chain: seq<string>, face: Face) {
    && chain != [] && chain[0] == path && Anchors(w, chain[|chain| - 1], face)
    && (forall i | 0 <= i < |chain| :: chain[i] in w.configs)
    && (forall i | 0 <= i < |chain| - 1 :: w.configs[chain[i]].parent == Some(chain[i + 1]))
    && forall i, other | 0 <= i < |chain| - 1 :: !Anchors(w, chain[i], other)
  }

  ghost predicate HasFace(w: Workspace, path: string, face: Face) {
    exists chain :: Inherits(w, path, chain, face)
  }

  /** The target is the directory or lies below it. */
  ghost predicate Below(dir: string, target: string) {
    target == dir || exists rest :: target == dir + "/" + rest
  }

  ghost predicate SplitProject(w: Workspace, dir: string) {
    dir in w.packages && dir + "/tsconfig.host.json" in w.configs && dir + "/tsconfig.client.json" in w.configs
  }

  /** Of the split projects the target lies in, the one inside all the others. */
  ghost predicate Innermost(w: Workspace, root: string, target: string) {
    && SplitProject(w, root) && Below(root, target)
    && forall other | SplitProject(w, other) && Below(other, target) :: Below(other, root)
  }

  /** The target is the leaf of the config's own face. */
  ghost predicate Entitled(w: Workspace, path: string, root: string, target: string) {
    || (HasFace(w, path, Host) && target == root + "/tsconfig.host.json")
    || (HasFace(w, path, Client) && target == root + "/tsconfig.client.json")
  }

  /** The reference enters a split project elsewhere than by the leaf of the config's face. */
  ghost predicate Mistaken(w: Workspace, path: string, target: string) {
    exists root :: Innermost(w, root, target) && !Entitled(w, path, root, target)
  }

  /** A config that the aggregates lead to along references that are not mistaken. */
  ghost predicate Trail(w: Workspace, p: seq<string>, path: string) {
    && p != [] && p[|p| - 1] == path
    && (p[0] == w.root + "/tsconfig.host.json" || p[0] == w.root + "/tsconfig.client.json")
    && (forall i | 0 <= i < |p| :: p[i] in w.configs)
    && forall i | 0 <= i < |p| - 1 :: Refers(w, p[i], p[i + 1]) && !Mistaken(w, p[i], p[i + 1])
  }

  ghost predicate Refers(w: Workspace, path: string, target: string) {
    path in w.configs && exists reference | reference in w.configs[path].references :: reference.target == target
  }

  ghost predicate LedTo(w: Workspace, path: string) {
    exists p :: Trail(w, p, path)
  }

  /** What a violation says is so. */
  ghost predicate Describes(w: Workspace, v: Violation) {
    && Innermost(w, v.splitRoot, v.reference.target)
    && !Entitled(w, v.config, v.splitRoot, v.reference.target)
    && forall face :: v.face == Some(face) <==> HasFace(w, v.config, face)
  }

  /** How often a violation is due: once for each mistaken reference of a config led to. */
  ghost function Due(w: Workspace, v: Violation): nat {
    if LedTo(w, v.config) && v.config in w.configs && Describes(w, v)
    then multiset(w.configs[v.config].references)[v.reference]
    else 0
  }

  // ------------------------------------------------------------ the traversal obeys the rules

  lemma NamedLonger(path: string, name: string, last: char)
    requires Named(path, name)
    ensures Named(path + [last], name + [last])
  {
    if path != name {
      var n := |path| - |name| - 1;
      assert (path + [last])[n..] == path[n..] + [last];
      assert "/" + name + [last] == "/" + (name + [last]);
    }
  }

  /** `basename` is what follows the last slash. */
  lemma {:induction false} BasenameEnds(path: string)
    ensures '/' !in Basename(path) && Named(path, Basename(path))
    decreases |path|
  {
    if path != "" {
      var init, last := path[..|path| - 1], path[|path| - 1];
      assert path == init + [last];
      if last != '/' {
        BasenameEnds(init);
        NamedLonger(init, Basename(init), last);
      }
    }
  }

  lemma SlashInside(path: string, name: string, other: string)
    requires Named(path, name) && Named(path, other) && |name| < |other|
    ensures '/' in other
  {
    var tail := path[|path| - |name| - 1..];
    assert tail[0] == '/';
    assert other == path[|path| - |other|..] by {
      if path != other {
        assert path[|path| - |other| - 1..][1..] == path[|path| - |other|..];
      }
    }
    assert other[|other| - |name| - 1] == tail[0];
  }

  lemma NamedOnce(path: string, name: string, other: string)
    requires Named(path, name) && Named(path, other) && '/' !in name && '/' !in other
    ensures name == other
  {
    if |name| < |other| {
      SlashInside(path, name, other);
    } else if |other| < |name| {
      SlashInside(path, other, name);
    } else if path != name {
      assert path[|path| - |name| - 1..][1..] == name;
    }
  }

  lemma BasenameIs(path: string, name: string)
    requires '/' !in name
    ensures Basename(path) == name <==> Named(path, name)
  {
    BasenameEnds(path);
    if Named(path, name) {
      NamedOnce(path, name, Basename(path));
    }
  }

  lemma BaseNamed(path: string, dir: string, name: string)
    requires path == dir + ("/" + name)
    ensures Named(path, name)
  {
    assert path[|dir|..] == "/" + name;
  }

  /** The base configs bear names of their own. */
  lemma BaseDiffers(path: string, dir: string, name: string)
    requires path == dir + ("/" + name) && '/' !in name && |name| > 9 && name[9] == 'b'
    ensures !Named(path, "tsconfig.host.json") && !Named(path, "tsconfig.client.json")
  {
    hide Named;
    BaseNamed(path, dir, name);
    assert "tsconfig.host.json"[9] == 'h' && "tsconfig.client.json"[9] == 'c';
    if Named(path, "tsconfig.host.json") {
      NamedOnce(path, name, "tsconfig.host.json");
    }
    if Named(path, "tsconfig.client.json") {
      NamedOnce(path, name, "tsconfig.client.json");
    }
  }

  lemma BaseFiles()
    ensures "/" + "tsconfig.base.json" == "/tsconfig.base.json"
    ensures "/" + "tsconfig.base.client.json" == "/tsconfig.base.client.json"
  {
  }

  lemma BasesDiffer(w: Workspace, path: string)
    requires path == w.root + "/tsconfig.base.json" || path == w.root + "/tsconfig.base.client.json"
    ensures !Named(path, "tsconfig.host.json") && !Named(path, "tsconfig.client.json")
  {
    hide Named;
    BaseFiles();
    if path == w.root + "/tsconfig.base.json" {
      BaseDiffers(path, w.root, "tsconfig.base.json");
    } else {
      BaseDiffers(path, w.root, "tsconfig.base.client.json");
    }
  }

  lemma LeavesDiffer(path: string)
    ensures !(Named(path, "tsconfig.host.json") && Named(path, "tsconfig.client.json"))
  {
    hide Named;
    assert "tsconfig.host.json"[9] != "tsconfig.client.json"[9];
    if Named(path, "tsconfig.host.json") && Named(path, "tsconfig.client.json") {
      NamedOnce(path, "tsconfig.host.json", "tsconfig.client.json");
    }
  }

  /** A config has a face by its own path exactly if it is one of the four. */
  lemma AnchorIs(w: Workspace, path: string, face: Face)
    ensures Anchor(w, path) == Some(face) <==> Anchors(w, path, face)
  {
    hide Basename, Named;
    BasenameIs(path, "tsconfig.host.json");
    BasenameIs(path, "tsconfig.client.json");
    LeavesDiffer(path);
    if path == w.root + "/tsconfig.base.json" || path == w.root + "/tsconfig.base.client.json" {
      BasesDiffer(w, path);
    }
    assert |"tsconfig.base.json"| != |"tsconfig.base.client.json"|;
  }

  lemma NotAnchored(w: Workspace, path: string)
    ensures Anchor(w, path).None? <==> !Anchors(w, path, Host) && !Anchors(w, path, Client)
  {
    hide Anchor, Anchors;
    AnchorIs(w, path, Host);
    AnchorIs(w, path, Client);
    match Anchor(w, path)
    case None =>
    case Some(Host) =>
    case Some(Client) =>
  }

  lemma {:induction false} ChainFound(w: Workspace, path: string, chain: seq<string>, face: Face) returns (n: nat)
    requires Inherits(w, path, chain, face)
    ensures path in w.configs && FaceWithin(w, path, n) == Some(face)
    decreases |chain|
  {
    hide Anchor, Anchors;
    AnchorIs(w, chain[|chain| - 1], face);
    NotAnchored(w, path);
    n := 0;
    if |chain| > 1 {
      var rest := chain[1..];
      assert forall i | 0 <= i < |rest| :: rest[i] == chain[i + 1];
      assert w.configs[chain[0]].parent == Some(chain[1]);
      assert !Anchors(w, chain[0], Host) && !Anchors(w, chain[0], Client);
      n := ChainFound(w, chain[1], rest, face);
      n := n + 1;
    }
  }

  lemma {:induction false} FoundChain(w: Workspace, path: string, n: nat, face: Face) returns (chain: seq<string>)
    requires path in w.configs && FaceWithin(w, path, n) == Some(face)
    ensures Inherits(w, path, chain, face)
    decreases n
  {
    hide Anchor, Anchors;
    NotAnchored(w, path);
    AnchorIs(w, path, face);
    if Anchor(w, path).Some? {
      chain := [path];
    } else {
      var rest := FoundChain(w, Parent(w, path).value, n - 1, face);
      chain := [path] + rest;
      assert forall i | 0 < i < |chain| :: chain[i] == rest[i - 1];
      forall i, other | 0 <= i < |chain| - 1
        ensures !Anchors(w, chain[i], other)
      {
        if i == 0 {
          assert other == Host || other == Client;
        }
      }
    }
  }

  /** The face of a config is the one it inherits. */
  lemma FaceInherited(w: Workspace, path: string, face: Face)
    requires path in w.configs
    ensures ProjectFace(w, path, {}) == Some(face) <==> HasFace(w, path, face)
  {
    hide ProjectFace, FaceWithin, Inherits;
    FaceIsNearestAnchor(w, path, face);
    if ProjectFace(w, path, {}) == Some(face) {
      var n: nat :| FaceWithin(w, path, n) == Some(face);
      var chain := FoundChain(w, path, n, face);
    }
    if HasFace(w, path, face) {
      var chain :| Inherits(w, path, chain, face);
      var n := ChainFound(w, path, chain, face);
    }
  }

  lemma ContainsBelow(dir: string, target: string)
    ensures Contains(dir, target) <==> Below(dir, target)
  {
    if StartsWith(target, dir + "/") {
      assert target == dir + "/" + target[|dir| + 1..];
    }
    if rest: string :| target == dir + "/" + rest {
      assert target[..|dir| + 1] == dir + "/";
    }
  }

  lemma {:induction false} SplitsAre(w: Workspace, packages: seq<string>, dir: string)
    ensures dir in Splits(w, packages) <==>
      dir in packages && dir + "/tsconfig.host.json" in w.configs && dir + "/tsconfig.client.json" in w.configs
  {
    if packages != [] {
      var n := |packages| - 1;
      assert packages == packages[..n] + [packages[n]];
      SplitsAre(w, packages[..n], dir);
    }
  }

  /** The roots searched are the split projects, longest first. */
  lemma SplitRootsAre(w: Workspace)
    ensures LongestFirst(SplitProjectRoots(w))
    ensures forall dir :: dir in SplitProjectRoots(w) <==> SplitProject(w, dir)
  {
    var roots, splits := SplitProjectRoots(w), Splits(w, w.packages);
    hide Splits;
    Sorting.SortSorted(ByLength, (set dir | dir in splits), splits);
    hide SplitProjectRoots;
    forall i, j | 0 <= i < j < |roots|
      ensures |roots[i]| >= |roots[j]|
    {
      assert ByLength(roots[i], roots[j]) <= 0;
    }
    forall dir
      ensures dir in roots <==> SplitProject(w, dir)
    {
      SplitsAre(w, w.packages, dir);
      assert dir in multiset(roots) <==> dir in multiset(splits);
    }
  }

  /** The search finds the innermost split project around a target, if there is one. */
  lemma RootFound(w: Workspace, target: string, root: string)
    ensures ContainingSplitRoot(SplitProjectRoots(w), target) == Some(root) <==> Innermost(w, root, target)
  {
    hide ContainingSplitRoot, SplitProjectRoots, SplitProject, Contains, Below, LongestFirst;
    var roots := SplitProjectRoots(w);
    SplitRootsAre(w);
    forall dir
      ensures Contains(dir, target) <==> Below(dir, target)
    {
      ContainsBelow(dir, target);
    }
    var found := ContainingSplitRoot(roots, target);
    forall other | SplitProject(w, other) && Below(other, target)
      ensures found.Some? && Below(other, found.value)
    {
      InnermostSplitRoot(roots, target, other);
      ContainsBelow(other, found.value);
    }
    if Innermost(w, root, target) {
      assert Below(root, found.value) && Below(found.value, root);
      BelowBoth(root, found.value);
    }
  }

  lemma BelowBoth(dir: string, other: string)
    requires Below(dir, other) && Below(other, dir)
    ensures dir == other
  {
    assert |dir| <= |other| <= |dir|;
  }

  /** A reference is rejected exactly if it is mistaken, and the violation describes it. */
  lemma CheckDescribes(w: Workspace, path: string, reference: Reference, v: Violation)
    requires path in w.configs
    ensures Check(w, path, reference) == Some(v) <==>
      v.config == path && v.reference == reference && Describes(w, v)
    ensures Check(w, path, reference).Some? <==> Mistaken(w, path, reference.target)
  {
    hide ProjectFace, ContainingSplitRoot, SplitProjectRoots, Innermost, HasFace;
    var target := reference.target;
    forall root
      ensures ContainingSplitRoot(SplitProjectRoots(w), target) == Some(root) <==> Innermost(w, root, target)
    {
      RootFound(w, target, root);
    }
    forall face
      ensures ProjectFace(w, path, {}) == Some(face) <==> HasFace(w, path, face)
    {
      FaceInherited(w, path, face);
    }
    assert ProjectFace(w, path, {}) == Some(Host) <==> HasFace(w, path, Host);
    assert ProjectFace(w, path, {}) == Some(Client) <==> HasFace(w, path, Client);
  }

  lemma CountLast<T>(s: seq<T>, last: T, v: T)
    ensures multiset(s + [last])[v] == multiset(s)[v] + if last == v then 1 else 0
  {
  }

  /** One more reference adds its violation, or none. */
  lemma ViolationsLast(w: Workspace, path: string, references: seq<Reference>, v: Violation)
    requires path in w.configs && references != []
    ensures multiset(ViolationsOf(w, path, references))[v]
         == multiset(ViolationsOf(w, path, references[..|references| - 1]))[v]
          + if Check(w, path, references[|references| - 1]) == Some(v) then 1 else 0
  {
    hide Check;
    var init, last := references[..|references| - 1], references[|references| - 1];
    match Check(w, path, last)
    case None => assert ViolationsOf(w, path, references) == ViolationsOf(w, path, init);
    case Some(other) => CountLast(ViolationsOf(w, path, init), other, v);
  }

  lemma {:induction false} CountDescribed(w: Workspace, path: string, references: seq<Reference>, v: Violation)
    requires path in w.configs
    ensures multiset(ViolationsOf(w, path, references))[v]
         == if v.config == path && Describes(w, v) then multiset(references)[v.reference] else 0
  {
    hide Check, Describes, Mistaken;
    if references != [] {
      var init, last := references[..|references| - 1], references[|references| - 1];
      CountDescribed(w, path, init, v);
      ViolationsLast(w, path, references, v);
      hide ViolationsOf;
      CheckDescribes(w, path, last, v);
      assert references == init + [last];
      CountLast(init, last, v.reference);
    }
  }

  lemma {:induction false} TargetsAccepted(w: Workspace, path: string, references: seq<Reference>, target: string)
    requires path in w.configs
    ensures target in Targets(w, path, references) <==>
      !Mistaken(w, path, target) && exists reference | reference in references :: reference.target == target
  {
    hide Check, Mistaken;
    if references != [] {
      var n := |references| - 1;
      TargetsAccepted(w, path, references[..n], target);
      CheckDescribes(w, path, references[n], Violation(path, references[n], "", None));
      assert references == references[..n] + [references[n]];
    }
  }

  /** An edge is accepted exactly if its reference is not mistaken. */
  lemma AcceptedIff(w: Workspace, p: string, q: string)
    ensures Edge(AcceptedGraph(w), p, q) <==> q in w.configs && Refers(w, p, q) && !Mistaken(w, p, q)
  {
    hide Targets, Mistaken;
    if p in w.configs {
      TargetsAccepted(w, p, w.configs[p].references, q);
    }
  }

  lemma {:induction false} PathSteps(g: Graph, p: seq<string>)
    ensures Path(g, p) <==>
      p != [] && (forall i | 0 <= i < |p| :: p[i] in g) && forall i | 0 <= i < |p| - 1 :: Edge(g, p[i], p[i + 1])
  {
    if |p| > 1 {
      PathSteps(g, p[1..]);
      assert forall i | 0 <= i < |p| - 1 :: p[1..][i] == p[i + 1];
    }
  }

  /** The configs reached are those the aggregates lead to. */
  lemma ReachedIff(w: Workspace, path: string)
    ensures Reached(w, path) <==> LedTo(w, path)
  {
    hide AcceptedGraph, Mistaken, Refers, Path, Edge;
    var g := AcceptedGraph(w);
    assert forall p :: p in g <==> p in w.configs by {
      GraphOver(w);
    }
    forall p: seq<string>
      ensures Trail(w, p, path) <==> PathBetween(g, p, HostRoot(w), path) || PathBetween(g, p, ClientRoot(w), path)
    {
      PathSteps(g, p);
      forall i | 0 <= i < |p| - 1
        ensures Edge(g, p[i], p[i + 1]) <==>
          p[i + 1] in w.configs && Refers(w, p[i], p[i + 1]) && !Mistaken(w, p[i], p[i + 1])
      {
        AcceptedIff(w, p[i], p[i + 1]);
      }
    }
  }

  lemma GraphOver(w: Workspace)
    ensures AcceptedGraph(w).Keys == w.configs.Keys
  {
  }

  /** What the traversal lists is what is due. */
  lemma ListedDue(w: Workspace, v: Violation)
    ensures Listed(w, v) == Due(w, v)
  {
    hide Reached, LedTo, Describes;
    ReachedIff(w, v.config);
    if v.config in w.configs {
      CountDescribed(w, v.config, w.configs[v.config].references, v);
    }
  }

  // -------------------------------------------------------------------------- traversal

  /** What the worklist has established: `visited` are reached configs whose accepted
      edges lead to visited or pending ones, and exactly their violations are listed. */
  ghost predicate Walked(w: Workspace, pending: seq<string>, visited: set<string>, violations: seq<Violation>) {
    && visited <= w.configs.Keys
    && (forall p | p in visited :: Reached(w, p))
    && (forall p | p in pending && p in w.configs :: Reached(w, p))
    && (forall r | r in w.configs && (r == HostRoot(w) || r == ClientRoot(w)) :: r in visited || r in pending)
    && (forall p, q | p in visited && Edge(AcceptedGraph(w), p, q) :: q in visited || q in pending)
    && Tallied(w, visited, violations)
  }

  ghost predicate Tallied(w: Workspace, visited: set<string>, violations: seq<Violation>)
    requires visited <= w.configs.Keys
  {
    forall v :: multiset(violations)[v]
             == if v.config in visited then multiset(ViolationsOf(w, v.config, w.configs[v.config].references))[v]
                else 0
  }

  lemma WalkStart(w: Workspace)
    ensures Walked(w, [HostRoot(w), ClientRoot(w)], {}, [])
  {
    hide Reach, Targets, ViolationsOf, HostRoot, ClientRoot;
    var g := AcceptedGraph(w);
    if HostRoot(w) in g {
      ReachSelf(g, HostRoot(w));
    }
    if ClientRoot(w) in g {
      ReachSelf(g, ClientRoot(w));
    }
  }

  lemma WalkSkip(w: Workspace, pending: seq<string>, visited: set<string>, violations: seq<Violation>)
    requires pending != [] && Walked(w, pending, visited, violations)
    requires pending[|pending| - 1] in visited || pending[|pending| - 1] !in w.configs
    ensures Walked(w, pending[..|pending| - 1], visited, violations)
  {
    hide Reached, Tallied;
    PopKeeps(pending);
  }

  lemma PopKeeps(pending: seq<string>)
    requires pending != []
    ensures forall p :: p in pending <==> p in pending[..|pending| - 1] || p == pending[|pending| - 1]
  {
    assert pending == pending[..|pending| - 1] + [pending[|pending| - 1]];
  }

  /** Visiting a config lists its violations and stacks its accepted targets. */
  lemma WalkVisit(w: Workspace, pending: seq<string>, visited: set<string>, violations: seq<Violation>)
    requires pending != [] && Walked(w, pending, visited, violations)
    requires pending[|pending| - 1] !in visited && pending[|pending| - 1] in w.configs
    ensures var path := pending[|pending| - 1];
            var references := w.configs[path].references;
            Walked(w, pending[..|pending| - 1] + Targets(w, path, references), visited + {path},
                   violations + ViolationsOf(w, path, references))
  {
    hide Reached, Tallied, Targets, ViolationsOf;
    var path := pending[|pending| - 1];
    PopKeeps(pending);
    forall q | q in Targets(w, path, w.configs[path].references) && q in w.configs
      ensures Reached(w, q)
    {
      ReachedNext(w, path, q);
    }
    TallyVisit(w, visited, violations, path);
  }

  lemma ReachedNext(w: Workspace, p: string, q: string)
    requires Reached(w, p) && Edge(AcceptedGraph(w), p, q)
    ensures Reached(w, q)
  {
    hide Reach;
    var g := AcceptedGraph(w);
    ReachEdge(g, p, q);
    if Reach(g, HostRoot(w), p) {
      ReachTrans(g, HostRoot(w), p, q);
    } else {
      ReachTrans(g, ClientRoot(w), p, q);
    }
  }

  lemma {:induction false} ViolationsName(w: Workspace, path: string, references: seq<Reference>)
    requires path in w.configs
    ensures forall v | v in ViolationsOf(w, path, references) :: v.config == path
  {
    hide ProjectFace, ContainingSplitRoot;
    if references != [] {
      ViolationsName(w, path, references[..|references| - 1]);
    }
  }

  lemma TallyVisit(w: Workspace, visited: set<string>, violations: seq<Violation>, path: string)
    requires visited <= w.configs.Keys && Tallied(w, visited, violations)
    requires path in w.configs && path !in visited
    ensures Tallied(w, visited + {path}, violations + ViolationsOf(w, path, w.configs[path].references))
  {
    hide ViolationsOf;
    var more := ViolationsOf(w, path, w.configs[path].references);
    ViolationsName(w, path, w.configs[path].references);
    forall v: Violation
      ensures v.config != path ==> multiset(more)[v] == 0
    {
      assert v in multiset(more) <==> v in more;
    }
  }

  /** An empty worklist has visited exactly the reached configs. */
  lemma WalkDone(w: Workspace, visited: set<string>, violations: seq<Violation>)
    requires Walked(w, [], visited, violations)
    ensures forall v :: multiset(violations)[v] == Listed(w, v)
  {
    hide Reach, ViolationsOf, Targets;
    forall p | p in w.configs && Reached(w, p)
      ensures p in visited
    {
      if p !in visited {
        var g := AcceptedGraph(w);
        var start := if Reach(g, HostRoot(w), p) then HostRoot(w) else ClientRoot(w);
        ReachIn(g, start, p);
        var u, q := ReachExit(g, start, p, visited);
      }
    }
  }

  /** The traversal. The worklist order is a stack here and a parameter of no result: the
      violations are, as a multiset, those that are due. */
  method CollectViolations(w: Workspace) returns (violations: seq<Violation>)
    ensures forall v :: multiset(violations)[v] == Due(w, v)
  {
    hide Walked, Listed, Due, Check, ProjectFace, ContainingSplitRoot;
    violations := [];
    var pending := [HostRoot(w), ClientRoot(w)];
    var visited: set<string> := {};
    WalkStart(w);
    while pending != []
      invariant Walked(w, pending, visited, violations)
      decreases w.configs.Keys - visited, |pending|
    {
      var path := pending[|pending| - 1];
      ghost var before := pending;
      pending := pending[..|pending| - 1];
      if path in visited || path !in w.configs {
        WalkSkip(w, before, visited, violations);
        continue;
      }
      var references := w.configs[path].references;
      var listed := violations;
      var stacked := pending;
      for k := 0 to |references|
        invariant violations == listed + ViolationsOf(w, path, references[..k])
        invariant pending == stacked + Targets(w, path, references[..k])
      {
        assert references[..k + 1][..k] == references[..k];
        match Check(w, path, references[k])
        case Some(v) => violations := violations + [v];
        case None => pending := pending + [references[k].target];
      }
      assert references[..|references|] == references;
      WalkVisit(w, before, visited, listed);
      visited := visited + {path};
    }
    WalkDone(w, visited, violations);
    forall v
      ensures multiset(violations)[v] == Due(w, v)
    {
      ListedDue(w, v);
    }
  }
}
