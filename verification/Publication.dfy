/** The resumable publication of dsh/scripts/publish-npm-baseline.ts, against a registry
    that holds one integrity per package for the release version, and dist-tags. */
module Publication {

  import opened Options

  datatype PackedPackage = PackedPackage(name: string, integrity: string)

  datatype Manifest = Manifest(packages: seq<PackedPackage>, version: string, distTag: string)

  const RELEASE_ENTRY_PACKAGE := "@deepseek-ai/dsh"
  const LATEST_DIST_TAG := "latest"

  /** `published`: integrity by package name, at the release version. `tags`: the version
      each (package, dist-tag) points to. With `firstLatest` the registry gives a package that
      has no `latest` that tag when a version is published, whatever tag is asked for. */
  datatype Registry = Registry(published: map<string, string>, tags: map<(string, string), string>, firstLatest: bool)

  datatype Outcome = Completed | Crashed | Failed

  /** What loading a release bundle has checked. */
  ghost predicate ValidManifest(m: Manifest) {
    m.packages != [] && forall i, j | 0 <= i < j < |m.packages| :: m.packages[i].name != m.packages[j].name
  }

  // --------------------------------------------------------------------- registry facts

  function Integrity(r: Registry, name: string): Option<string> {
    if name in r.published then Some(r.published[name]) else None
  }

  function DistTag(r: Registry, name: string, tag: string): Option<string> {
    if (name, tag) in r.tags then Some(r.tags[(name, tag)]) else None
  }

  predicate RightIntegrity(r: Registry, p: PackedPackage) {
    Integrity(r, p.name) == Some(p.integrity)
  }

  /** The package is published with the manifest's content and carries the dist-tag. */
  predicate Right(m: Manifest, r: Registry, p: PackedPackage) {
    RightIntegrity(r, p) && DistTag(r, p.name, m.distTag) == Some(m.version)
  }

  ghost predicate AllRight(m: Manifest, r: Registry) {
    forall i | 0 <= i < |m.packages| :: Right(m, r, m.packages[i])
  }

  function Latest(r: Registry): Option<string> {
    DistTag(r, RELEASE_ENTRY_PACKAGE, LATEST_DIST_TAG)
  }

  /** What `verifyRemote` and `verifyReleaseEntryDistTag` accept. */
  ghost predicate Verified(m: Manifest, r: Registry) {
    AllRight(m, r) && Latest(r) == Some(m.version)
  }

  /** No package of the manifest is already published with other content. */
  ghost predicate NoConflict(m: Manifest, r: Registry) {
    forall i | 0 <= i < |m.packages| && m.packages[i].name in r.published :: RightIntegrity(r, m.packages[i])
  }

  ghost predicate EntryPacked(m: Manifest) {
    exists i :: 0 <= i < |m.packages| && m.packages[i].name == RELEASE_ENTRY_PACKAGE
  }

  /** The entry package is in the manifest, or at the release version already. */
  ghost predicate EntryAvailable(m: Manifest, r: Registry) {
    || RELEASE_ENTRY_PACKAGE in r.published
    || EntryPacked(m)
    || Latest(r) == Some(m.version)
  }

  /** The release in the registry's own terms: every package with its content under the release
      tag, and the entry package under `latest`. */
  ghost predicate Released(m: Manifest, r: Registry) {
    && (forall i | 0 <= i < |m.packages| ::
          var p := m.packages[i];
          && p.name in r.published && r.published[p.name] == p.integrity
          && (p.name, m.distTag) in r.tags && r.tags[(p.name, m.distTag)] == m.version)
    && ("@deepseek-ai/dsh", "latest") in r.tags && r.tags[("@deepseek-ai/dsh", "latest")] == m.version
  }

  lemma ReleasedIff(m: Manifest, r: Registry)
    ensures Released(m, r) <==> Verified(m, r)
  {
    assert forall i | 0 <= i < |m.packages| :: Right(m, r, m.packages[i]) <==>
      var p := m.packages[i];
      && p.name in r.published && r.published[p.name] == p.integrity
      && (p.name, m.distTag) in r.tags && r.tags[(p.name, m.distTag)] == m.version;
  }

  /** Nothing stands in the way of the release: no package has other content, and the entry package
      is published, or to be published, or `latest` points to the release already. */
  ghost predicate Publishable(m: Manifest, r: Registry) {
    && (forall i | 0 <= i < |m.packages| :: m.packages[i].name in r.published ==>
          r.published[m.packages[i].name] == m.packages[i].integrity)
    && (|| "@deepseek-ai/dsh" in r.published
        || (exists i :: 0 <= i < |m.packages| && m.packages[i].name == "@deepseek-ai/dsh")
        || (("@deepseek-ai/dsh", "latest") in r.tags && r.tags[("@deepseek-ai/dsh", "latest")] == m.version))
  }

  lemma PublishableIff(m: Manifest, r: Registry)
    ensures Publishable(m, r) <==> NoConflict(m, r) && EntryAvailable(m, r)
  {
    assert EntryPacked(m) <==> exists i :: 0 <= i < |m.packages| && m.packages[i].name == "@deepseek-ai/dsh";
  }

  ghost predicate IsPackage(m: Manifest, name: string, integrity: string) {
    exists i :: 0 <= i < |m.packages| && m.packages[i] == PackedPackage(name, integrity)
  }

  /** A tag a run may move. */
  ghost predicate IsTarget(m: Manifest, r: Registry, key: (string, string)) {
    || ((key.1 == m.distTag || (r.firstLatest && key.1 == LATEST_DIST_TAG))
        && exists i :: 0 <= i < |m.packages| && m.packages[i].name == key.0)
    || key == (RELEASE_ENTRY_PACKAGE, LATEST_DIST_TAG)
  }

  // ---------------------------------------------------------------------- runs, as relations

  /** What one `npm publish --tag` may leave: the version, and of the tags that come with it
      those the registry has already moved. */
  ghost predicate PublishStep(m: Manifest, a: Registry, b: Registry, p: PackedPackage) {
    && p.name !in a.published && b.firstLatest == a.firstLatest
    && b.published == a.published[p.name := p.integrity]
    && (|| b.tags in {a.tags, a.tags[(p.name, m.distTag) := m.version]}
        || (a.firstLatest && (p.name, LATEST_DIST_TAG) !in a.tags
            && b.tags in {a.tags[(p.name, LATEST_DIST_TAG) := m.version],
                          a.tags[(p.name, m.distTag) := m.version][(p.name, LATEST_DIST_TAG) := m.version]}))
  }

  function Tagged(m: Manifest, r: Registry, name: string, tag: string): Registry {
    if DistTag(r, name, tag) == Some(m.version) then r else r.(tags := r.tags[(name, tag) := m.version])
  }

  /** The registry between the publish command of package `i` and its dist-tag. */
  ghost predicate Uploaded(m: Manifest, i: nat, a: Registry, b: Registry)
    requires i < |m.packages|
  {
    PublishStep(m, a, b, m.packages[i]) || (RightIntegrity(a, m.packages[i]) && b == a)
  }

  /** One package of the loop, complete or cut short at any point. */
  ghost predicate PackageRun(m: Manifest, i: nat, a: Registry, b: Registry, outcome: Outcome)
    requires i < |m.packages|
  {
    var p := m.packages[i];
    match outcome
    case Failed => p.name in a.published && !RightIntegrity(a, p) && b == a
    case Completed => exists c :: Uploaded(m, i, a, c) && b == Tagged(m, c, p.name, m.distTag)
    case Crashed =>
      b == a || Uploaded(m, i, a, b) || exists c :: Uploaded(m, i, a, c) && b == Tagged(m, c, p.name, m.distTag)
  }

  /** The first `k` packages, or as far as the run got. */
  ghost predicate LoopRun(m: Manifest, k: nat, a: Registry, b: Registry, outcome: Outcome)
    requires k <= |m.packages|
    decreases k, 1
  {
    if k == 0 then outcome == Completed && b == a
    else (outcome != Completed && LoopRun(m, k - 1, a, b, outcome)) || exists c :: LoopVia(m, k, a, c, b, outcome)
  }

  /** The run reaches the last of the `k` packages at `c`. */
  ghost predicate LoopVia(m: Manifest, k: nat, a: Registry, c: Registry, b: Registry, outcome: Outcome)
    requires 0 < k <= |m.packages|
    decreases k, 0
  {
    LoopRun(m, k - 1, a, c, Completed) && PackageRun(m, k - 1, c, b, outcome)
  }

  /** After the loop: the entry package's `latest`, which needs the version to exist, then the
      verification. */
  ghost predicate FinalRun(m: Manifest, a: Registry, b: Registry, outcome: Outcome) {
    if RELEASE_ENTRY_PACKAGE !in a.published && Latest(a) != Some(m.version) then
      b == a && outcome != Completed
    else
      var tagged := Tagged(m, a, RELEASE_ENTRY_PACKAGE, LATEST_DIST_TAG);
      match outcome
      case Crashed => b == a || b == tagged
      case Completed => b == tagged && Verified(m, tagged)
      case Failed => b == tagged && !Verified(m, tagged)
  }

  /** One run of `publish`, the confirmation already given. */
  ghost predicate Run(m: Manifest, a: Registry, b: Registry, outcome: Outcome) {
    || (outcome != Completed && LoopRun(m, |m.packages|, a, b, outcome))
    || exists c :: LoopRun(m, |m.packages|, a, c, Completed) && FinalRun(m, c, b, outcome)
  }

  // ------------------------------------------------------------------------- publishing

  /** A publication against a registry it alone writes to. */
  class RegistryPublication {
    const manifest: Manifest
    var registry: Registry

    constructor (m: Manifest, r: Registry)
      ensures manifest == m && registry == r
    {
      manifest := m;
      registry := r;
    }

    /** `npm publish --tag`: which of the tags have moved when the command returns is open. */
    method NpmPublish(p: PackedPackage)
      requires p.name !in registry.published
      modifies this
      ensures PublishStep(manifest, old(registry), registry, p)
    {
      var first := registry.firstLatest && (p.name, LATEST_DIST_TAG) !in registry.tags;
      registry := registry.(published := registry.published[p.name := p.integrity]);
      if * {
        registry := registry.(tags := registry.tags[(p.name, manifest.distTag) := manifest.version]);
      }
      if first {
        if * {
          registry := registry.(tags := registry.tags[(p.name, LATEST_DIST_TAG) := manifest.version]);
        }
      }
    }

    method EnsureDistTag(name: string, tag: string)
      modifies this
      ensures registry == Tagged(manifest, old(registry), name, tag)
    {
      if DistTag(registry, name, tag) == Some(manifest.version) {
        return;
      }
      registry := registry.(tags := registry.tags[(name, tag) := manifest.version]);
    }

    /** `verifyRemote` followed by `verifyReleaseEntryDistTag`. */
    method VerifyRemote() returns (ok: bool)
      ensures ok <==> Verified(manifest, registry)
      ensures ok <==> Released(manifest, registry)
    {
      ReleasedIff(manifest, registry);
      for i := 0 to |manifest.packages|
        invariant forall k | 0 <= k < i :: Right(manifest, registry, manifest.packages[k])
      {
        var p := manifest.packages[i];
        if Integrity(registry, p.name) == None {
          return false;
        }
        if Integrity(registry, p.name) != Some(p.integrity) {
          return false;
        }
        if DistTag(registry, p.name, manifest.distTag) != Some(manifest.version) {
          return false;
        }
      }
      ok := Latest(registry) == Some(manifest.version);
    }

    /** One package of the loop: publish it or check what is there, then its dist-tag. `cut` is the
        point at which the process dies, if it does: before, between and after the commands of
        package `i` lie the points `3 * i`, `3 * i + 1` and `3 * i + 2`. */
    method PublishPackage(i: nat, cut: Option<nat>) returns (outcome: Outcome)
      requires i < |manifest.packages|
      modifies this
      ensures PackageRun(manifest, i, old(registry), registry, outcome)
      ensures outcome == Crashed ==> cut.Some? && 3 * i <= cut.value < 3 * i + 3
    {
      hide PublishStep;
      if cut == Some(3 * i) {
        return Crashed;
      }
      var p := manifest.packages[i];
      if Integrity(registry, p.name) == None {
        NpmPublish(p);
      } else if Integrity(registry, p.name) != Some(p.integrity) {
        return Failed;
      }
      assert Uploaded(manifest, i, old(registry), registry);
      if cut == Some(3 * i + 1) {
        return Crashed;
      }
      EnsureDistTag(p.name, manifest.distTag);
      if cut == Some(3 * i + 2) {
        return Crashed;
      }
      outcome := Completed;
    }

    /** `publish`: the loop, then the entry package's `latest` and the verification. A run that is
        not cut short completes the release whenever nothing stands in its way. */
    method Publish(cut: Option<nat>) returns (outcome: Outcome)
      modifies this
      ensures Run(manifest, old(registry), registry, outcome)
      ensures outcome == Crashed ==> cut.Some? && cut.value < 3 * |manifest.packages| + 2
      ensures ValidManifest(manifest) && outcome != Crashed ==>
        (outcome == Completed <==> old(Publishable(manifest, registry)))
      ensures ValidManifest(manifest) && outcome == Completed ==> Released(manifest, registry)
    {
      hide PackageRun, FinalRun, Released, Publishable, ValidManifest;
      for i := 0 to |manifest.packages|
        invariant LoopRun(manifest, i, old(registry), registry, Completed)
      {
        ghost var before := registry;
        outcome := PublishPackage(i, cut);
        assert LoopVia(manifest, i + 1, old(registry), before, registry, outcome);
        if outcome != Completed {
          LoopStops(manifest, i + 1, old(registry), registry, outcome);
          RunDecided(manifest, old(registry), registry, outcome);
          return;
        }
      }
      outcome := PublishLatest(cut);
      RunDecided(manifest, old(registry), registry, outcome);
    }

    /** The end of the run. */
    method PublishLatest(cut: Option<nat>) returns (outcome: Outcome)
      modifies this
      ensures FinalRun(manifest, old(registry), registry, outcome)
      ensures outcome == Crashed ==> cut.Some? && cut.value < 3 * |manifest.packages| + 2
    {
      if cut == Some(3 * |manifest.packages|) {
        return Crashed;
      }
      if RELEASE_ENTRY_PACKAGE !in registry.published && Latest(registry) != Some(manifest.version) {
        return Failed;
      }
      EnsureDistTag(RELEASE_ENTRY_PACKAGE, LATEST_DIST_TAG);
      if cut == Some(3 * |manifest.packages| + 1) {
        return Crashed;
      }
      var ok := VerifyRemote();
      outcome := if ok then Completed else Failed;
    }
  }

  lemma {:induction false} LoopStops(m: Manifest, k: nat, a: Registry, b: Registry, outcome: Outcome)
    requires k <= |m.packages| && outcome != Completed && LoopRun(m, k, a, b, outcome)
    ensures LoopRun(m, |m.packages|, a, b, outcome)
    decreases |m.packages| - k
  {
    hide PackageRun;
    if k < |m.packages| {
      LoopStops(m, k + 1, a, b, outcome);
    }
  }

  // ------------------------------------------------------------------ what runs keep

  /** From `a` to `b` nothing published is replaced, only manifest content is added, and
      only the target tags move, to the release version. */
  ghost predicate Grows(m: Manifest, a: Registry, b: Registry) {
    && b.firstLatest == a.firstLatest
    && (forall name | name in a.published :: name in b.published && b.published[name] == a.published[name])
    && (forall name | name in b.published && name !in a.published :: IsPackage(m, name, b.published[name]))
    && (forall key | key in a.tags :: key in b.tags)
    && (forall key | key in b.tags && (key in a.tags ==> a.tags[key] != b.tags[key]) ::
          b.tags[key] == m.version && IsTarget(m, a, key))
  }

  /** The entry package's `latest` has moved only if every package is in place. */
  ghost predicate LatestGuarded(m: Manifest, a: Registry, b: Registry) {
    Latest(b) == Latest(a) || (Latest(b) == Some(m.version) && AllRight(m, b))
  }

  /** No command before the last one can move the entry package's `latest` early: the entry
      package is not in the manifest; or `latest` is the release tag and the entry package
      comes last; or it is not, and the registry sets no `latest` by itself. */
  ghost predicate LatestLast(m: Manifest, firstLatest: bool) {
    forall i | 0 <= i < |m.packages| && m.packages[i].name == RELEASE_ENTRY_PACKAGE ::
      if m.distTag == LATEST_DIST_TAG then i == |m.packages| - 1 else !firstLatest
  }

  /** Everything one run, complete or cut short, may do to the registry. */
  ghost predicate RunStep(m: Manifest, a: Registry, b: Registry, outcome: Outcome) {
    && Grows(m, a, b)
    && (LatestLast(m, a.firstLatest) ==> LatestGuarded(m, a, b))
    && (outcome == Completed ==> Verified(m, b))
    && (outcome == Failed ==> !NoConflict(m, a) || !EntryAvailable(m, a))
    && (outcome == Completed ==> NoConflict(m, a) && EntryAvailable(m, a))
    && (Verified(m, a) ==> b == a)
  }

  lemma GrowsTrans(m: Manifest, a: Registry, b: Registry, c: Registry)
    requires Grows(m, a, b) && Grows(m, b, c)
    ensures Grows(m, a, c)
  {
    hide IsPackage;
    forall key | key in c.tags && (key in a.tags ==> a.tags[key] != c.tags[key])
      ensures c.tags[key] == m.version && IsTarget(m, a, key)
    {
      if key in b.tags && b.tags[key] == c.tags[key] {
        assert key in a.tags ==> a.tags[key] != b.tags[key];
      }
    }
  }

  lemma GrowsKeepsRight(m: Manifest, a: Registry, b: Registry, p: PackedPackage)
    requires Grows(m, a, b)
    ensures RightIntegrity(a, p) ==> RightIntegrity(b, p)
    ensures Right(m, a, p) ==> Right(m, b, p)
    ensures Latest(a) == Some(m.version) ==> Latest(b) == Some(m.version)
  {
    hide IsPackage, IsTarget;
  }

  /** Nothing a run does creates a conflict. */
  lemma GrowsKeepsNoConflict(m: Manifest, a: Registry, b: Registry)
    requires ValidManifest(m) && Grows(m, a, b)
    ensures NoConflict(m, b) <==> NoConflict(m, a)
  {
    hide IsTarget;
    if NoConflict(m, a) {
      forall i | 0 <= i < |m.packages| && m.packages[i].name in b.published
        ensures RightIntegrity(b, m.packages[i])
      {
        if m.packages[i].name in a.published {
          GrowsKeepsRight(m, a, b, m.packages[i]);
        } else {
          var p := PackedPackage(m.packages[i].name, b.published[m.packages[i].name]);
          var j :| 0 <= j < |m.packages| && m.packages[j] == p;
        }
      }
    }
    if NoConflict(m, b) {
      forall i | 0 <= i < |m.packages| && m.packages[i].name in a.published
        ensures RightIntegrity(a, m.packages[i])
      {
        assert m.packages[i].name in b.published;
      }
    }
  }

  lemma AllStayRight(m: Manifest, a: Registry, b: Registry)
    requires AllRight(m, a) && Grows(m, a, b)
    ensures AllRight(m, b)
  {
    hide Right, Grows;
    forall k | 0 <= k < |m.packages|
      ensures Right(m, b, m.packages[k])
    {
      GrowsKeepsRight(m, a, b, m.packages[k]);
    }
  }

  lemma GrowsSelf(m: Manifest, a: Registry)
    ensures Grows(m, a, a)
  {
  }

  lemma PublishGrows(m: Manifest, a: Registry, b: Registry, i: nat)
    requires i < |m.packages| && PublishStep(m, a, b, m.packages[i])
    ensures Grows(m, a, b)
  {
    assert m.packages[i] == PackedPackage(m.packages[i].name, m.packages[i].integrity);
  }

  lemma TagGrows(m: Manifest, a: Registry, name: string, tag: string)
    requires IsTarget(m, a, (name, tag))
    ensures Grows(m, a, Tagged(m, a, name, tag))
  {
    hide IsPackage, IsTarget;
  }

  lemma UploadGrows(m: Manifest, i: nat, a: Registry, c: Registry)
    requires i < |m.packages| && Uploaded(m, i, a, c)
    ensures Grows(m, a, c) && RightIntegrity(c, m.packages[i])
    ensures var r := Tagged(m, c, m.packages[i].name, m.distTag); Grows(m, a, r) && Right(m, r, m.packages[i])
  {
    if PublishStep(m, a, c, m.packages[i]) {
      PublishGrows(m, a, c, i);
    } else {
      GrowsSelf(m, a);
    }
    hide Grows;
    assert IsTarget(m, c, (m.packages[i].name, m.distTag));
    TagGrows(m, c, m.packages[i].name, m.distTag);
    GrowsTrans(m, a, c, Tagged(m, c, m.packages[i].name, m.distTag));
  }

  /** What one package does, whatever the release tag. */
  lemma PackageFacts(m: Manifest, i: nat, a: Registry, b: Registry, outcome: Outcome)
    requires i < |m.packages| && PackageRun(m, i, a, b, outcome)
    ensures Grows(m, a, b)
    ensures outcome == Completed ==> Right(m, b, m.packages[i])
    ensures outcome == Failed ==> !NoConflict(m, a)
    ensures Right(m, a, m.packages[i]) ==> b == a
  {
    hide Grows, Right;
    GrowsSelf(m, a);
    forall c | Uploaded(m, i, a, c)
      ensures Grows(m, a, c)
      ensures var r := Tagged(m, c, m.packages[i].name, m.distTag); Grows(m, a, r) && Right(m, r, m.packages[i])
    {
      UploadGrows(m, i, a, c);
    }
    PackageIdle(m, i, a, b, outcome);
  }

  lemma PackageIdle(m: Manifest, i: nat, a: Registry, b: Registry, outcome: Outcome)
    requires i < |m.packages| && PackageRun(m, i, a, b, outcome)
    ensures Right(m, a, m.packages[i]) ==> b == a
  {
  }

  /** The entry package's `latest` moves within the loop only with the entry package itself,
      and only if it is the release tag or a tag the registry sets by itself. */
  lemma PackageLatest(m: Manifest, i: nat, a: Registry, b: Registry, outcome: Outcome)
    requires i < |m.packages| && PackageRun(m, i, a, b, outcome) && Latest(b) != Latest(a)
    ensures m.packages[i].name == RELEASE_ENTRY_PACKAGE && Latest(b) == Some(m.version)
    ensures m.distTag == LATEST_DIST_TAG || a.firstLatest
    ensures m.distTag == LATEST_DIST_TAG ==> Right(m, b, m.packages[i])
  {
  }

  /** The loop so far. */
  lemma {:induction false} LoopFacts(m: Manifest, k: nat, a: Registry, b: Registry, outcome: Outcome)
    requires ValidManifest(m) && k <= |m.packages| && LoopRun(m, k, a, b, outcome)
    ensures Grows(m, a, b)
    ensures outcome == Completed ==> forall j | 0 <= j < k :: Right(m, b, m.packages[j])
    ensures outcome == Failed ==> !NoConflict(m, a)
    ensures AllRight(m, a) ==> b == a
    ensures Latest(b) == Latest(a) || EntryPacked(m)
    ensures LatestLast(m, a.firstLatest) ==> LatestGuarded(m, a, b)
  {
    hide Grows, Right, NoConflict, PackageRun, LatestLast, Latest;
    if k == 0 {
      GrowsSelf(m, a);
    } else if outcome != Completed && LoopRun(m, k - 1, a, b, outcome) {
      LoopFacts(m, k - 1, a, b, outcome);
    } else {
      var c :| LoopVia(m, k, a, c, b, outcome);
      LoopFacts(m, k - 1, a, c, Completed);
      PackageFacts(m, k - 1, c, b, outcome);
      GrowsTrans(m, a, c, b);
      if outcome == Failed {
        GrowsKeepsNoConflict(m, a, c);
      }
      forall j | 0 <= j < k - 1
        ensures Right(m, b, m.packages[j])
      {
        GrowsKeepsRight(m, c, b, m.packages[j]);
      }
      if Latest(b) != Latest(c) {
        PackageLatest(m, k - 1, c, b, outcome);
      }
      if LatestLast(m, a.firstLatest) {
        LoopGuarded(m, k, a, c, b, outcome);
      }
    }
  }

  lemma LoopGuarded(m: Manifest, k: nat, a: Registry, c: Registry, b: Registry, outcome: Outcome)
    requires 0 < k <= |m.packages| && LatestLast(m, a.firstLatest) && LatestGuarded(m, a, c) && Grows(m, a, c)
    requires PackageRun(m, k - 1, c, b, outcome) && Grows(m, c, b)
    requires forall j | 0 <= j < k - 1 :: Right(m, b, m.packages[j])
    ensures LatestGuarded(m, a, b)
  {
    hide Right, Grows, Latest, PackageRun, LatestLast;
    GrowsSame(m, a, c);
    if Latest(b) == Latest(c) {
      if Latest(c) != Latest(a) {
        AllStayRight(m, c, b);
      }
    } else {
      PackageLatest(m, k - 1, c, b, outcome);
      EntryLast(m, a.firstLatest, k - 1);
    }
  }

  lemma GrowsSame(m: Manifest, a: Registry, b: Registry)
    requires Grows(m, a, b)
    ensures b.firstLatest == a.firstLatest
  {
  }

  lemma EntryLast(m: Manifest, firstLatest: bool, i: nat)
    requires LatestLast(m, firstLatest) && i < |m.packages| && m.packages[i].name == RELEASE_ENTRY_PACKAGE
    requires m.distTag == LATEST_DIST_TAG || firstLatest
    ensures m.distTag == LATEST_DIST_TAG && i == |m.packages| - 1
  {
  }

  /** What the end of a run does. */
  lemma FinalFacts(m: Manifest, a: Registry, b: Registry, outcome: Outcome)
    requires AllRight(m, a) && FinalRun(m, a, b, outcome)
    ensures Grows(m, a, b) && LatestGuarded(m, a, b)
    ensures outcome == Completed ==> Verified(m, b)
    ensures outcome == Failed ==> b == a && RELEASE_ENTRY_PACKAGE !in a.published && Latest(a) != Some(m.version)
    ensures outcome == Completed ==> RELEASE_ENTRY_PACKAGE in a.published || Latest(a) == Some(m.version)
    ensures Verified(m, a) ==> b == a
  {
    hide Right;
    var tagged := Tagged(m, a, RELEASE_ENTRY_PACKAGE, LATEST_DIST_TAG);
    TagGrows(m, a, RELEASE_ENTRY_PACKAGE, LATEST_DIST_TAG);
    GrowsSelf(m, a);
    AllStayRight(m, a, tagged);
    hide Grows, AllRight;
    assert Latest(tagged) == Some(m.version);
  }

  /** A run from a registry whose release is in place, or is not: what all runs keep. */
  lemma RunFacts(m: Manifest, a: Registry, b: Registry, outcome: Outcome)
    requires ValidManifest(m) && Run(m, a, b, outcome)
    ensures RunStep(m, a, b, outcome)
  {
    hide Grows, AllRight, NoConflict, EntryAvailable, LoopRun, FinalRun, Latest, LatestLast;
    if outcome != Completed && LoopRun(m, |m.packages|, a, b, outcome) {
      LoopFacts(m, |m.packages|, a, b, outcome);
    } else {
      var c :| LoopRun(m, |m.packages|, a, c, Completed) && FinalRun(m, c, b, outcome);
      LoopFacts(m, |m.packages|, a, c, Completed);
      LoopRight(m, c);
      FinalFacts(m, c, b, outcome);
      GrowsTrans(m, a, c, b);
      RightNoConflict(m, a, c);
      EntryBefore(m, a, c);
      if Latest(c) != Latest(a) && LatestLast(m, a.firstLatest) {
        AllStayRight(m, c, b);
        GrowsKeepsLatest(m, c, b);
      }
    }
  }

  /** A run that is not cut short completes exactly if nothing stood in its way, and then the
      release is in place. */
  lemma RunDecided(m: Manifest, a: Registry, b: Registry, outcome: Outcome)
    requires Run(m, a, b, outcome)
    ensures ValidManifest(m) && outcome != Crashed ==> (outcome == Completed <==> Publishable(m, a))
    ensures ValidManifest(m) && outcome == Completed ==> Released(m, b)
  {
    hide Run, Grows, LatestLast, LatestGuarded, Released, Publishable, NoConflict, EntryAvailable, Verified;
    if ValidManifest(m) {
      RunFacts(m, a, b, outcome);
    }
    PublishableIff(m, a);
    ReleasedIff(m, b);
  }

  lemma LoopRight(m: Manifest, c: Registry)
    requires forall j | 0 <= j < |m.packages| :: Right(m, c, m.packages[j])
    ensures AllRight(m, c)
  {
  }

  lemma GrowsKeepsLatest(m: Manifest, a: Registry, b: Registry)
    requires Grows(m, a, b) && Latest(a) == Some(m.version)
    ensures Latest(b) == Some(m.version)
  {
    hide IsPackage, IsTarget;
  }

  lemma RightNoConflict(m: Manifest, a: Registry, b: Registry)
    requires ValidManifest(m) && Grows(m, a, b) && AllRight(m, b)
    ensures NoConflict(m, a)
  {
    GrowsKeepsNoConflict(m, a, b);
  }

  /** With every package in place, the entry package's version exists exactly if it could be
      had from the start. */
  lemma EntryBefore(m: Manifest, a: Registry, b: Registry)
    requires Grows(m, a, b) && AllRight(m, b) && (Latest(b) == Latest(a) || EntryPacked(m))
    ensures RELEASE_ENTRY_PACKAGE in b.published || Latest(b) == Some(m.version) <==> EntryAvailable(m, a)
  {
    hide IsTarget;
    if EntryPacked(m) {
      var i :| 0 <= i < |m.packages| && m.packages[i].name == RELEASE_ENTRY_PACKAGE;
      assert Right(m, b, m.packages[i]);
    }
  }

  // ------------------------------------------------------ any number of restarted runs

  /** The registry before each run and after the last one. */
  ghost predicate History(m: Manifest, registries: seq<Registry>, outcomes: seq<Outcome>) {
    && |registries| == |outcomes| + 1
    && forall i | 0 <= i < |outcomes| :: Run(m, registries[i], registries[i + 1], outcomes[i])
  }

  /** Across any number of runs, crashed or not, no published version is ever replaced. */
  lemma {:induction false} HistoryGrows(m: Manifest, registries: seq<Registry>, outcomes: seq<Outcome>, i: nat, j: nat)
    requires ValidManifest(m) && History(m, registries, outcomes) && i <= j < |registries|
    ensures Grows(m, registries[i], registries[j])
  {
    hide Grows, Run;
    if i == j {
      GrowsSelf(m, registries[i]);
    } else {
      HistoryGrows(m, registries, outcomes, i, j - 1);
      RunFacts(m, registries[j - 1], registries[j], outcomes[j - 1]);
      GrowsTrans(m, registries[i], registries[j - 1], registries[j]);
    }
  }

  /** And `latest` of the entry package moves only onto a complete release, unless a command
      before the last can move it. */
  lemma {:induction false} HistorySafe(m: Manifest, registries: seq<Registry>, outcomes: seq<Outcome>, i: nat, j: nat)
    requires ValidManifest(m) && History(m, registries, outcomes) && i <= j < |registries|
    requires LatestLast(m, registries[0].firstLatest)
    ensures Grows(m, registries[i], registries[j])
    ensures LatestGuarded(m, registries[i], registries[j])
  {
    HistoryGrows(m, registries, outcomes, i, j);
    HistoryGrows(m, registries, outcomes, 0, j);
    if i < j {
      var k := j - 1;
      HistoryGrows(m, registries, outcomes, 0, k);
      HistorySafe(m, registries, outcomes, i, k);
      hide AllRight, NoConflict, EntryAvailable, Run, LatestLast;
      RunFacts(m, registries[k], registries[j], outcomes[k]);
      if Latest(registries[k]) != Latest(registries[i]) {
        AllStayRight(m, registries[k], registries[j]);
        GrowsKeepsLatest(m, registries[k], registries[j]);
      }
    }
  }

  lemma EntryStays(m: Manifest, a: Registry, b: Registry)
    requires Grows(m, a, b) && EntryAvailable(m, a)
    ensures EntryAvailable(m, b)
  {
    hide IsPackage, IsTarget;
    if Latest(a) == Some(m.version) {
      GrowsKeepsLatest(m, a, b);
    }
  }

  /** From a registry without conflicting content, however many runs crashed before, a run
      that is not cut short completes and leaves the release verified. */
  lemma HistoryConverges(m: Manifest, registries: seq<Registry>, outcomes: seq<Outcome>, i: nat)
    requires ValidManifest(m) && History(m, registries, outcomes) && i < |outcomes|
    requires NoConflict(m, registries[0]) && EntryAvailable(m, registries[0])
    ensures outcomes[i] != Failed
    ensures outcomes[i] == Completed ==> Verified(m, registries[i + 1])
  {
    hide Grows, NoConflict, EntryAvailable, Verified, Run, LatestLast;
    HistoryGrows(m, registries, outcomes, 0, i);
    GrowsKeepsNoConflict(m, registries[0], registries[i]);
    EntryStays(m, registries[0], registries[i]);
    RunFacts(m, registries[i], registries[i + 1], outcomes[i]);
  }

  /** With conflicting content no run ever completes, and the conflict is never overwritten. */
  lemma ConflictNeverCompletes(m: Manifest, registries: seq<Registry>, outcomes: seq<Outcome>, i: nat)
    requires ValidManifest(m) && History(m, registries, outcomes) && i < |outcomes|
    requires !NoConflict(m, registries[0])
    ensures outcomes[i] != Completed && !NoConflict(m, registries[i + 1])
  {
    hide Grows, NoConflict, EntryAvailable, Verified, Run, LatestLast;
    HistoryGrows(m, registries, outcomes, 0, i);
    HistoryGrows(m, registries, outcomes, 0, i + 1);
    GrowsKeepsNoConflict(m, registries[0], registries[i]);
    GrowsKeepsNoConflict(m, registries[0], registries[i + 1]);
    RunFacts(m, registries[i], registries[i + 1], outcomes[i]);
  }

  /** A verified release stays exactly as it is, whatever later runs do. */
  lemma {:induction false} VerifiedIsFinal(m: Manifest, registries: seq<Registry>, outcomes: seq<Outcome>,
                                           i: nat, j: nat)
    requires ValidManifest(m) && History(m, registries, outcomes) && i <= j < |registries|
    requires Verified(m, registries[i])
    ensures registries[j] == registries[i]
  {
    hide Grows, NoConflict, EntryAvailable, Verified, Run, LatestLast;
    if i < j {
      VerifiedIsFinal(m, registries, outcomes, i, j - 1);
      RunFacts(m, registries[j - 1], registries[j], outcomes[j - 1]);
    }
  }

  // ------------------------------------------------------------ when `latest` can move early

  /** A registry with the first `k` packages in place and nothing else. */
  ghost function Prefix(m: Manifest, k: nat, firstLatest: bool): Registry
    requires ValidManifest(m) && k <= |m.packages|
  {
    Registry(map j | 0 <= j < k :: m.packages[j].name := m.packages[j].integrity,
             map j | 0 <= j < k :: (m.packages[j].name, m.distTag) := m.version, firstLatest)
  }

  lemma PrefixRight(m: Manifest, k: nat, j: nat, firstLatest: bool)
    requires ValidManifest(m) && j < k <= |m.packages|
    ensures Right(m, Prefix(m, k, firstLatest), m.packages[j])
  {
    var p, r := m.packages[j], Prefix(m, k, firstLatest);
    assert p.name in r.published && (p.name, m.distTag) in r.tags;
  }

  /** A package in place is passed over. */
  lemma RightPackageRun(m: Manifest, i: nat, a: Registry)
    requires i < |m.packages| && Right(m, a, m.packages[i])
    ensures PackageRun(m, i, a, a, Completed)
  {
    hide PublishStep;
    assert Uploaded(m, i, a, a);
  }

  lemma {:induction false} PrefixRun(m: Manifest, i: nat, k: nat, firstLatest: bool)
    requires ValidManifest(m) && k <= i <= |m.packages|
    ensures var a := Prefix(m, i, firstLatest); LoopRun(m, k, a, a, Completed)
  {
    hide Prefix, PackageRun, Right;
    if k > 0 {
      PrefixRun(m, i, k - 1, firstLatest);
      PrefixRight(m, i, k - 1, firstLatest);
      var a := Prefix(m, i, firstLatest);
      RightPackageRun(m, k - 1, a);
      assert LoopVia(m, k, a, a, a, Completed);
    }
  }

  /** The publication of the entry package, at place `i`, moves `latest`, and the run dies. */
  lemma EarlyLatest(m: Manifest, i: nat, firstLatest: bool) returns (a: Registry, b: Registry)
    requires ValidManifest(m) && i < |m.packages| && m.packages[i].name == RELEASE_ENTRY_PACKAGE
    requires if m.distTag == LATEST_DIST_TAG then i < |m.packages| - 1 else firstLatest
    ensures a == Prefix(m, i, firstLatest) && Run(m, a, b, Crashed)
    ensures b.published == a.published[m.packages[i].name := m.packages[i].integrity]
    ensures b.tags == a.tags[(m.packages[i].name, LATEST_DIST_TAG) := m.version] && b.firstLatest == firstLatest
    ensures Latest(a) == None && Latest(b) == Some(m.version) && !AllRight(m, b)
  {
    var p := m.packages[i];
    a := Prefix(m, i, firstLatest);
    b := Registry(a.published[p.name := p.integrity], a.tags[(p.name, LATEST_DIST_TAG) := m.version], firstLatest);
    assert p.name !in a.published && (p.name, LATEST_DIST_TAG) !in a.tags;
    assert PublishStep(m, a, b, p);
    PrefixRun(m, i, i, firstLatest);
    assert Uploaded(m, i, a, b);
    assert PackageRun(m, i, a, b, Crashed);
    assert LoopVia(m, i + 1, a, a, b, Crashed);
    LoopStops(m, i + 1, a, b, Crashed);
    if m.distTag == LATEST_DIST_TAG {
      var last := |m.packages| - 1;
      assert m.packages[last].name !in b.published;
      assert !Right(m, b, m.packages[last]);
    } else {
      assert (p.name, m.distTag) !in b.tags;
      assert !Right(m, b, p);
    }
  }

  ghost predicate AlwaysGuarded(m: Manifest, firstLatest: bool) {
    forall a: Registry, b: Registry, outcome: Outcome | a.firstLatest == firstLatest && Run(m, a, b, outcome) ::
      LatestGuarded(m, a, b)
  }

  /** Every run from every registry moves `latest` only with every package in place, if and only
      if no command before the last one can move it. */
  lemma LatestGuardedIff(m: Manifest, firstLatest: bool)
    requires ValidManifest(m)
    ensures AlwaysGuarded(m, firstLatest) <==> LatestLast(m, firstLatest)
  {
    hide Run, LatestGuarded;
    if LatestLast(m, firstLatest) {
      forall a: Registry, b: Registry, outcome: Outcome | a.firstLatest == firstLatest && Run(m, a, b, outcome)
        ensures LatestGuarded(m, a, b)
      {
        RunFacts(m, a, b, outcome);
      }
    } else {
      var i :| 0 <= i < |m.packages| && m.packages[i].name == RELEASE_ENTRY_PACKAGE
        && !(if m.distTag == LATEST_DIST_TAG then i == |m.packages| - 1 else !firstLatest);
      var a, b := EarlyLatest(m, i, firstLatest);
      NotGuarded(m, a, b);
    }
  }

  lemma NotGuarded(m: Manifest, a: Registry, b: Registry)
    requires Latest(a) == None && Latest(b) == Some(m.version) && !AllRight(m, b)
    ensures !LatestGuarded(m, a, b)
  {
    hide AllRight;
  }

  /** With `latest` as the release tag and the entry package first, a run from an empty registry
      that dies behind its first package has moved `latest` onto an incomplete release. */
  lemma LatestAsReleaseTag(version: string, integrity: string, other: PackedPackage)
    requires other.name != RELEASE_ENTRY_PACKAGE
    ensures var m := Manifest([PackedPackage(RELEASE_ENTRY_PACKAGE, integrity), other], version, LATEST_DIST_TAG);
      var empty := Registry(map[], map[], false);
      var after := Registry(map[RELEASE_ENTRY_PACKAGE := integrity],
                            map[(RELEASE_ENTRY_PACKAGE, LATEST_DIST_TAG) := version], false);
      && ValidManifest(m) && Run(m, empty, after, Crashed)
      && Latest(empty) == None && Latest(after) == Some(version) && !AllRight(m, after)
  {
    var m := Manifest([PackedPackage(RELEASE_ENTRY_PACKAGE, integrity), other], version, LATEST_DIST_TAG);
    var empty := Registry(map[], map[], false);
    var a, b := EarlyLatest(m, 0, false);
  }
}
