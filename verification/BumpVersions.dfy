/**
 The version-bump tool: pre-release bumps pin workspace dependencies to exact
 versions, and what they overwrote is restored before the next regular bump.
 */
module BumpVersions {
  import opened Common

  type Deps = map<string, string>

  datatype Package = Package(
    name: string,
    version: string,
    dependencies: Option<Deps>,
    devDependencies: Option<Deps>,
    peerDependencies: Option<Deps>)

  /** The managed dependencies of one package, as kept in the pre-release file. */
  datatype SavedDeps = SavedDeps(dependencies: Deps, devDependencies: Deps, peerDependencies: Deps)

  /** What is typed when the tool asks for a peer dependency of a package; empty if the prompt is cancelled. */
  type PeerAnswers = (string, string) -> string

  // ---- One dependency ----

  predicate IsBumped(versions: Deps, name: string) {
    name in versions && versions[name] != ""
  }

  /** The new version of one dependency, none if it is not bumped; fails on an unexpected version format. */
  function UpdateDependencyVersion(versions: Deps, name: string, version: string, isPreRelease: bool)
    : Result<Option<string>, string>
  {
    if !IsBumped(versions, name) then Ok(None)
    else if "workspace:^" <= version then Ok(Some((if isPreRelease then "workspace:" else "workspace:^") + versions[name]))
    else if "workspace:~" <= version then Ok(Some((if isPreRelease then "workspace:" else "workspace:~") + versions[name]))
    else if "workspace:" <= version then Ok(Some("workspace:" + versions[name]))
    else Err("Unexpected version format")
  }

  /** In a regular bump the new version of a peer dependency is typed in. */
  function UpdatePeerDependencyVersion(package: string, versions: Deps, name: string, version: string, answers: PeerAnswers)
    : Result<Option<string>, string>
  {
    if !IsBumped(versions, name) then Ok(None)
    else if !("workspace:" <= version) then Err("Unexpected version format")
    else if answers(package, name) == "" then Ok(None)
    else Ok(Some("workspace:" + answers(package, name)))
  }

  // ---- One package ----

  /** How a section of a package is updated, entry by entry. */
  type Updater = (string, string) -> Result<Option<string>, string>

  function UpdaterFor(versions: Deps, isPreRelease: bool): Updater {
    (name, version) => UpdateDependencyVersion(versions, name, version, isPreRelease)
  }

  function PeerUpdaterFor(package: string, versions: Deps, isPreRelease: bool, answers: PeerAnswers): Updater {
    if isPreRelease then UpdaterFor(versions, true)
    else (name, version) => UpdatePeerDependencyVersion(package, versions, name, version, answers)
  }

  function Entry(update: Updater, deps: Deps, name: string): string
    requires name in deps
  {
    var r := update(name, deps[name]);
    if r.Ok? && r.value.Some? then r.value.value else deps[name]
  }

  predicate AllOk(update: Updater, deps: Deps) {
    forall name :: name in deps ==> update(name, deps[name]).Ok?
  }

  function UpdateSection(update: Updater, section: Option<Deps>): Option<Deps> {
    if section == None then None
    else Some(map name | name in section.value :: Entry(update, section.value, name))
  }

  predicate SectionOk(update: Updater, section: Option<Deps>) {
    section.Some? ==> AllOk(update, section.value)
  }

  /** A package with all its sections updated, or a failure that leaves it as it was on disk. */
  function UpdatePackage(p: Package, versions: Deps, isPreRelease: bool, answers: PeerAnswers): Result<Package, string> {
    var update := UpdaterFor(versions, isPreRelease);
    var updatePeers := PeerUpdaterFor(p.name, versions, isPreRelease, answers);
    if SectionOk(update, p.dependencies) && SectionOk(update, p.devDependencies) && SectionOk(updatePeers, p.peerDependencies) then
      Ok(Package(p.name, if IsBumped(versions, p.name) then versions[p.name] else p.version,
                 UpdateSection(update, p.dependencies),
                 UpdateSection(update, p.devDependencies),
                 UpdateSection(updatePeers, p.peerDependencies)))
    else
      Err("Unexpected version format")
  }

  /** Packages are written one by one; a failure keeps the ones written before it. */
  function BumpAll(disk: map<string, Package>, paths: seq<string>, versions: Deps, isPreRelease: bool, answers: PeerAnswers)
    : (r: (map<string, Package>, bool))
    requires forall p :: p in paths ==> p in disk
    ensures r.0.Keys == disk.Keys
    decreases |paths|
  {
    if paths == [] then (disk, true)
    else
      var updated := UpdatePackage(disk[paths[0]], versions, isPreRelease, answers);
      if updated.Err? then (disk, false)
      else BumpAll(disk[paths[0] := updated.value], paths[1..], versions, isPreRelease, answers)
  }

  // ---- Saving and restoring ----

  function ManagedPart(section: Option<Deps>, managed: set<string>): Deps {
    if section == None then map[] else map name | name in section.value && name in managed :: section.value[name]
  }

  function Save(p: Package, managed: set<string>): SavedDeps {
    SavedDeps(ManagedPart(p.dependencies, managed), ManagedPart(p.devDependencies, managed), ManagedPart(p.peerDependencies, managed))
  }

  function RestoreSection(section: Option<Deps>, saved: Deps): Option<Deps> {
    if section == None then None else Some(section.value + saved)
  }

  function Restore(p: Package, saved: SavedDeps): Package {
    p.(dependencies := RestoreSection(p.dependencies, saved.dependencies),
       devDependencies := RestoreSection(p.devDependencies, saved.devDependencies),
       peerDependencies := RestoreSection(p.peerDependencies, saved.peerDependencies))
  }

  ghost predicate SameDependencies(p: Package, q: Package) {
    p.dependencies == q.dependencies && p.devDependencies == q.devDependencies && p.peerDependencies == q.peerDependencies
  }

  /** The same keys, and different values only under managed names. */
  ghost predicate SectionDrifted(now: Option<Deps>, before: Option<Deps>, managed: set<string>) {
    && (now.Some? <==> before.Some?)
    && (now.Some? ==>
          && now.value.Keys == before.value.Keys
          && forall name :: name in now.value && name !in managed ==> now.value[name] == before.value[name])
  }

  /** What pre-release bumps may do to a package: nothing but new versions of managed dependencies. */
  ghost predicate Drifted(now: Package, before: Package, managed: set<string>) {
    && now.name == before.name
    && SectionDrifted(now.dependencies, before.dependencies, managed)
    && SectionDrifted(now.devDependencies, before.devDependencies, managed)
    && SectionDrifted(now.peerDependencies, before.peerDependencies, managed)
  }

  lemma UpdateSectionDrifts(update: Updater, now: Option<Deps>, before: Option<Deps>, managed: set<string>)
    requires SectionDrifted(now, before, managed)
    requires forall name, version :: name !in managed ==> update(name, version) == Ok(None)
    ensures SectionDrifted(UpdateSection(update, now), before, managed)
  {
  }

  lemma UpdatePackageDrifts(now: Package, before: Package, managed: set<string>, versions: Deps, isPreRelease: bool, answers: PeerAnswers)
    requires Drifted(now, before, managed) && versions.Keys <= managed
    requires UpdatePackage(now, versions, isPreRelease, answers).Ok?
    ensures Drifted(UpdatePackage(now, versions, isPreRelease, answers).value, before, managed)
  {
    var update, updatePeers := UpdaterFor(versions, isPreRelease), PeerUpdaterFor(now.name, versions, isPreRelease, answers);
    UpdateSectionDrifts(update, now.dependencies, before.dependencies, managed);
    UpdateSectionDrifts(update, now.devDependencies, before.devDependencies, managed);
    UpdateSectionDrifts(updatePeers, now.peerDependencies, before.peerDependencies, managed);
  }

  lemma RestoreSectionUndoes(now: Option<Deps>, before: Option<Deps>, managed: set<string>)
    requires SectionDrifted(now, before, managed)
    ensures RestoreSection(now, ManagedPart(before, managed)) == before
  {
    if now.Some? {
      var restored := now.value + ManagedPart(before, managed);
      assert restored.Keys == before.value.Keys;
      assert restored == before.value;
    }
  }

  /** Restoring a drifted package brings back all three dependency maps; its version stays bumped. */
  lemma RestoreUndoes(now: Package, before: Package, managed: set<string>)
    requires Drifted(now, before, managed)
    ensures SameDependencies(Restore(now, Save(before, managed)), before)
    ensures Restore(now, Save(before, managed)).version == now.version
  {
    RestoreSectionUndoes(now.dependencies, before.dependencies, managed);
    RestoreSectionUndoes(now.devDependencies, before.devDependencies, managed);
    RestoreSectionUndoes(now.peerDependencies, before.peerDependencies, managed);
  }

  // ---- Any number of bumps ----

  ghost predicate AllDrifted(now: map<string, Package>, before: map<string, Package>, managed: set<string>) {
    now.Keys == before.Keys && forall p :: p in now ==> Drifted(now[p], before[p], managed)
  }

  lemma {:induction false} BumpAllDrifts(now: map<string, Package>, before: map<string, Package>, managed: set<string>,
                                         paths: seq<string>, versions: Deps, isPreRelease: bool, answers: PeerAnswers)
    requires AllDrifted(now, before, managed) && versions.Keys <= managed
    requires forall p :: p in paths ==> p in now
    ensures AllDrifted(BumpAll(now, paths, versions, isPreRelease, answers).0, before, managed)
    decreases |paths|
  {
    if paths != [] {
      var updated := UpdatePackage(now[paths[0]], versions, isPreRelease, answers);
      if updated.Ok? {
        UpdatePackageDrifts(now[paths[0]], before[paths[0]], managed, versions, isPreRelease, answers);
        BumpAllDrifts(now[paths[0] := updated.value], before, managed, paths[1..], versions, isPreRelease, answers);
      }
    }
  }

  datatype Bump = Bump(versions: Deps, isPreRelease: bool, answers: PeerAnswers)

  function BumpMany(disk: map<string, Package>, paths: seq<string>, bumps: seq<Bump>): (r: map<string, Package>)
    requires forall p :: p in paths ==> p in disk
    ensures r.Keys == disk.Keys
    decreases |bumps|
  {
    if bumps == [] then disk
    else BumpMany(BumpAll(disk, paths, bumps[0].versions, bumps[0].isPreRelease, bumps[0].answers).0, paths, bumps[1..])
  }

  /**
   Save, any number of bumps, completed or failing halfway, then restore: every
   package has the dependency maps it had when they were saved, and along the way
   only versions of managed packages changed.
   */
  lemma {:induction false} SaveBumpRestore(saved: map<string, Package>, now: map<string, Package>, managed: set<string>,
                                           paths: seq<string>, bumps: seq<Bump>)
    requires AllDrifted(now, saved, managed) && forall p :: p in paths ==> p in now
    requires forall b :: b in bumps ==> b.versions.Keys <= managed
    ensures AllDrifted(BumpMany(now, paths, bumps), saved, managed)
    ensures forall p :: p in now ==> SameDependencies(Restore(BumpMany(now, paths, bumps)[p], Save(saved[p], managed)), saved[p])
    decreases |bumps|
  {
    if bumps == [] {
      forall p | p in now ensures SameDependencies(Restore(now[p], Save(saved[p], managed)), saved[p]) {
        RestoreUndoes(now[p], saved[p], managed);
      }
    } else {
      var b := bumps[0];
      BumpAllDrifts(now, saved, managed, paths, b.versions, b.isPreRelease, b.answers);
      SaveBumpRestore(saved, BumpAll(now, paths, b.versions, b.isPreRelease, b.answers).0, managed, paths, bumps[1..]);
    }
  }

  // ---- Ranges ----

  datatype Range = Caret | Tilde | Exact

  function RangeOf(version: string): Option<Range> {
    if "workspace:^" <= version then Some(Caret)
    else if "workspace:~" <= version then Some(Tilde)
    else if "workspace:" <= version then Some(Exact)
    else None
  }

  lemma UpdateFailsIff(versions: Deps, name: string, version: string, isPreRelease: bool)
    ensures UpdateDependencyVersion(versions, name, version, isPreRelease).Err? <==> IsBumped(versions, name) && RangeOf(version) == None
  {
  }

  // ---- When a bump fails halfway ----

  /** Some bumped dependency names no workspace range. */
  predicate UnexpectedIn(section: Option<Deps>, versions: Deps) {
    section.Some? && exists name :: name in section.value && IsBumped(versions, name) && RangeOf(section.value[name]) == None
  }

  predicate Unexpected(p: Package, versions: Deps) {
    UnexpectedIn(p.dependencies, versions) || UnexpectedIn(p.devDependencies, versions) || UnexpectedIn(p.peerDependencies, versions)
  }

  /** An updater of a section that fails exactly on versions without a range, and gives versions with one. */
  ghost predicate Expects(update: Updater, versions: Deps) {
    forall name, version ::
      && (update(name, version).Err? <==> IsBumped(versions, name) && RangeOf(version) == None)
      && (update(name, version).Ok? && update(name, version).value.Some? ==> RangeOf(update(name, version).value.value).Some?)
  }

  lemma UpdatersExpect(package: string, versions: Deps, isPreRelease: bool, answers: PeerAnswers)
    ensures Expects(UpdaterFor(versions, isPreRelease), versions)
    ensures Expects(PeerUpdaterFor(package, versions, isPreRelease, answers), versions)
  {
    PlainUpdaterExpects(versions, isPreRelease);
    PlainUpdaterExpects(versions, true);
    if !isPreRelease {
      PeerUpdaterExpects(package, versions, answers);
    }
  }

  lemma PlainUpdaterExpects(versions: Deps, isPreRelease: bool)
    ensures Expects(UpdaterFor(versions, isPreRelease), versions)
  {
    forall name, version
      ensures var r := UpdaterFor(versions, isPreRelease)(name, version);
              && (r.Err? <==> IsBumped(versions, name) && RangeOf(version) == None)
              && (r.Ok? && r.value.Some? ==> RangeOf(r.value.value).Some?)
    {
      UpdateFailsIff(versions, name, version, isPreRelease);
      if IsBumped(versions, name) {
        HasRange("workspace:", versions[name]);
        HasRange("workspace:^", versions[name]);
        HasRange("workspace:~", versions[name]);
      }
    }
  }

  lemma PeerUpdaterExpects(package: string, versions: Deps, answers: PeerAnswers)
    ensures Expects(PeerUpdaterFor(package, versions, false, answers), versions)
  {
    forall name, version
      ensures var r := PeerUpdaterFor(package, versions, false, answers)(name, version);
              && (r.Err? <==> IsBumped(versions, name) && RangeOf(version) == None)
              && (r.Ok? && r.value.Some? ==> RangeOf(r.value.value).Some?)
    {
      RangeIff(version);
      HasRange("workspace:", answers(package, name));
    }
  }

  lemma RangeIff(version: string)
    ensures RangeOf(version).Some? <==> "workspace:" <= version
  {
    assert "workspace:" <= "workspace:^" && "workspace:" <= "workspace:~";
  }

  lemma HasRange(prefix: string, version: string)
    requires "workspace:" <= prefix
    ensures RangeOf(prefix + version).Some?
  {
    assert "workspace:" <= prefix + version;
  }

  /** A section updated without failure would be updated without failure again. */
  lemma SectionStaysExpected(update: Updater, section: Option<Deps>, versions: Deps)
    requires Expects(update, versions)
    ensures SectionOk(update, section) <==> !UnexpectedIn(section, versions)
    ensures SectionOk(update, section) ==> !UnexpectedIn(UpdateSection(update, section), versions)
  {
    if section.Some? && SectionOk(update, section) {
      forall name | name in section.value && IsBumped(versions, name)
        ensures RangeOf(Entry(update, section.value, name)).Some?
      {
        assert update(name, section.value[name]).Ok?;
      }
    }
  }

  lemma UpdatePackageFailsIff(p: Package, versions: Deps, isPreRelease: bool, answers: PeerAnswers)
    ensures var r := UpdatePackage(p, versions, isPreRelease, answers);
            (r.Err? <==> Unexpected(p, versions)) && (r.Ok? ==> !Unexpected(r.value, versions))
  {
    var update, updatePeers := UpdaterFor(versions, isPreRelease), PeerUpdaterFor(p.name, versions, isPreRelease, answers);
    UpdatersExpect(p.name, versions, isPreRelease, answers);
    SectionStaysExpected(update, p.dependencies, versions);
    SectionStaysExpected(update, p.devDependencies, versions);
    SectionStaysExpected(updatePeers, p.peerDependencies, versions);
  }

  /**
   A bump fails if and only if some package it comes to has, in any of its three
   sections, a bumped dependency without a workspace range; answers typed and the
   kind of bump do not matter.
   */
  lemma {:induction false} BumpFailsIff(disk: map<string, Package>, paths: seq<string>, versions: Deps, isPreRelease: bool, answers: PeerAnswers)
    requires forall p :: p in paths ==> p in disk
    ensures !BumpAll(disk, paths, versions, isPreRelease, answers).1 <==> exists p :: p in paths && Unexpected(disk[p], versions)
    decreases |paths|
  {
    if paths != [] {
      var first := paths[0];
      var updated := UpdatePackage(disk[first], versions, isPreRelease, answers);
      UpdatePackageFailsIff(disk[first], versions, isPreRelease, answers);
      if updated.Ok? {
        var disk' := disk[first := updated.value];
        BumpFailsIff(disk', paths[1..], versions, isPreRelease, answers);
        forall p | p in paths[1..] ensures Unexpected(disk'[p], versions) <==> Unexpected(disk[p], versions) {
        }
        assert forall p :: p in paths <==> p == first || p in paths[1..];
      } else {
        assert first in paths && Unexpected(disk[first], versions);
      }
    }
  }

  // ---- What a bump writes ----

  /** A package has the version given for it, or the one it had. */
  predicate VersionFollows(before: Package, after: Package, versions: Deps) {
    && after.name == before.name
    && after.version == if before.name in versions && versions[before.name] != "" then versions[before.name] else before.version
  }

  /** A dependency on a bumped package is the new version behind its own range, or behind none in a pre-release; any other stays. */
  predicate EntryFollows(name: string, before: string, after: string, versions: Deps, isPreRelease: bool) {
    if name in versions && versions[name] != "" then
      && "workspace:" <= before
      && (isPreRelease ==> after == "workspace:" + versions[name])
      && (!isPreRelease && "workspace:^" <= before ==> after == "workspace:^" + versions[name])
      && (!isPreRelease && "workspace:~" <= before ==> after == "workspace:~" + versions[name])
      && (!isPreRelease && !("workspace:^" <= before) && !("workspace:~" <= before) ==> after == "workspace:" + versions[name])
    else after == before
  }

  /** In a regular bump a peer dependency on a bumped package is the version typed for it, or stays if none was typed. */
  predicate PeerFollows(package: string, name: string, before: string, after: string, versions: Deps, answers: PeerAnswers) {
    if name in versions && versions[name] != "" && answers(package, name) != "" then
      "workspace:" <= before && after == "workspace:" + answers(package, name)
    else after == before
  }

  predicate SectionFollows(before: Option<Deps>, after: Option<Deps>, versions: Deps, isPreRelease: bool) {
    && (after.Some? <==> before.Some?)
    && (before.Some? ==>
          && after.value.Keys == before.value.Keys
          && forall name :: name in before.value ==> EntryFollows(name, before.value[name], after.value[name], versions, isPreRelease))
  }

  predicate PeersFollow(package: string, before: Option<Deps>, after: Option<Deps>, versions: Deps, answers: PeerAnswers) {
    && (after.Some? <==> before.Some?)
    && (before.Some? ==>
          && after.value.Keys == before.value.Keys
          && forall name :: name in before.value ==> PeerFollows(package, name, before.value[name], after.value[name], versions, answers))
  }

  predicate DependenciesFollow(before: Package, after: Package, versions: Deps, isPreRelease: bool, answers: PeerAnswers) {
    && SectionFollows(before.dependencies, after.dependencies, versions, isPreRelease)
    && SectionFollows(before.devDependencies, after.devDependencies, versions, isPreRelease)
    && if isPreRelease then SectionFollows(before.peerDependencies, after.peerDependencies, versions, true)
       else PeersFollow(before.name, before.peerDependencies, after.peerDependencies, versions, answers)
  }

  lemma UpdateFollows(p: Package, versions: Deps, isPreRelease: bool, answers: PeerAnswers)
    requires UpdatePackage(p, versions, isPreRelease, answers).Ok?
    ensures var q := UpdatePackage(p, versions, isPreRelease, answers).value;
            VersionFollows(p, q, versions) && DependenciesFollow(p, q, versions, isPreRelease, answers)
  {
    var q := UpdatePackage(p, versions, isPreRelease, answers).value;
    SectionUpdateFollows(p.dependencies, versions, isPreRelease);
    SectionUpdateFollows(p.devDependencies, versions, isPreRelease);
    if isPreRelease {
      SectionUpdateFollows(p.peerDependencies, versions, true);
    } else {
      PeerUpdateFollows(p.name, p.peerDependencies, versions, answers);
    }
  }

  lemma SectionUpdateFollows(section: Option<Deps>, versions: Deps, isPreRelease: bool)
    requires SectionOk(UpdaterFor(versions, isPreRelease), section)
    ensures SectionFollows(section, UpdateSection(UpdaterFor(versions, isPreRelease), section), versions, isPreRelease)
  {
    if section.Some? {
      var update := UpdaterFor(versions, isPreRelease);
      forall name | name in section.value
        ensures EntryFollows(name, section.value[name], Entry(update, section.value, name), versions, isPreRelease)
      {
        assert update(name, section.value[name]).Ok?;
        OneUpdateFollows(name, section.value[name], versions, isPreRelease);
      }
    }
  }

  lemma OneUpdateFollows(name: string, before: string, versions: Deps, isPreRelease: bool)
    requires UpdateDependencyVersion(versions, name, before, isPreRelease).Ok?
    ensures var r := UpdateDependencyVersion(versions, name, before, isPreRelease).value;
            EntryFollows(name, before, if r.Some? then r.value else before, versions, isPreRelease)
  {
    RangeIff(before);
    assert "workspace:^" <= before ==> before[10] == '^';
    assert "workspace:~" <= before ==> before[10] == '~';
  }

  lemma PeerUpdateFollows(package: string, section: Option<Deps>, versions: Deps, answers: PeerAnswers)
    requires SectionOk(PeerUpdaterFor(package, versions, false, answers), section)
    ensures PeersFollow(package, section, UpdateSection(PeerUpdaterFor(package, versions, false, answers), section), versions, answers)
  {
    if section.Some? {
      var update := PeerUpdaterFor(package, versions, false, answers);
      forall name | name in section.value
        ensures PeerFollows(package, name, section.value[name], Entry(update, section.value, name), versions, answers)
      {
        assert update(name, section.value[name]).Ok?;
      }
    }
  }

  ghost predicate NoRepeats(paths: seq<string>) {
    forall i, j :: 0 <= i < j < |paths| ==> paths[i] != paths[j]
  }

  /** A written package: its version follows and, unless it was written more than once, so do its dependencies. */
  ghost predicate Written(before: Package, after: Package, once: bool, versions: Deps, isPreRelease: bool, answers: PeerAnswers) {
    VersionFollows(before, after, versions) && (once ==> DependenciesFollow(before, after, versions, isPreRelease, answers))
  }

  /** The first k packages have been written and no others, and the next one, if any, has a dependency in an unexpected format. */
  ghost predicate WrittenUpTo(before: map<string, Package>, after: map<string, Package>, paths: seq<string>, k: nat,
                              versions: Deps, isPreRelease: bool, answers: PeerAnswers) {
    && k <= |paths| && after.Keys == before.Keys && (forall p :: p in paths ==> p in before)
    && (forall p :: p in paths[..k] ==> Written(before[p], after[p], NoRepeats(paths), versions, isPreRelease, answers))
    && (forall p :: p in before && p !in paths[..k] ==> after[p] == before[p])
    && (k < |paths| ==> paths[k] !in paths[..k] && Unexpected(before[paths[k]], versions))
  }

  /** A bump writes the packages in order, up to the first that has a dependency in an unexpected format. */
  lemma {:induction false} BumpWrites(disk: map<string, Package>, paths: seq<string>, versions: Deps, isPreRelease: bool, answers: PeerAnswers)
    returns (k: nat)
    requires forall p :: p in paths ==> p in disk
    ensures WrittenUpTo(disk, BumpAll(disk, paths, versions, isPreRelease, answers).0, paths, k, versions, isPreRelease, answers)
    ensures BumpAll(disk, paths, versions, isPreRelease, answers).1 <==> k == |paths|
    decreases |paths|
  {
    k := 0;
    NothingWritten(disk, paths, versions, isPreRelease, answers);
    if paths != [] {
      var first := paths[0];
      var updated := UpdatePackage(disk[first], versions, isPreRelease, answers);
      UpdatePackageFailsIff(disk[first], versions, isPreRelease, answers);
      if updated.Ok? {
        UpdateFollows(disk[first], versions, isPreRelease, answers);
        var between := disk[first := updated.value];
        var k' := BumpWrites(between, paths[1..], versions, isPreRelease, answers);
        k := k' + 1;
        WrittenOneMore(disk, updated.value, BumpAll(between, paths[1..], versions, isPreRelease, answers).0, paths, k',
                       versions, isPreRelease, answers);
      }
    }
  }

  lemma NothingWritten(disk: map<string, Package>, paths: seq<string>, versions: Deps, isPreRelease: bool, answers: PeerAnswers)
    requires forall p :: p in paths ==> p in disk
    ensures paths == [] || Unexpected(disk[paths[0]], versions)
            ==> WrittenUpTo(disk, disk, paths, 0, versions, isPreRelease, answers)
  {
  }

  lemma WrittenOneMore(before: map<string, Package>, first: Package, after: map<string, Package>, paths: seq<string>, k: nat,
                       versions: Deps, isPreRelease: bool, answers: PeerAnswers)
    requires paths != [] && forall p :: p in paths ==> p in before
    requires Written(before[paths[0]], first, true, versions, isPreRelease, answers) && !Unexpected(first, versions)
    requires WrittenUpTo(before[paths[0] := first], after, paths[1..], k, versions, isPreRelease, answers)
    ensures WrittenUpTo(before, after, paths, k + 1, versions, isPreRelease, answers)
  {
    var between, later := before[paths[0] := first], paths[1..];
    assert paths[..k + 1] == [paths[0]] + later[..k];
    if NoRepeats(paths) {
      RepeatsLater(paths);
    }
    forall p | p in paths[..k + 1]
      ensures Written(before[p], after[p], NoRepeats(paths), versions, isPreRelease, answers)
    {
      if p in later[..k] {
        assert Written(between[p], after[p], NoRepeats(later), versions, isPreRelease, answers);
      } else {
        assert p == paths[0] && after[p] == between[p] == first;
      }
    }
    if k < |later| {
      assert later[k] != paths[0];
    }
  }

  lemma RepeatsLater(paths: seq<string>)
    requires paths != [] && NoRepeats(paths)
    ensures NoRepeats(paths[1..]) && paths[0] !in paths[1..]
  {
  }

  // ---- Why the state has to be saved ----

  function PreReleased(versions: Deps, name: string, version: string): string
    requires IsBumped(versions, name) && RangeOf(version).Some?
  {
    UpdateDependencyVersion(versions, name, version, true).value.value
  }

  /** No function of the result undoes a pre-release bump: whichever is tried, it fails for some version. */
  lemma NoUndoWithoutSave(versions: Deps, name: string, undo: string -> string)
    requires IsBumped(versions, name)
    ensures exists v: string :: RangeOf(v).Some? && undo(PreReleased(versions, name, v)) != v
  {
    var v, w := "workspace:^", "workspace:~";
    assert PreReleased(versions, name, v) == PreReleased(versions, name, w);
    assert v[10] != w[10];
  }

  /** A regular bump keeps the range unless an exact range meets a version typed with an operator of its own. */
  lemma RegularBumpKeepsRangeIff(versions: Deps, name: string, version: string)
    requires IsBumped(versions, name) && RangeOf(version).Some?
    ensures var updated := UpdateDependencyVersion(versions, name, version, false).value.value;
            RangeOf(updated) == RangeOf(version)
            <==> RangeOf(version) != Some(Exact) || versions[name][0] !in {'^', '~'}
  {
    var updated := UpdateDependencyVersion(versions, name, version, false).value.value;
    if RangeOf(version) == Some(Exact) {
      assert updated[|"workspace:"|] == versions[name][0];
    }
  }
}
