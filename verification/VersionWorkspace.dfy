/** The workspace the version-bump tool works on: package files, and the pre-release file if there is one. */
module VersionWorkspace {
  import opened Common
  import opened BumpVersions

  datatype Action = RegularBump | PreReleaseBump

  /** The packages selected and the versions typed for them, or none if the selection was cancelled. */
  type Selection = Option<seq<(string, string)>>

  function NamesOf(disk: map<string, Package>, paths: seq<string>): set<string> {
    set p | p in paths && p in disk :: disk[p].name
  }

  function Selected(disk: map<string, Package>, selection: seq<(string, string)>): Deps
    requires forall s :: s in selection ==> s.0 in disk
  {
    if selection == [] then map[]
    else
      var (path, version) := selection[|selection| - 1];
      var earlier := Selected(disk, selection[..|selection| - 1]);
      if version == "" then earlier else earlier[disk[path].name := version]
  }

  /** The version typed last for a package of this name, prompts left empty not counting. */
  ghost predicate Typed(disk: map<string, Package>, selection: seq<(string, string)>, name: string, version: string)
    requires forall s :: s in selection ==> s.0 in disk
  {
    version != "" && exists i :: 0 <= i < |selection| && IsLastTyped(disk, selection, name, i) && selection[i].1 == version
  }

  ghost predicate IsLastTyped(disk: map<string, Package>, selection: seq<(string, string)>, name: string, i: nat)
    requires i < |selection| && forall s :: s in selection ==> s.0 in disk
  {
    && disk[selection[i].0].name == name && selection[i].1 != ""
    && forall j :: i < j < |selection| ==> disk[selection[j].0].name != name || selection[j].1 == ""
  }

  /** The versions taken from the prompts are exactly the ones typed last. */
  lemma {:induction false} SelectedIsTyped(disk: map<string, Package>, selection: seq<(string, string)>, name: string)
    requires forall s :: s in selection ==> s.0 in disk
    ensures name in Selected(disk, selection) ==> Typed(disk, selection, name, Selected(disk, selection)[name])
    ensures forall v :: Typed(disk, selection, name, v) ==> name in Selected(disk, selection) && Selected(disk, selection)[name] == v
  {
    if selection != [] {
      var n := |selection| - 1;
      var earlier, last := selection[..n], selection[n];
      assert last in selection;
      SelectedIsTyped(disk, earlier, name);
      if disk[last.0].name == name && last.1 != "" {
        assert IsLastTyped(disk, selection, name, n);
        forall i | 0 <= i < n ensures !IsLastTyped(disk, selection, name, i) {
          assert disk[selection[n].0].name == name;
        }
      } else {
        forall v ensures Typed(disk, selection, name, v) <==> Typed(disk, earlier, name, v) {
          TypedBefore(disk, selection, name, v);
        }
      }
    }
  }

  lemma TypedBefore(disk: map<string, Package>, selection: seq<(string, string)>, name: string, version: string)
    requires selection != [] && forall s :: s in selection ==> s.0 in disk
    requires disk[selection[|selection| - 1].0].name != name || selection[|selection| - 1].1 == ""
    ensures Typed(disk, selection, name, version) <==> Typed(disk, selection[..|selection| - 1], name, version)
  {
    var earlier := selection[..|selection| - 1];
    assert forall s :: s in earlier ==> s in selection;
    forall i | 0 <= i < |earlier| ensures IsLastTyped(disk, selection, name, i) <==> IsLastTyped(disk, earlier, name, i) {
      if IsLastTyped(disk, earlier, name, i) {
        forall j | i < j < |selection| ensures disk[selection[j].0].name != name || selection[j].1 == "" {
          assert j < |earlier| ==> earlier[j] == selection[j];
        }
      } else {
        assert forall j :: 0 <= j < |earlier| ==> earlier[j] == selection[j];
      }
    }
  }

  lemma {:induction false} SelectedIsManaged(disk: map<string, Package>, selection: seq<(string, string)>, paths: seq<string>)
    requires forall s :: s in selection ==> s.0 in disk && s.0 in paths
    ensures Selected(disk, selection).Keys <= NamesOf(disk, paths)
  {
    if selection != [] {
      SelectedIsManaged(disk, selection[..|selection| - 1], paths);
    }
  }

  lemma DriftKeepsNames(now: map<string, Package>, before: map<string, Package>, managed: set<string>, paths: seq<string>)
    requires AllDrifted(now, before, managed)
    ensures NamesOf(now, paths) == NamesOf(before, paths)
  {
    assert forall p :: p in paths && p in now ==> now[p].name == before[p].name;
  }

  lemma BumpStaysDrifted(disk: map<string, Package>, baseline: map<string, Package>, managedPaths: seq<string>,
                         paths: seq<string>, versions: Deps, isPreRelease: bool, answers: PeerAnswers)
    requires AllDrifted(disk, baseline, NamesOf(disk, managedPaths)) && versions.Keys <= NamesOf(disk, managedPaths)
    requires forall p :: p in paths ==> p in disk
    ensures var after := BumpAll(disk, paths, versions, isPreRelease, answers).0;
            NamesOf(after, managedPaths) == NamesOf(disk, managedPaths) && AllDrifted(after, baseline, NamesOf(disk, managedPaths))
  {
    var managed := NamesOf(disk, managedPaths);
    BumpAllDrifts(disk, baseline, managed, paths, versions, isPreRelease, answers);
    DriftKeepsNames(BumpAll(disk, paths, versions, isPreRelease, answers).0, baseline, managed, managedPaths);
    DriftKeepsNames(disk, baseline, managed, managedPaths);
  }

  /** The packages on disk, those at the given paths restored. */
  function RestoreThose(disk: map<string, Package>, state: map<string, SavedDeps>, paths: set<string>): map<string, Package>
    requires paths <= state.Keys
  {
    map p | p in disk :: if p in paths then Restore(disk[p], state[p]) else disk[p]
  }

  lemma RestoreNone(disk: map<string, Package>, state: map<string, SavedDeps>)
    ensures RestoreThose(disk, state, {}) == disk
  {
  }

  lemma RestoreOneMore(disk: map<string, Package>, state: map<string, SavedDeps>, paths: set<string>, path: string)
    requires paths <= state.Keys && path in state && path in disk && path !in paths
    ensures var now := RestoreThose(disk, state, paths);
            path in now && now[path := Restore(now[path], state[path])] == RestoreThose(disk, state, paths + {path})
  {
  }

  lemma RestoreThoseUndoes(disk: map<string, Package>, before: map<string, Package>, state: map<string, SavedDeps>, managed: set<string>)
    requires AllDrifted(disk, before, managed) && state.Keys <= disk.Keys
    requires forall p :: p in state ==> state[p] == Save(before[p], managed)
    ensures forall p :: p in state ==> SameDependencies(RestoreThose(disk, state, state.Keys)[p], before[p])
  {
    forall p | p in state ensures SameDependencies(Restore(disk[p], state[p]), before[p]) {
      RestoreUndoes(disk[p], before[p], managed);
    }
  }

  class Workspace {
    const workspacePaths: seq<string>
    const managedPaths: seq<string>
    var disk: map<string, Package>
    /** The pre-release file. */
    var saved: Option<map<string, SavedDeps>>
    /** The packages as they were when the pre-release file was written. */
    ghost var baseline: map<string, Package>

    ghost function Managed(): set<string>
      reads this
    {
      NamesOf(disk, managedPaths)
    }

    ghost predicate Valid()
      reads this
    {
      && (forall p :: p in workspacePaths || p in managedPaths ==> p in disk)
      && (saved.Some? ==>
            && AllDrifted(disk, baseline, Managed())
            && saved.value.Keys == (set p | p in workspacePaths)
            && forall p :: p in workspacePaths ==> saved.value[p] == Save(baseline[p], Managed()))
    }

    constructor (workspacePaths: seq<string>, managedPaths: seq<string>, disk: map<string, Package>)
      requires forall p :: p in workspacePaths || p in managedPaths ==> p in disk
      ensures Valid() && this.disk == disk && saved == None
      ensures this.workspacePaths == workspacePaths && this.managedPaths == managedPaths
    {
      this.workspacePaths, this.managedPaths, this.disk, saved := workspacePaths, managedPaths, disk, None;
    }

    /** One run of the tool. A bump may stop halfway; what was saved before it stays saved. */
    method Run(action: Action, selection: Selection, answers: PeerAnswers)
      returns (ok: bool, ghost start: map<string, Package>, ghost written: nat)
      requires Valid()
      requires selection.Some? ==> forall s :: s in selection.value ==> s.0 in managedPaths
      modifies this
      ensures Valid() && start.Keys == disk.Keys == old(disk).Keys
      ensures action == PreReleaseBump ==> saved.Some? && start == old(disk)
      ensures action == PreReleaseBump ==> baseline == if old(saved).Some? then old(baseline) else old(disk)
      ensures action == RegularBump ==> saved == None
      ensures action == RegularBump && old(saved) == None ==> start == old(disk)
      ensures action == RegularBump && old(saved).Some? ==>
                forall p :: p in workspacePaths ==> SameDependencies(start[p], old(baseline)[p])
      ensures selection == None ==> !ok && disk == start
      ensures selection.Some? ==>
                && (ok <==> written == |workspacePaths|)
                && WrittenUpTo(start, disk, workspacePaths, written, Selected(start, selection.value), action == PreReleaseBump, answers)
    {
      match action {
        case RegularBump =>
          if saved.Some? {
            RestoreVersionState();
          }
        case PreReleaseBump =>
          if saved == None {
            SaveVersionState();
          }
      }
      start := disk;
      ok, written := BumpVersions(selection, action == PreReleaseBump, answers);
    }

    method SaveVersionState()
      requires Valid() && saved == None
      modifies `saved, `baseline
      ensures Valid() && saved.Some? && baseline == disk
    {
      var managed: set<string> := {};
      for i := 0 to |managedPaths|
        invariant managed == NamesOf(disk, managedPaths[..i])
      {
        managed := managed + {disk[managedPaths[i]].name};
        assert managedPaths[..i + 1] == managedPaths[..i] + [managedPaths[i]];
      }
      assert managedPaths[..|managedPaths|] == managedPaths;
      var state := map[];
      for i := 0 to |workspacePaths|
        invariant state.Keys == set p | p in workspacePaths[..i]
        invariant forall p :: p in workspacePaths[..i] ==> state[p] == Save(disk[p], managed)
      {
        var package := disk[workspacePaths[i]];
        var dependencies := CollectManaged(package.dependencies, managed);
        var devDependencies := CollectManaged(package.devDependencies, managed);
        var peerDependencies := CollectManaged(package.peerDependencies, managed);
        state := state[workspacePaths[i] := SavedDeps(dependencies, devDependencies, peerDependencies)];
        assert workspacePaths[..i + 1] == workspacePaths[..i] + [workspacePaths[i]];
      }
      assert workspacePaths[..|workspacePaths|] == workspacePaths;
      saved, baseline := Some(state), disk;
    }

    /** Collects the managed entries of a section. */
    static method CollectManaged(section: Option<Deps>, managed: set<string>) returns (r: Deps)
      ensures r == ManagedPart(section, managed)
    {
      r := map[];
      var deps := if section.Some? then section.value else map[];
      var rest := deps.Keys;
      while rest != {}
        invariant rest <= deps.Keys
        invariant r == map name | name in deps && name !in rest && name in managed :: deps[name]
        decreases |rest|
      {
        var name :| name in rest;
        rest := rest - {name};
        if name in managed {
          r := r[name := deps[name]];
        }
      }
    }

    method RestoreVersionState()
      requires Valid() && saved.Some?
      modifies `saved, `disk
      ensures Valid() && saved == None && disk.Keys == old(disk).Keys
      ensures forall p :: p in workspacePaths ==> SameDependencies(disk[p], baseline[p])
      ensures forall p :: p in disk ==> disk[p].version == old(disk)[p].version && disk[p].name == old(disk)[p].name
    {
      RestoreThoseUndoes(disk, baseline, saved.value, Managed());
      WriteRestored(saved.value);
      saved := None;
    }

    /** Writes the saved dependencies into the packages, one after the other. */
    method WriteRestored(state: map<string, SavedDeps>)
      requires state.Keys <= disk.Keys
      modifies `disk
      ensures disk == RestoreThose(old(disk), state, state.Keys)
    {
      var written: set<string> := {};
      RestoreNone(disk, state);
      while written != state.Keys
        invariant written <= state.Keys
        invariant disk == RestoreThose(old(disk), state, written)
        decreases |state.Keys - written|
      {
        var rest := state.Keys - written;
        assert rest != {};
        var path :| path in rest;
        RestoreOneMore(old(disk), state, written, path);
        assert rest - {path} == state.Keys - (written + {path});
        disk := disk[path := Restore(disk[path], state[path])];
        written := written + {path};
      }
    }

    method BumpVersions(selection: Selection, isPreRelease: bool, answers: PeerAnswers) returns (ok: bool, ghost written: nat)
      requires Valid() && (saved.Some? <==> isPreRelease)
      requires selection.Some? ==> forall s :: s in selection.value ==> s.0 in managedPaths
      modifies `disk
      ensures Valid() && disk.Keys == old(disk).Keys
      ensures selection == None ==> !ok && disk == old(disk)
      ensures selection.Some? ==>
                && (ok <==> written == |workspacePaths|)
                && WrittenUpTo(old(disk), disk, workspacePaths, written, Selected(old(disk), selection.value), isPreRelease, answers)
    {
      if selection == None {
        return false, 0;
      }
      var versions := TypedVersions(selection.value);
      SelectedIsManaged(disk, selection.value, managedPaths);
      ok, written := BumpTo(versions, isPreRelease, answers);
    }

    /** Writes the versions typed into all packages of the workspace. */
    method BumpTo(versions: Deps, isPreRelease: bool, answers: PeerAnswers) returns (ok: bool, ghost written: nat)
      requires Valid() && (saved.Some? ==> versions.Keys <= Managed())
      modifies `disk
      ensures Valid() && disk.Keys == old(disk).Keys && (ok <==> written == |workspacePaths|)
      ensures WrittenUpTo(old(disk), disk, workspacePaths, written, versions, isPreRelease, answers)
    {
      ok := WritePackages(versions, isPreRelease, answers);
      written := BumpWrites(old(disk), workspacePaths, versions, isPreRelease, answers);
      if saved.Some? {
        BumpStaysDrifted(old(disk), baseline, managedPaths, workspacePaths, versions, isPreRelease, answers);
      }
    }

    /** Asks for the versions of the packages selected, one after the other. */
    method TypedVersions(selection: seq<(string, string)>) returns (versions: Deps)
      requires forall s :: s in selection ==> s.0 in disk
      ensures versions == Selected(disk, selection)
    {
      versions := map[];
      for i := 0 to |selection|
        invariant versions == Selected(disk, selection[..i])
      {
        var (path, version) := selection[i];
        assert selection[..i + 1][..i] == selection[..i];
        if version != "" {
          versions := versions[disk[path].name := version];
        }
      }
      assert selection[..|selection|] == selection;
    }

    method WritePackages(versions: Deps, isPreRelease: bool, answers: PeerAnswers) returns (ok: bool)
      requires forall p :: p in workspacePaths ==> p in disk
      modifies `disk
      ensures (disk, ok) == BumpAll(old(disk), workspacePaths, versions, isPreRelease, answers)
    {
      for i := 0 to |workspacePaths|
        invariant disk.Keys == old(disk).Keys
        invariant BumpAll(disk, workspacePaths[i..], versions, isPreRelease, answers)
               == BumpAll(old(disk), workspacePaths, versions, isPreRelease, answers)
      {
        var path := workspacePaths[i];
        assert workspacePaths[i..][1..] == workspacePaths[i + 1..];
        var updated := UpdatePackageJson(disk[path], versions, isPreRelease, answers);
        if updated.Err? {
          return false;
        }
        disk := disk[path := updated.value];
      }
      return true;
    }

    static method UpdatePackageJson(package: Package, versions: Deps, isPreRelease: bool, answers: PeerAnswers)
      returns (r: Result<Package, string>)
      ensures r == UpdatePackage(package, versions, isPreRelease, answers)
    {
      var version := if IsBumped(versions, package.name) then versions[package.name] else package.version;
      var update := UpdaterFor(versions, isPreRelease);
      var dependencies := UpdateEntries(update, package.dependencies);
      if dependencies.Err? {
        return Err("Unexpected version format");
      }
      var devDependencies := UpdateEntries(update, package.devDependencies);
      if devDependencies.Err? {
        return Err("Unexpected version format");
      }
      var peerDependencies := UpdateEntries(PeerUpdaterFor(package.name, versions, isPreRelease, answers), package.peerDependencies);
      if peerDependencies.Err? {
        return Err("Unexpected version format");
      }
      return Ok(Package(package.name, version, dependencies.value, devDependencies.value, peerDependencies.value));
    }

    /** Updates a section entry by entry and stops at the first entry that fails. */
    static method UpdateEntries(update: Updater, section: Option<Deps>) returns (r: Result<Option<Deps>, string>)
      ensures r.Ok? <==> SectionOk(update, section)
      ensures r.Ok? ==> r.value == UpdateSection(update, section)
    {
      if section == None {
        return Ok(None);
      }
      var deps := section.value;
      var updated, rest := deps, deps.Keys;
      while rest != {}
        invariant rest <= deps.Keys && updated.Keys == deps.Keys
        invariant forall name :: name in deps && name !in rest ==> update(name, deps[name]).Ok?
        invariant forall name :: name in deps ==> updated[name] == if name in rest then deps[name] else Entry(update, deps, name)
        decreases |rest|
      {
        var name :| name in rest;
        rest := rest - {name};
        var outcome := update(name, deps[name]);
        if outcome.Err? {
          return Err(outcome.error);
        }
        if outcome.value.Some? {
          updated := updated[name := outcome.value.value];
        }
      }
      assert updated == UpdateSection(update, section).value;
      return Ok(Some(updated));
    }
  }
}
