/**
 * `parse_build_file` of `src/config.rs`: load the root file and its includes,
 * propagate dependency properties, then let the root project's C++ standard
 * override every target's.
 */
module Project {
  import opened Wrappers
  import opened Seqs
  import opened Config
  import Propagation

  datatype ResolvedProject = ResolvedProject(
    name: string,
    version: string,
    cxxStandard: Option<u32>,
    targets: map<string, ResolvedTarget>)

  const DefaultProjectName: string := "unnamed_project"
  const DefaultVersion: string := "0.1.0"

  /** `keys` lists each name a load defines exactly once: one iteration order of the loaded target map. */
  ghost predicate LoadOrder(root: BuildFile, fs: FileSystem, keys: seq<string>) {
    && NoDuplicates(keys)
    && (Collect(root, fs).Ok? ==> forall n :: n in keys <==> FirstNamed(Collect(root, fs).value, n).Some?)
  }

  /**
   * The whole load. Name and version come from the root's `[project]` table
   * or their defaults; the targets are the first definition of each name in
   * loading order, with dependency properties propagated (sweeping the
   * targets in the hash-map order `keys`) and the root's C++ standard, when
   * set, replacing every target's.
   */
  function ParseBuildFile(root: BuildFile, fs: FileSystem, keys: seq<string>): (r: Result<ResolvedProject, string>)
    requires LoadOrder(root, fs, keys)
    ensures r.Err? <==> Collect(root, fs).Err?
    ensures r.Ok? ==> r.value.name == root.project.name.GetOr(DefaultProjectName)
    ensures r.Ok? ==> r.value.version == root.project.version.GetOr(DefaultVersion)
    ensures r.Ok? ==> r.value.cxxStandard == root.project.cxxStandard
    ensures r.Ok? ==> forall n :: n in r.value.targets <==> FirstNamed(Collect(root, fs).value, n).Some?
    ensures r.Ok? && root.project.cxxStandard.Some? ==>
      forall n :: n in r.value.targets ==> r.value.targets[n].cxxStandard == root.project.cxxStandard
  {
    ParseRecursiveIsMerge(root, NoTargets, fs);
    var loaded :- ParseRecursive(root, NoTargets, fs);
    var all := Collect(root, fs).value;
    forall n ensures n in loaded.byName <==> FirstNamed(all, n).Some? {
      MergeFirstWins(NoTargets, all, n);
    }
    assert IsEnumeration(keys, loaded.byName);
    var propagated := Propagation.PropagateDependencyProperties(loaded.byName, keys, root.dir);
    var targets := ApplyStandard(propagated, root.project.cxxStandard);
    Ok(ResolvedProject(
      root.project.name.GetOr(DefaultProjectName),
      root.project.version.GetOr(DefaultVersion),
      root.project.cxxStandard,
      targets))
  }

  /**
   * Each loaded target is its first definition in loading order, except that
   * the propagated fields may have grown and the root's C++ standard, when
   * set, replaced its own.
   */
  lemma FirstDefinitionKept(root: BuildFile, fs: FileSystem, keys: seq<string>, n: string)
    requires LoadOrder(root, fs, keys)
    requires ParseBuildFile(root, fs, keys).Ok?
    requires n in ParseBuildFile(root, fs, keys).value.targets
    ensures var all := Collect(root, fs).value;
      var first := all[FirstNamed(all, n).value];
      var t := ParseBuildFile(root, fs, keys).value.targets[n];
      && Propagation.Blank(t).(cxxStandard := first.cxxStandard) == Propagation.Blank(first)
      && forall f :: AppendsOnlyNew(Propagation.Get(first, f), Propagation.Get(t, f))
  {
    var loaded := ParseRecursive(root, NoTargets, fs).value;
    ParseRecursiveIsMerge(root, NoTargets, fs);
    var all := Collect(root, fs).value;
    MergeFirstWins(NoTargets, all, n);
    var first := all[FirstNamed(all, n).value];
    assert loaded.byName[n] == first;
    forall m ensures m in loaded.byName <==> FirstNamed(all, m).Some? {
      MergeFirstWins(NoTargets, all, m);
    }
    var propagated := Propagation.PropagateDependencyProperties(loaded.byName, keys, root.dir);
    var p := propagated[n];
    assert Propagation.Grows(first, p);
    var t := ApplyStandard(propagated, root.project.cxxStandard)[n];
    assert t == ParseBuildFile(root, fs, keys).value.targets[n];
    assert t == p.(cxxStandard := t.cxxStandard);
    forall f ensures AppendsOnlyNew(Propagation.Get(first, f), Propagation.Get(t, f)) {
      Propagation.GetIgnoresStandard(p, t.cxxStandard, f);
    }
  }

  /** Every loaded target is stored under its own name. */
  lemma TargetsKeyedByName(root: BuildFile, fs: FileSystem, keys: seq<string>, n: string)
    requires LoadOrder(root, fs, keys)
    requires ParseBuildFile(root, fs, keys).Ok?
    requires n in ParseBuildFile(root, fs, keys).value.targets
    ensures ParseBuildFile(root, fs, keys).value.targets[n].name == n
  {
    FirstDefinitionKept(root, fs, keys, n);
    var t := ParseBuildFile(root, fs, keys).value.targets[n];
    assert t.name == Propagation.Blank(t).(cxxStandard := t.cxxStandard).name;
  }
}
