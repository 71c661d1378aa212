/**
 * Build configuration of `src/config.rs`: the compiler and target-type
 * enumerations, a target as written in `build.toml` and as resolved against
 * its file's directory, the recursive loading of included files where the
 * first definition of a target name wins, and the root project's C++
 * standard overriding every target's.
 *
 * The file system is a parameter: the set of existing files and the result of
 * `glob::glob` for each pattern. Reading and deserialising TOML is not
 * modelled; a loaded file is the `BuildFile` it deserialises to.
 */
module Config {
  import opened Wrappers
  import opened Seqs
  import Strings
  import Paths

  // ---------------------------------------------------------------------------
  // Enumerations
  // ---------------------------------------------------------------------------

  datatype Compiler = Gcc | Gpp | Clang {
    /** The executable invoked for this compiler. */
    function Command(): (r: string)
      ensures this != Clang ==> r == SerdeName()
      ensures this == Clang ==> r == SerdeName() + "++"
    {
      match this
      case Gcc => "gcc"
      case Gpp => "g++"
      case Clang => "clang++"
    }

    /** The spelling of the compiler in `build.toml`. */
    function SerdeName(): string {
      match this
      case Gcc => "gcc"
      case Gpp => "g++"
      case Clang => "clang"
    }
  }

  /** Deserialisation of a `compiler = "..."` value. */
  function ParseCompiler(s: string): (r: Option<Compiler>)
    ensures r.Some? ==> r.value.SerdeName() == s
  {
    if s == "gcc" then Some(Gcc)
    else if s == "g++" then Some(Gpp)
    else if s == "clang" then Some(Clang)
    else None
  }

  /** Every compiler reads back from its own spelling, and the commands are pairwise distinct. */
  lemma CompilerRoundTrip(c: Compiler, d: Compiler)
    ensures ParseCompiler(c.SerdeName()) == Some(c)
    ensures c.Command() == d.Command() ==> c == d
  {
  }

  /** The compiler a target gets when it names none. */
  const DefaultCompiler: Compiler := Gpp

  /** The default compiler runs `g++`. */
  lemma DefaultCompilerCommand()
    ensures DefaultCompiler.Command() == "g++"
    ensures ParseCompiler("g++") == Some(DefaultCompiler)
  {
  }

  datatype TargetType = Executable | StaticLib | SharedLib {
    /** The spelling of the type in `build.toml`, also the node type of the graph export. */
    function SerdeName(): string {
      match this
      case Executable => "executable"
      case StaticLib => "static_lib"
      case SharedLib => "shared_lib"
    }
  }

  /** Deserialisation of a `type = "..."` value. */
  function ParseTargetType(s: string): (r: Option<TargetType>)
    ensures r.Some? ==> r.value.SerdeName() == s
  {
    if s == "executable" then Some(Executable)
    else if s == "static_lib" then Some(StaticLib)
    else if s == "shared_lib" then Some(SharedLib)
    else None
  }

  lemma TargetTypeRoundTrip(t: TargetType)
    ensures ParseTargetType(t.SerdeName()) == Some(t)
  {
  }

  /** The type a target gets when it names none. */
  const DefaultTargetType: TargetType := Executable

  /** The output directory a target gets when it names none. */
  const DefaultOutputDir: string := "build"

  /** `u32` values of the TOML file (the C++ standard). */
  newtype u32 = x: int | 0 <= x < 0x1_0000_0000

  // ---------------------------------------------------------------------------
  // Targets
  // ---------------------------------------------------------------------------

  /** A `[[target]]` table after deserialisation, paths relative to its file's directory. */
  datatype TargetConfig = TargetConfig(
    name: string,
    targetType: TargetType,
    sources: seq<string>,
    includeDirs: seq<string>,
    libDirs: seq<string>,
    libs: seq<string>,
    flags: seq<string>,
    cxxStandard: Option<u32>,
    compilerFlags: seq<string>,
    linkerFlags: seq<string>,
    deps: seq<string>,
    compiler: Compiler,
    outputDir: string)

  /** A `[[target]]` table that gives only a name: every other field takes its serde default. */
  function NamedTarget(name: string): (t: TargetConfig)
    ensures t.name == name
    ensures t.compiler.Command() == "g++" && t.targetType.SerdeName() == "executable"
    ensures t.outputDir == "build" && t.cxxStandard.None?
    ensures t.sources == t.includeDirs == t.libDirs == t.libs == t.deps == []
    ensures t.flags == t.compilerFlags == t.linkerFlags == []
  {
    TargetConfig(name, DefaultTargetType, [], [], [], [], [], None, [], [], [], DefaultCompiler, DefaultOutputDir)
  }

  /** A target with source files found, directories made absolute. */
  datatype ResolvedTarget = ResolvedTarget(
    name: string,
    targetType: TargetType,
    sources: seq<string>,
    includeDirs: seq<string>,
    libDirs: seq<string>,
    libs: seq<string>,
    flags: seq<string>,
    cxxStandard: Option<u32>,
    compilerFlags: seq<string>,
    linkerFlags: seq<string>,
    deps: seq<string>,
    compiler: Compiler,
    outputDir: string)

  /** What the resolver sees of the disk: existing files, and the expansion of each glob pattern (`None` when the pattern is invalid). */
  datatype FileSystem = FileSystem(files: set<string>, glob: string -> Option<seq<string>>)

  /** A source entry is a glob pattern when it contains `*`, `?` or `[`. */
  predicate HasGlob(pattern: string): (r: bool)
    ensures r <==> exists i :: 0 <= i < |pattern| && pattern[i] in GlobChars
    ensures r ==> |pattern| > 0
  {
    '*' in pattern || '?' in pattern || '[' in pattern
  }

  /** The characters whose presence makes an entry a glob pattern. */
  const GlobChars: set<char> := {'*', '?', '['}

  /** The glob test looks at the characters alone: a concatenation is a glob exactly when one of its parts is. */
  lemma HasGlobConcat(a: string, b: string)
    ensures HasGlob(a + b) <==> HasGlob(a) || HasGlob(b)
  {
    assert forall c :: c in a + b <==> c in a || c in b;
  }

  /** Each entry joined onto `base`. */
  function JoinAll(base: string, entries: seq<string>): (r: seq<string>)
    ensures |r| == |entries|
    ensures forall i :: 0 <= i < |r| ==> r[i] == Paths.Join(base, entries[i])
    decreases |entries|
  {
    if |entries| == 0 then [] else [Paths.Join(base, entries[0])] + JoinAll(base, entries[1..])
  }

  /**
   * The source files of a target: a glob pattern contributes its matches, a
   * plain entry contributes its joined path when that file exists and nothing
   * otherwise (the source only warns). An invalid pattern is an error.
   */
  function ResolveSources(patterns: seq<string>, base: string, fs: FileSystem): (r: Result<seq<string>, string>)
    ensures r.Err? <==> exists i :: 0 <= i < |patterns| && HasGlob(patterns[i]) && fs.glob(Paths.Join(base, patterns[i])).None?
    ensures r.Ok? && (forall i :: 0 <= i < |patterns| ==> !HasGlob(patterns[i])) ==>
      forall x :: x in r.value <==> x in fs.files && exists i :: 0 <= i < |patterns| && x == Paths.Join(base, patterns[i])
    decreases |patterns|
  {
    if |patterns| == 0 then Ok([])
    else
      var p := patterns[0];
      var full := Paths.Join(base, p);
      var rest := ResolveSources(patterns[1..], base, fs);
      assert forall i :: 0 < i < |patterns| ==> patterns[i] == patterns[1..][i - 1];
      if HasGlob(p) then
        match fs.glob(full)
        case None => Err("Invalid glob pattern '" + p + "'")
        case Some(entries) => if rest.Err? then rest else Ok(entries + rest.value)
      else if rest.Err? then
        assert exists i :: 0 < i < |patterns| && HasGlob(patterns[i]) && fs.glob(Paths.Join(base, patterns[i])).None? by {
          var j :| 0 <= j < |patterns[1..]| && HasGlob(patterns[1..][j]) && fs.glob(Paths.Join(base, patterns[1..][j])).None?;
          assert patterns[j + 1] == patterns[1..][j];
        }
        rest
      else if full in fs.files then Ok([full] + rest.value)
      else Ok(rest.value)
  }

  /** What one source entry contributes: a glob's matches (an error when invalid), or the joined path when that file exists. */
  function EntrySources(p: string, base: string, fs: FileSystem): (r: Result<seq<string>, string>)
    ensures r.Err? <==> HasGlob(p) && fs.glob(Paths.Join(base, p)).None?
    ensures HasGlob(p) && r.Ok? ==> r.value == fs.glob(Paths.Join(base, p)).value
    ensures !HasGlob(p) ==> r.Ok? && |r.value| <= 1
    ensures !HasGlob(p) ==> (r.value == [Paths.Join(base, p)] <==> Paths.Join(base, p) in fs.files)
  {
    var full := Paths.Join(base, p);
    if HasGlob(p) then
      match fs.glob(full)
      case None => Err("Invalid glob pattern '" + p + "'")
      case Some(entries) => Ok(entries)
    else if full in fs.files then Ok([full])
    else Ok([])
  }

  /** Two partial results in sequence: the first error, otherwise both lists joined. */
  function AndThen(a: Result<seq<string>, string>, b: Result<seq<string>, string>): Result<seq<string>, string> {
    if a.Err? then a else if b.Err? then b else Ok(a.value + b.value)
  }

  /** A single entry resolves to its own contribution. */
  lemma ResolveSourcesOne(p: string, base: string, fs: FileSystem)
    ensures ResolveSources([p], base, fs) == EntrySources(p, base, fs)
  {
    assert [p][1..] == [];
    assert ResolveSources([p][1..], base, fs) == Ok([]);
    var full := Paths.Join(base, p);
    assert [full] + [] == [full];
    match fs.glob(full)
    case None =>
    case Some(entries) =>
      assert entries + [] == entries;
  }

  /** The first entry's contribution, then the rest's. */
  lemma ResolveSourcesCons(ps: seq<string>, base: string, fs: FileSystem)
    requires |ps| > 0
    ensures ResolveSources(ps, base, fs) == AndThen(EntrySources(ps[0], base, fs), ResolveSources(ps[1..], base, fs))
  {
    var full := Paths.Join(base, ps[0]);
    var rest := ResolveSources(ps[1..], base, fs);
    if !HasGlob(ps[0]) && full !in fs.files && rest.Ok? {
      assert [] + rest.value == rest.value;
    }
  }

  /** Sequencing partial results is associative. */
  lemma AndThenAssociative(a: Result<seq<string>, string>, b: Result<seq<string>, string>, c: Result<seq<string>, string>)
    ensures AndThen(a, AndThen(b, c)) == AndThen(AndThen(a, b), c)
  {
    if a.Ok? && b.Ok? && c.Ok? {
      assert a.value + (b.value + c.value) == a.value + b.value + c.value;
    }
  }

  /** Resolving a concatenation resolves each part in turn: contributions keep the entries' order, the first error wins. */
  lemma {:induction false} ResolveSourcesConcat(a: seq<string>, b: seq<string>, base: string, fs: FileSystem)
    ensures ResolveSources(a + b, base, fs) == AndThen(ResolveSources(a, base, fs), ResolveSources(b, base, fs))
    decreases |a|
  {
    if |a| == 0 {
      assert a + b == b;
      var rb := ResolveSources(b, base, fs);
      if rb.Ok? {
        assert [] + rb.value == rb.value;
      }
    } else {
      assert (a + b)[0] == a[0];
      assert (a + b)[1..] == a[1..] + b;
      ResolveSourcesCons(a + b, base, fs);
      ResolveSourcesConcat(a[1..], b, base, fs);
      AndThenAssociative(EntrySources(a[0], base, fs), ResolveSources(a[1..], base, fs), ResolveSources(b, base, fs));
      ResolveSourcesCons(a, base, fs);
    }
  }

  /**
   * The sources of a target are the contributions of its entries in order:
   * splitting the list at any entry shows that entry's own contribution in
   * its place.
   */
  lemma ResolveSourcesAt(before: seq<string>, p: string, after: seq<string>, base: string, fs: FileSystem)
    ensures ResolveSources(before + [p] + after, base, fs) ==
      AndThen(AndThen(ResolveSources(before, base, fs), EntrySources(p, base, fs)), ResolveSources(after, base, fs))
  {
    ResolveSourcesConcat(before + [p], after, base, fs);
    ResolveSourcesConcat(before, [p], base, fs);
    ResolveSourcesOne(p, base, fs);
  }

  /** `resolve_target`: sources found, include, library and output directories joined onto `base`. */
  function ResolveTarget(t: TargetConfig, base: string, fs: FileSystem): (r: Result<ResolvedTarget, string>)
    ensures r.Err? <==> ResolveSources(t.sources, base, fs).Err?
    ensures r.Ok? ==> Unresolved(r.value) == t.(sources := [], includeDirs := [], libDirs := [], outputDir := "")
    ensures r.Ok? ==> r.value.sources == ResolveSources(t.sources, base, fs).value
    ensures r.Ok? ==> |r.value.includeDirs| == |t.includeDirs| && |r.value.libDirs| == |t.libDirs|
    ensures r.Ok? ==> forall i :: 0 <= i < |t.includeDirs| ==> r.value.includeDirs[i] == Paths.Join(base, t.includeDirs[i])
    ensures r.Ok? ==> forall i :: 0 <= i < |t.libDirs| ==> r.value.libDirs[i] == Paths.Join(base, t.libDirs[i])
    ensures r.Ok? ==> r.value.outputDir == Paths.Join(base, t.outputDir)
  {
    var sources :- ResolveSources(t.sources, base, fs);
    Ok(ResolvedTarget(
      t.name, t.targetType, sources, JoinAll(base, t.includeDirs), JoinAll(base, t.libDirs),
      t.libs, t.flags, t.cxxStandard, t.compilerFlags, t.linkerFlags, t.deps, t.compiler,
      Paths.Join(base, t.outputDir)))
  }

  /** The fields of a resolved target that resolution copies unchanged, the path fields blanked. */
  function Unresolved(r: ResolvedTarget): TargetConfig {
    TargetConfig(r.name, r.targetType, [], [], [], r.libs, r.flags, r.cxxStandard,
      r.compilerFlags, r.linkerFlags, r.deps, r.compiler, "")
  }

  // ---------------------------------------------------------------------------
  // Loading the file tree
  // ---------------------------------------------------------------------------

  /** The `[project]` table of the root file (missing keys absent). */
  datatype ProjectTable = ProjectTable(name: Option<string>, version: Option<string>, cxxStandard: Option<u32>)

  /**
   * A loaded `build.toml`: its directory, its project table, its targets and
   * its `includes`. An include whose path does not resolve to a file carries
   * no file.
   */
  datatype BuildFile = BuildFile(dir: string, project: ProjectTable, targets: seq<TargetConfig>, includes: seq<Include>)
  datatype Include = Include(path: string, file: Option<BuildFile>)

  /** The targets loaded so far: a name-to-target map and the order of first insertion. */
  datatype Loaded = Loaded(byName: map<string, ResolvedTarget>, order: seq<string>)

  ghost predicate WellFormed(l: Loaded) {
    IsEnumeration(l.order, l.byName)
  }

  const NoTargets: Loaded := Loaded(map[], [])

  /** Insert unless the name is already taken: the first definition wins. */
  function InsertFirst(l: Loaded, t: ResolvedTarget): (r: Loaded)
    requires WellFormed(l)
    ensures WellFormed(r)
    ensures t.name in l.byName ==> r == l
    ensures t.name !in l.byName ==> r.byName == l.byName[t.name := t] && r.order == l.order + [t.name]
  {
    if t.name in l.byName then l
    else
      NoDuplicatesAppend(l.order, t.name);
      Loaded(l.byName[t.name := t], l.order + [t.name])
  }

  /** Appending a new element keeps a sequence free of duplicates. */
  lemma {:induction false} NoDuplicatesAppend<T>(s: seq<T>, x: T)
    requires NoDuplicates(s) && x !in s
    ensures NoDuplicates(s + [x])
    decreases |s|
  {
    if |s| > 0 {
      NoDuplicatesAppend(s[1..], x);
      assert (s + [x])[1..] == s[1..] + [x];
    }
  }

  /** `InsertFirst` of each target in turn. */
  function MergeFirst(l: Loaded, ts: seq<ResolvedTarget>): (r: Loaded)
    requires WellFormed(l)
    ensures WellFormed(r)
    decreases |ts|
  {
    if |ts| == 0 then l else MergeFirst(InsertFirst(l, ts[0]), ts[1..])
  }

  lemma {:induction false} MergeFirstConcat(l: Loaded, a: seq<ResolvedTarget>, b: seq<ResolvedTarget>)
    requires WellFormed(l)
    ensures MergeFirst(l, a + b) == MergeFirst(MergeFirst(l, a), b)
    decreases |a|
  {
    if |a| == 0 {
      assert a + b == b;
    } else {
      assert (a + b)[1..] == a[1..] + b;
      MergeFirstConcat(InsertFirst(l, a[0]), a[1..], b);
    }
  }

  /** Index of the first target named `n`. */
  function FirstNamed(ts: seq<ResolvedTarget>, n: string): (r: Option<nat>)
    ensures r.None? ==> forall i :: 0 <= i < |ts| ==> ts[i].name != n
    ensures r.Some? ==> r.value < |ts| && ts[r.value].name == n && forall i :: 0 <= i < r.value ==> ts[i].name != n
    decreases |ts|
  {
    if |ts| == 0 then None
    else if ts[0].name == n then Some(0)
    else match FirstNamed(ts[1..], n)
      case None => None
      case Some(k) => Some(k + 1)
  }

  /**
   * After merging, a name is defined exactly when it was already loaded or
   * some merged target has it, and its definition is the one loaded earlier,
   * or else the first merged target of that name: later definitions are ignored.
   */
  lemma {:induction false} MergeFirstWins(l: Loaded, ts: seq<ResolvedTarget>, n: string)
    requires WellFormed(l)
    ensures var r := MergeFirst(l, ts);
      && (n in r.byName <==> n in l.byName || FirstNamed(ts, n).Some?)
      && (n in l.byName ==> n in r.byName && r.byName[n] == l.byName[n])
      && (n !in l.byName && FirstNamed(ts, n).Some? ==> n in r.byName && r.byName[n] == ts[FirstNamed(ts, n).value])
    decreases |ts|
  {
    if |ts| > 0 {
      MergeFirstWins(InsertFirst(l, ts[0]), ts[1..], n);
    }
  }

  /** The targets of one file resolved in order; the first failure is the result. */
  function ResolveAll(ts: seq<TargetConfig>, base: string, fs: FileSystem): (r: Result<seq<ResolvedTarget>, string>)
    ensures r.Ok? ==> |r.value| == |ts|
    ensures r.Ok? ==> forall i :: 0 <= i < |ts| ==> ResolveTarget(ts[i], base, fs) == Ok(r.value[i])
    decreases |ts|
  {
    if |ts| == 0 then Ok([])
    else
      var t :- ResolveTarget(ts[0], base, fs);
      var rest :- ResolveAll(ts[1..], base, fs);
      Ok([t] + rest)
  }

  /**
   * `parse_recursive`: resolve and insert this file's targets in order, then
   * load each include in order. The first error aborts the whole load.
   */
  function ParseRecursive(f: BuildFile, l: Loaded, fs: FileSystem): (r: Result<Loaded, string>)
    requires WellFormed(l)
    ensures r.Ok? ==> WellFormed(r.value)
    decreases f, 1
  {
    var l1 :- AddTargets(f.targets, f.dir, l, fs);
    ParseIncludes(f.includes, f.dir, l1, fs)
  }

  function AddTargets(ts: seq<TargetConfig>, base: string, l: Loaded, fs: FileSystem): (r: Result<Loaded, string>)
    requires WellFormed(l)
    ensures r.Ok? ==> WellFormed(r.value)
    decreases |ts|
  {
    if |ts| == 0 then Ok(l)
    else
      var t :- ResolveTarget(ts[0], base, fs);
      AddTargets(ts[1..], base, InsertFirst(l, t), fs)
  }

  function ParseIncludes(incs: seq<Include>, base: string, l: Loaded, fs: FileSystem): (r: Result<Loaded, string>)
    requires WellFormed(l)
    ensures r.Ok? ==> WellFormed(r.value)
    decreases incs, 0
  {
    if |incs| == 0 then Ok(l)
    else
      match incs[0].file
      case None => Err("Include file not found: '" + incs[0].path + "' (base dir: '" + base + "')")
      case Some(sub) =>
        var l1 :- ParseRecursive(sub, l, fs);
        ParseIncludes(incs[1..], base, l1, fs)
  }

  /** Every target of a file tree in loading order: the file's own, then each include's, depth first. */
  function Collect(f: BuildFile, fs: FileSystem): (r: Result<seq<ResolvedTarget>, string>)
    ensures ResolveAll(f.targets, f.dir, fs).Err? ==> r == Err(ResolveAll(f.targets, f.dir, fs).error)
    ensures r.Ok? ==>
              && |ResolveAll(f.targets, f.dir, fs).value| <= |r.value|
              && r.value[..|ResolveAll(f.targets, f.dir, fs).value|] == ResolveAll(f.targets, f.dir, fs).value
    ensures (exists i :: 0 <= i < |f.includes| && f.includes[i].file.None?) ==> r.Err?
    decreases f, 1
  {
    var own :- ResolveAll(f.targets, f.dir, fs);
    var inc :- CollectIncludes(f.includes, f.dir, fs);
    Ok(own + inc)
  }

  function CollectIncludes(incs: seq<Include>, base: string, fs: FileSystem): (r: Result<seq<ResolvedTarget>, string>)
    ensures (exists i :: 0 <= i < |incs| && incs[i].file.None?) ==> r.Err?
    decreases incs, 0
  {
    if |incs| == 0 then Ok([])
    else
      assert (exists i :: 1 <= i < |incs| && incs[i].file.None?) ==>
        exists i :: 0 <= i < |incs[1..]| && incs[1..][i].file.None? by {
        if exists i :: 1 <= i < |incs| && incs[i].file.None? {
          var i :| 1 <= i < |incs| && incs[i].file.None?;
          assert incs[1..][i - 1] == incs[i];
        }
      }
      match incs[0].file
      case None => Err("Include file not found: '" + incs[0].path + "' (base dir: '" + base + "')")
      case Some(sub) =>
        var a :- Collect(sub, fs);
        var b :- CollectIncludes(incs[1..], base, fs);
        Ok(a + b)
  }

  /** Merging a successful collection into the loaded targets. */
  function MergeResult(l: Loaded, c: Result<seq<ResolvedTarget>, string>): (r: Result<Loaded, string>)
    requires WellFormed(l)
  {
    match c
    case Err(e) => Err(e)
    case Ok(ts) => Ok(MergeFirst(l, ts))
  }

  lemma {:induction false} AddTargetsIsMerge(ts: seq<TargetConfig>, base: string, l: Loaded, fs: FileSystem)
    requires WellFormed(l)
    ensures AddTargets(ts, base, l, fs) == MergeResult(l, ResolveAll(ts, base, fs))
    decreases |ts|
  {
    if |ts| > 0 {
      var t := ResolveTarget(ts[0], base, fs);
      if t.Ok? {
        AddTargetsIsMerge(ts[1..], base, InsertFirst(l, t.value), fs);
      }
    }
  }

  /**
   * Loading a file tree target by target gives the same outcome as collecting
   * all its targets in loading order and merging them: the same first error,
   * or the first-definition-wins merge of the whole list.
   */
  lemma {:induction false} ParseRecursiveIsMerge(f: BuildFile, l: Loaded, fs: FileSystem)
    requires WellFormed(l)
    ensures ParseRecursive(f, l, fs) == MergeResult(l, Collect(f, fs))
    decreases f, 1
  {
    AddTargetsIsMerge(f.targets, f.dir, l, fs);
    var own := ResolveAll(f.targets, f.dir, fs);
    if own.Ok? {
      var l1 := MergeFirst(l, own.value);
      ParseIncludesIsMerge(f.includes, f.dir, l1, fs);
      var inc := CollectIncludes(f.includes, f.dir, fs);
      if inc.Ok? {
        MergeFirstConcat(l, own.value, inc.value);
      }
    }
  }

  lemma {:induction false} ParseIncludesIsMerge(incs: seq<Include>, base: string, l: Loaded, fs: FileSystem)
    requires WellFormed(l)
    ensures ParseIncludes(incs, base, l, fs) == MergeResult(l, CollectIncludes(incs, base, fs))
    decreases incs, 0
  {
    if |incs| > 0 && incs[0].file.Some? {
      var sub := incs[0].file.value;
      ParseRecursiveIsMerge(sub, l, fs);
      var a := Collect(sub, fs);
      if a.Ok? {
        var l1 := MergeFirst(l, a.value);
        ParseIncludesIsMerge(incs[1..], base, l1, fs);
        var b := CollectIncludes(incs[1..], base, fs);
        if b.Ok? {
          MergeFirstConcat(l, a.value, b.value);
        }
      }
    }
  }

  // ---------------------------------------------------------------------------
  // The project's C++ standard
  // ---------------------------------------------------------------------------

  /** The root project's `cxx_standard`, when set, replaces every target's; nothing else changes. */
  function ApplyStandard(targets: map<string, ResolvedTarget>, std: Option<u32>): (r: map<string, ResolvedTarget>)
    ensures r.Keys == targets.Keys
    ensures std.Some? ==> forall k :: k in r ==> r[k].cxxStandard == std
    ensures std.None? ==> r == targets
    ensures forall k :: k in r ==> r[k].(cxxStandard := targets[k].cxxStandard) == targets[k]
  {
    match std
    case None => targets
    case Some(s) => map k | k in targets :: targets[k].(cxxStandard := Some(s))
  }
}
