# ngm core in Dafny

`ngm` is a small C++ build tool written in Rust. A project is described in
`build.toml`: a project name and version, an optional C++ standard, include
files, and `[[target]]` entries (executable, static library or shared library),
each with its sources, include and library directories, libraries, flags and
dependencies on other targets. This project models the tool's core and proves
properties of it:

- `dag.dfy` (`Dag`): the dependency graph of `src/dag.rs`. It covers Kahn's
  algorithm grouping targets into build levels, rejecting unknown dependencies
  and cycles. It also covers the restriction of an order to requested targets
  and the link order of a target's transitive dependencies.
- `config.dfy`, `project.dfy`, `propagate.dfy` (`Config`, `Project`,
  `Propagation`): the configuration of `src/config.rs`. This is compiler and
  target-type names, the resolution of a target's paths and globs, the
  recursive merge of included files, the C++ standard flag, and the
  propagation of include directories, libraries and flags along
  dependencies to a fixpoint.
- `compile.dfy` (`Compile`): the decisions of `src/compiler.rs`. These are
  path arguments, output and object paths, the compile command line, the
  recompile and relink decisions, `LD_LIBRARY_PATH`, and the link arguments.
- `builder.dfy` (`Builder`): the job coordinator of `src/builder.rs`. It
  enqueues compile jobs, links when a target's objects are complete, queues
  dependents, and counts failures and progress. It also models the
  level-by-level builder.
- `graph.dfy` (`Graph`): the library API of `src/lib.rs`. That is the
  node/edge view of a project for the GUI, and the clean-directory list.
- `cmake_lex.dfy`, `cmake_cli.dfy`, `cmake_gui.dfy` (`CmakeLex`, `CmakeCli`,
  `CmakeGui`): the two `CMakeLists.txt` converters. The command-line one is
  in `src/cmake_converter.rs` and the GUI's copy is in
  `gui/src-tauri/src/cmake_converter.rs`. They cover command extraction,
  argument splitting, variable substitution, path normalisation, interface
  include propagation and the generated `build.toml` fields.
- `strings.dfy`, `paths.dfy`, `seqs.dfy`, `ordering.dfy`, `wrappers.dfy`:
  the parts of Rust's standard library the core relies on. These are
  `trim`, `split`, `replace`, `Path::join`, `file_name`, `file_stem`,
  `parent`, sorting and deduplication, and `Result`/`Option`.

The file system, clocks, threads, environment variables, glob expansion and
regular-expression matching are parameters. A file's modification time is a
number passed in. An environment variable is a map entry. A glob's expansion
is a function argument. The `${NAME}` and `$ENV{NAME}` patterns are matched
character by character. The regular expression for a command name is not: the
positions where a command's argument list would start are a parameter, any
positions within the text. Nothing relates such a position to an occurrence
of the command name.

## Model

| member | source | states |
|---|---|---|
| Dag.FirstUnknownDep | src/dag.rs:42-51 | the reported dependency is one of the target's deps and is not a defined target; none is reported only when every dep is defined |
| Dag.FirstUnknown | src/dag.rs:41-53 | the reported (target, dependency) pair has an undefined dependency of a defined target; none only when every dependency of every target is defined |
| Dag.Kahn | src/dag.rs:79-116 | Kahn's algorithm yields at most as many levels as there are unplaced targets |
| Dag.KahnStep | src/dag.rs:91-116 | one step places exactly the targets whose dependencies are all placed, sorted, each once, and the set of unplaced targets shrinks |
| Dag.ReadyLevel | src/dag.rs:96-115 | sorting the ready names in iteration order yields each ready target exactly once, ascending |
| Dag.KahnFresh | src/dag.rs:96-111 | every placed name is a defined target not placed before |
| Dag.KahnDisjoint | src/dag.rs:96-111 | no target is placed in two levels |
| Dag.KahnLevelsNoDuplicates | src/dag.rs:93-115 | no level lists a target twice |
| Dag.KahnDepsEarlier | src/dag.rs:101-110 | every dependency of a placed target was placed before it or in an earlier level |
| Dag.DepsEarlierCons | src/dag.rs:101-110 | prepending the ready level to a run keeps every dependency placed before its dependent |
| Dag.KahnStops | src/dag.rs:91 | when the queue empties, no unplaced target has all of its dependencies placed |
| Dag.PlacedCons | src/dag.rs:96-115 | the targets placed by a run are those of its first level plus those of the rest, and so are the processed counts |
| Dag.KahnCount | src/dag.rs:99 | the processed count equals the number of distinct targets placed |
| Dag.KahnSorted | src/dag.rs:113-115 | every level is non-empty and sorted ascending |
| Dag.KahnEdges | src/dag.rs:65-116 | in a run from nothing, a dependency's level is strictly before its dependent's |
| Dag.EarlierOnce | src/dag.rs:65-116 | dependencies placed before their dependents in disjoint levels lie in strictly earlier levels |
| Dag.KahnStuck | src/dag.rs:118-124 | a run from nothing places only targets and stops with none ready |
| Dag.StuckSelfSustaining | src/dag.rs:118-124 | when no target is ready and some are unplaced, each unplaced target depends on another unplaced one |
| Dag.SourceBelow | src/dag.rs:65-116 | in levels where every dependency sits in an earlier level, every non-empty set of targets has a member that depends on nothing in the set |
| Dag.BuildOrder | src/dag.rs:37-133 | on success the levels hold as many entries as there are targets; an unknown-dependency error names a real target and an undefined dependency |
| Dag.BuildOrderSorted | src/dag.rs:113-115 | on success every level is non-empty and sorted |
| Dag.UnknownDependencyFirst | src/dag.rs:40-53 | an unknown-dependency error is returned exactly when some dependency is undefined, before any cycle check |
| Dag.AllPlacedIff | src/dag.rs:118-119 | the processed count equals the target count exactly when Kahn placed every target |
| Dag.BuildOrderPartition | src/dag.rs:37-133 | on success every defined target is in exactly one level, and nothing else appears |
| Dag.BuildOrderEdges | src/dag.rs:37-133 | on success a dependency's level is strictly before its dependent's |
| Dag.DebugList | src/dag.rs:127 | `{:?}` of a list of names: `[` and `]` around the quoted, escaped names; `[]` exactly for no names, and one name gives `["<escaped>"]` |
| Dag.QuoteAll | src/dag.rs:127 | each name in `"` quotes, escaped as `{:?}` escapes it, in order |
| Dag.Message | src/dag.rs:44-158 | the three `Err` texts: a cycle message exactly for a cycle, starting with "Cyclic dependency detected! …" (lines 126-129); "Target '<t>' has unknown dependency '<d>'" first for an unknown dependency (lines 44-50); "Target '<n>' not found." first for an unknown requested target (lines 155-158) |
| Dag.BuildOrderCyclic | src/dag.rs:118-130 | a cycle error names a non-empty set of targets each depending on another named one, and its message starts with "Cyclic dependency detected!" |
| Dag.BuildOrderAcyclic | src/dag.rs:37-133 | a successful order admits no set of targets each of which depends on another of the set |
| Dag.BuildOrderOkIff | src/dag.rs:37-133 | the order succeeds exactly when every dependency is defined and no set of targets is self-sustaining (no cycle) |
| Dag.KahnKeyOrderIndependent | src/dag.rs:85-115 | Kahn's levels do not depend on the hash map's iteration order |
| Dag.BuildOrderKeyOrderIndependent | src/dag.rs:37-133 | success and the levels do not depend on the hash map's iteration order |
| Dag.BuildOrderOfKahn | src/dag.rs:37-133 | the order succeeds exactly when no dependency is undefined and Kahn processed every target, and then it is Kahn's levels |
| Dag.CycleExample | src/dag.rs:292-309 | two targets depending on each other are reported as a cycle |
| Dag.Names | src/dag.rs:164-174 | every target and every dependency is a name the closure search may meet |
| Dag.PushDeps | src/dag.rs:168-172 | the seen set gains exactly the dependencies; only dependencies not seen before are pushed, and each of them is pushed |
| Dag.Explore | src/dag.rs:166-174 | the search only grows the seen set, within the names of the graph |
| Dag.Closure | src/dag.rs:163-174 | the closure contains the requested names |
| Dag.ExploreClosed | src/dag.rs:166-174 | the search ends with a set containing the dependencies of each of its targets |
| Dag.ExploreLeast | src/dag.rs:166-174 | the search ends inside every dependency-closed set that contains what it started from |
| Dag.ClosureIsLeast | src/dag.rs:163-174 | the closure is the least dependency-closed set containing the requested names |
| Dag.FilterLevels | src/dag.rs:176-188 | filtered levels are non-empty, no more numerous than before, and list exactly the kept names in order |
| Dag.FilterLevelsConcat | src/dag.rs:176-188 | filtering a concatenation of levels filters each part: levels are never merged, split or reordered |
| Dag.FilterLevelsAt | src/dag.rs:176-188 | level `k` of the order contributes exactly its kept names as one level, in place, and nothing when none is kept |
| Dag.FirstMissing | src/dag.rs:153-161 | the reported name was requested and is not a target; none only when all requested names are targets |
| Dag.FilterOrder | src/dag.rs:141-191 | an empty request returns the order unchanged; an error exactly when a requested name is undefined; otherwise the order restricted to the closure, with no empty level |
| Dag.FilterOrderContents | src/dag.rs:141-191 | a name is in the filtered order exactly when it is a requested target or a transitive dependency of one |
| Dag.FilterOrderLevels | src/dag.rs:176-188 | for a valid request, each level of the filtered order is one original level restricted to the closure, in the original order, with emptied levels dropped |
| Dag.BuildOrderNoDuplicates | src/dag.rs:37-133 | a build order lists no target twice |
| Dag.FilterOrderNoDuplicates | src/dag.rs:141-191 | a filtered build order lists no target twice |
| Dag.FilterPartition | src/dag.rs:176-188 | restricting a partition to the closure keeps exactly the closure |
| Dag.LinkOrder | src/dag.rs:217-224 | the link list holds exactly the kept names that appear in some level |
| Dag.TransitiveDepsInLinkOrder | src/dag.rs:198-226 | an unknown target has no dependencies; otherwise the list holds exactly the placed transitive dependencies |
| Dag.DependentsFirstConcat | src/dag.rs:217-224 | putting names nothing later depends on first keeps the list dependents-first |
| Dag.LinkOrderDependentsFirst | src/dag.rs:216-224 | walking the levels from last to first lists each target before its own dependencies |
| Dag.TransitiveDepsLinkOrder | src/dag.rs:196-226 | for a successful order, the list holds exactly the target's transitive dependencies, and each listed target comes before its own dependencies |
| Config.Command | src/config.rs:25-34 | gcc and g++ run under their own names and clang runs as `clang++` |
| Config.ParseCompiler | src/config.rs:16-23 | a compiler read from `build.toml` is the one whose spelling was given |
| Config.CompilerRoundTrip | src/config.rs:16-34 | every compiler reads back from its own spelling, and no two compilers run the same command |
| Config.DefaultCompilerCommand | src/config.rs:36-40 | a target naming no compiler uses g++ |
| Config.ParseTargetType | src/config.rs:45-53 | a target type read from `build.toml` is the one whose spelling was given |
| Config.TargetTypeRoundTrip | src/config.rs:45-53 | every target type reads back from its own spelling |
| Config.NamedTarget | src/config.rs:64-120 | a target table giving only a name takes the serde defaults: g++, executable, output directory `build`, no standard, empty lists |
| Config.JoinAll | src/config.rs:550-562 | each directory is joined onto the file's directory, in order |
| Config.ResolveSources | src/config.rs:496-548 | an error exactly when some glob pattern is invalid; without globs, the sources are exactly the joined entries that exist |
| Config.HasGlob | src/config.rs:502-503 | an entry is a glob pattern exactly when one of its characters is `*`, `?` or `[`; the empty entry never is |
| Config.HasGlobConcat | src/config.rs:503 | the glob test looks only at the characters: a concatenation is a glob exactly when one of its parts is |
| Config.EntrySources | src/config.rs:498-546 | one entry fails exactly when it is a glob whose pattern is invalid; a glob gives its matches; any other entry gives at most its joined path, and gives it exactly when that file exists |
| Config.ResolveSourcesCons | src/config.rs:497-548 | resolving a list of entries is resolving its first entry and then the rest, the first error winning and the sources joined in entry order |
| Config.ResolveSourcesOne | src/config.rs:498-546 | one entry contributes its glob matches, an error for an invalid glob, or its joined path exactly when that file exists |
| Config.ResolveSourcesConcat | src/config.rs:497-548 | resolving a concatenation of entries is resolving each part, their sources joined in entry order, the first error winning |
| Config.AndThenAssociative | src/config.rs:497-548 | chaining three resolution results does not depend on grouping: the same error wins and the same sources are joined in the same order |
| Config.ResolveSourcesAt | src/config.rs:497-548 | the sources of a target are the contributions of its entries in order: any entry's contribution sits between those of the entries before and after it |
| Config.ResolveTarget | src/config.rs:495-582 | an error exactly when source resolution fails; otherwise include, library and output directories are joined onto the base, and every other field is copied unchanged |
| Config.InsertFirst | src/config.rs:360-364 | a name already loaded leaves the targets unchanged; a new name is added with its target |
| Config.MergeFirst | src/config.rs:358-365 | inserting targets in turn keeps the name map and the insertion order consistent |
| Config.MergeFirstConcat | src/config.rs:358-365 | merging two lists is merging the first, then the second |
| Config.FirstNamed | src/config.rs:360-364 | the index found is the first target of that name |
| Config.MergeFirstWins | src/config.rs:358-365 | after merging, a name is defined exactly when it was loaded before or some merged target has it, and its definition is the earlier one or the first merged one |
| Config.ResolveAll | src/config.rs:358-359 | on success, each target is resolved in place and in order |
| Config.ParseRecursive | src/config.rs:290-399 | loading keeps the name map and the insertion order consistent |
| Config.AddTargets | src/config.rs:357-365 | adding a file's targets keeps the name map and the insertion order consistent |
| Config.ParseIncludes | src/config.rs:376-396 | loading the includes keeps the name map and the insertion order consistent |
| Config.AddTargetsIsMerge | src/config.rs:357-365 | adding a file's targets one by one is resolving them all and then merging them first-definition-wins, with the same first error |
| Config.ParseRecursiveIsMerge | src/config.rs:290-399 | loading a file tree gives the same first error, or the same targets, as collecting every target depth first and merging first-definition-wins |
| Config.ParseIncludesIsMerge | src/config.rs:376-396 | loading the includes in order is collecting their targets and merging them, with a missing include as the error |
| Config.Collect | src/config.rs:357-396 | a file's own targets, resolved in order, come first, then the includes'; a target resolution error is the result; any missing include makes the load fail |
| Config.CollectIncludes | src/config.rs:376-396 | any include that cannot be found makes the load fail |
| Config.ApplyStandard | src/config.rs:274-279 | a root `cxx_standard` replaces every target's standard and changes nothing else; without one the targets are unchanged |
| Propagation.GetIgnoresStandard | src/config.rs:411-416 | the propagated fields do not include the C++ standard |
| Propagation.ExternalIncludes | src/config.rs:455-474 | an undefined dependency named `bsoncxx…` contributes `src/bsoncxx/include`, one named `mongocxx…` contributes `src/mongocxx/include`, any other contributes nothing |
| Propagation.PrefixesExclusive | src/config.rs:458-466 | no dependency name triggers both fallback directories |
| Propagation.Gather | src/config.rs:419-475 | gathering over the dependencies only appends entries that were missing, never reordering or dropping any |
| Propagation.ContributesCons | src/config.rs:420 | an entry is contributed by a dependency list exactly when the first dependency or one of the rest contributes it |
| Propagation.GatherMembers | src/config.rs:419-475 | an entry ends up in a field exactly when it was there or some dependency contributes it |
| Propagation.GatherUnchanged | src/config.rs:417-478 | a field is left unchanged exactly when it already holds every contribution |
| Propagation.Propagated | src/config.rs:411-486 | a target only grows: each propagated field gains missing entries and every other field stays |
| Propagation.PropagatedGet | src/config.rs:412-486 | each propagated field of the new target is that field gathered over the dependencies |
| Propagation.GrowsTransitive | src/config.rs:404-489 | growing twice is growing |
| Propagation.SameFields | src/config.rs:480-486 | targets that agree outside and inside the propagated fields are equal |
| Propagation.StableMeans | src/config.rs:417-478 | a target is left unchanged exactly when each field already holds every dependency's entries and fallback directory |
| Propagation.MapGrowsTransitive | src/config.rs:404-489 | growth of every target is transitive across sweeps |
| Propagation.Step | src/config.rs:410-487 | one target's update only grows the map; it reports a change exactly when the map changed, and no change exactly when the target was already stable |
| Propagation.AppendsOnlyNewReflexiveAll | src/config.rs:404-489 | a map grows into itself |
| Propagation.GrowsStrict | src/config.rs:404-489 | once a target changed, further growth never brings it back |
| Propagation.Sweep | src/config.rs:407-488 | a sweep only grows the map, reports a change exactly when something changed, and reports none only when every target was stable |
| Propagation.GetInAllEntries | src/config.rs:411-416 | an entry of a propagated field is among the target's entries |
| Propagation.UniverseBounds | src/config.rs:403-490 | every entry of the starting map lies in the universe of possible entries |
| Propagation.StepBounded | src/config.rs:410-487 | a step takes entries only from fields of targets and the two fallback directories |
| Propagation.PropagatedEntry | src/config.rs:419-475 | every entry a propagated target holds comes from a target's field or a fallback directory |
| Propagation.ContributionBounded | src/config.rs:421-474 | what a dependency contributes is a field of a target or a fallback directory |
| Propagation.SweepBounded | src/config.rs:407-488 | a sweep introduces no entry from outside the universe |
| Propagation.FieldGap | src/config.rs:423-454 | appending missing entries never widens the gap to the universe, and a change narrows it |
| Propagation.GapDecreases | src/config.rs:411-486 | a grown target lacks no more entries of the universe than before, and strictly fewer when it changed |
| Propagation.FieldGapAt | src/config.rs:423-454 | per field, growth never widens the gap, and a changed field narrows it |
| Propagation.FieldsDiffer | src/config.rs:480-486 | targets that agree outside the propagated fields but differ, differ in one of them |
| Propagation.TotalGapDecreases | src/config.rs:406-489 | a sweep never widens the total gap, and narrows it when any target changed, so the loop terminates |
| Propagation.Fixpoint | src/config.rs:404-489 | the repeated sweeps end with every target stable, the map only grown and bounded by the universe |
| Propagation.PropagateDependencyProperties | src/config.rs:403-490 | the same targets, each only gaining entries it lacked; every target ends holding every entry of each dependency in the same field and the fallback directory of each undefined dependency; entries come only from targets and the fallbacks |
| Propagation.SaturatedAlongPath | src/config.rs:403-490 | in a saturated map, entries travel along whole dependency chains |
| Propagation.TransitivelyPropagated | src/config.rs:401-490 | after propagation a target holds every entry of every target it depends on transitively |
| Project.ParseBuildFile | src/config.rs:253-287 | for any iteration order `keys` of the loaded targets: an error exactly when loading fails; otherwise name and version come from the root project or their defaults, the standard is the root's, the targets are exactly the names defined somewhere, and a root standard applies to all |
| Project.FirstDefinitionKept | src/config.rs:358-365 | whatever the propagation order, each loaded target is its first definition in loading order, up to grown propagated fields and the root standard |
| Project.TargetsKeyedByName | src/config.rs:362-363 | every loaded target is stored under its own name |
| Compile.ForwardSlashes | src/compiler.rs:32 | the rewritten path has the same length and no backslash |
| Compile.ForwardSlashesAt | src/compiler.rs:32 | each character is kept, except that a backslash becomes `/` |
| Compile.PathArg | src/compiler.rs:29-33 | a path argument never contains a backslash |
| Compile.PathArgChars | src/compiler.rs:29-33 | a path without backslashes is passed unchanged; otherwise the verbatim prefix `\\?\` is dropped and every other character is kept, backslashes becoming `/` |
| Compile.PathArgIdempotent | src/compiler.rs:29-33 | rewriting a path argument twice is rewriting it once |
| Compile.SharedLibFilename | src/compiler.rs:36-39 | the name is `lib<name>.dll` on Windows and `lib<name>.so` elsewhere |
| Compile.ObjectPath | src/compiler.rs:101-108 | an object path lies under the target's object directory and ends in `.o` |
| Compile.ObjectDir | src/compiler.rs:101 | `<output_dir>/obj/<name>`: it starts with the output directory and ends with the target name, unless the name is absolute and replaces both |
| Compile.ObjectFileName | src/compiler.rs:102-107 | the source's file stem (or nothing when it has none) followed by `.o`: a relative name without separators |
| Compile.OutputFileName | src/compiler.rs:157-167 | an executable is named after its target; a library is `lib<name>` followed by `.a`, or by `.dll`/`.so` by platform; for a plain name it is one non-empty file name |
| Compile.OutputPath | src/compiler.rs:157-167 | the output is the output file name under the output directory (an absolute file name replaces the directory, as `Path::join` does) |
| Compile.OutputPathParts | src/compiler.rs:157-167 | for a plain target name the output's file name is `<name>`, `lib<name>.a` or the shared library name, and its parent is the output directory |
| Compile.ObjectPathParts | src/compiler.rs:101-108 | the object path starts with `<output_dir>/obj/<name>` and ends with the source's file stem plus `.o` |
| Compile.StemHasNoSeparator | src/compiler.rs:102-107 | an object file name never contains a separator |
| Compile.ObjectPathOfSource | src/compiler.rs:101-108 | a source `<dir>/<stem>.<ext>` compiles to `<stem>.o` directly inside the object directory |
| Compile.NeedsRecompile | src/compiler.rs:111-120 | a source is recompiled when its object is missing or the source's time cannot be read |
| Compile.CompiledIsUpToDate | src/compiler.rs:111-120 | after compiling at a time no earlier than the source's mtime, the source no longer needs recompiling |
| Compile.NeedsRecompileIff | src/compiler.rs:111-120 | a source is skipped exactly when its object exists, both mtimes are known and the source is not newer |
| Compile.LinkedIsUpToDate | src/compiler.rs:383-405 | after linking at a time no earlier than every input, the output no longer needs relinking |
| Compile.NewerObjectRelinks | src/compiler.rs:176-197 | an existing output with a known mtime is relinked when one object is newer |
| Compile.NeedsRelink | src/compiler.rs:170-205 | a relink is needed when the output is missing, a source was just recompiled, or an object is newer than the output |
| Compile.IncludeArgs | src/compiler.rs:298-300 | two arguments per include directory |
| Compile.IncludeArgsPair | src/compiler.rs:298-300 | the `i`-th include directory is the `i`-th `-I <dir>` pair |
| Compile.StandardArgs | src/compiler.rs:301-303 | a `-std` argument exactly when a standard is set |
| Compile.StandardArgRoundTrip | src/compiler.rs:301-303 | the argument is `-std=c++` followed by the standard's decimal digits, which read back as the standard |
| Compile.CompileArgs | src/compiler.rs:292-294 | the command starts `-c <src> -o <obj>` with both paths rewritten |
| Compile.CommandHead | src/compiler.rs:292-297 | the head has five arguments for a shared library and four otherwise |
| Compile.CompileArgsLayout | src/compiler.rs:291-309 | after the four fixed arguments come `-fPIC` exactly for a shared library, the include pairs, the standard, then the compiler flags and the legacy flags, in order |
| Compile.CompileArgsInclude | src/compiler.rs:298-300 | the `i`-th include directory is the `i`-th `-I` pair right after the head |
| Compile.CompileCommand | src/compiler.rs:291 | the compile command is the compiler's executable followed by the arguments |
| Compile.NonEmptyParts | src/compiler.rs:627-631 | exactly the non-empty parts, in order |
| Compile.LdLibraryPath | src/compiler.rs:619-635 | no directories and no inherited value give the empty string |
| Compile.InheritedParts | src/compiler.rs:626-632 | the inherited parts are non-empty and contain no `:` |
| Compile.LdLibraryPathSplits | src/compiler.rs:619-635 | splitting the value at `:` gives the library directories, then the inherited non-empty parts |
| Compile.LinkName | src/compiler.rs:599-608 | the fallback `-l` name is the library's file stem with a leading `lib` removed |
| Compile.LinkNameOfLibrary | src/compiler.rs:599-608 | for a library target with a plain name, the fallback names it by its target name |
| Compile.DependencyLinkArgs | src/compiler.rs:585-613 | no built dependency gives no arguments; one dependency gives its own arguments |
| Compile.DepArgs | src/compiler.rs:590-611 | a dependency not built contributes nothing; an existing library is passed by path; a missing one ends with `-l<name>` |
| Compile.DependencyLinkArgsConcat | src/compiler.rs:590-612 | the arguments of two dependency lists are the arguments of each, concatenated |
| Compile.FilterSources | src/compiler.rs:101-127 | a source is compiled exactly when it needs recompiling |
| Compile.ToCompile | src/compiler.rs:100-124 | the sources compiled are exactly the target's sources whose object is missing or out of date, never more than it has |
| Compile.BuildTarget | src/compiler.rs:59-245 | no sources gives success with an empty path; otherwise success exactly when no source that needs recompiling fails and the link succeeds or no relink is needed (a fresh compile forcing one); success carries the output path, failure an empty one |
| Compile.RunLinkStep | src/compiler.rs:352-436 | neither objects nor sources gives success with an empty path; otherwise success exactly when linking succeeds or no relink is needed, with the output path |
| Builder.DepGraph | src/builder.rs:136-144 | the dependency graph has exactly the project's targets, each mapped to its own `deps` |
| Builder.TotalTargets | src/builder.rs:124 | the total is the number of names in the order, and zero exactly when every level is empty |
| Builder.TotalTargetsCount | src/builder.rs:124 | for a successful build order, the sum of the level sizes is the number of targets |
| Builder.ObjectPathAgrees | src/builder.rs:254-263 | the coordinator's object path `<output_dir>/obj/<name>/<stem>.o` is the one the target's own build uses |
| Builder.LinkDepsForTarget | src/builder.rs:515-527 | no link dependencies exactly for an unknown target or a static library |
| Builder.LinkDepsForTargetContents | src/builder.rs:515-527 | for a successful order, an executable's or shared library's link dependencies are exactly its transitive dependencies, dependents first |
| Builder.BuiltDepsSubset | src/builder.rs:530-543 | empty without link dependencies; otherwise exactly the listed names that have been built, each with its built path |
| Builder.BuiltAmong | src/builder.rs:535-541 | exactly the listed names that have been built, each with its built path |
| Builder.CompileJobs | src/builder.rs:254-272 | one compile job per source, in order, carrying the source's index and object path |
| Builder.PushJobs | src/builder.rs:227-275 | an unknown target pushes nothing; a target without sources pushes one link job with no objects; otherwise one compile job per source in order; nothing else changes |
| Builder.Enqueue | src/builder.rs:277-284 | queueing makes the `obj_files` entry if missing, appends the target's jobs, counts them in flight and records the target once; counters and results stay |
| Builder.Dependents | src/builder.rs:136-144 | the dependents of a target are exactly the targets listing it in their `deps` |
| Builder.Occurrences | src/builder.rs:139-141 | a target appears once per occurrence of the dependency in its `deps` |
| Builder.QueueDependents | src/builder.rs:358-374 | a dependent is queued exactly when it is not yet queued and every one of its deps is built; none is queued twice; without such a dependent nothing changes |
| Builder.QueueDependentsJobs | src/builder.rs:358-374 | the dependents loop only appends jobs, counts each in flight, and every job belongs to a dependent it queued |
| Builder.QueueOneJobs | src/builder.rs:363-373 | queueing the first ready dependent pushes its jobs before the rest of the loop runs |
| Builder.EnqueueNew | src/builder.rs:277-284 | queueing a name not yet recorded pushes only jobs of that name and extends `obj_files` |
| Builder.EnqueueAll | src/builder.rs:277-284 | queueing a list records exactly its names in addition, counts every pushed job in flight and touches no result or counter |
| Builder.Init | src/builder.rs:206-284 | at the start exactly the first level's targets are queued, every pushed job is in flight, and nothing is built, answered or counted |
| Builder.Filled | src/builder.rs:331-334 | the object list of a complete target is its slots' paths, in order |
| Builder.OnCompileDone | src/builder.rs:294-347 | a failed compile is counted, flags the build failed and records a failed result; a successful one fills its slot and, once every slot is filled, pushes the link job with the built subset of its link dependencies |
| Builder.LinkResult | src/builder.rs:190-198 | a link job reports for its own target |
| Builder.OnLinkDone | src/builder.rs:348-399 | a successful link records the output and counts a success; a failed one counts a failure and sets the failure flag; without `ignore_errors` a failed link queues nothing |
| Builder.Handle | src/builder.rs:293-400 | handling a result answers its job, records at most one result and counts it once, and forgets no built output |
| Builder.Run | src/builder.rs:286-407 | the loop only adds answered jobs and results, counts each result once as a success or a failure, and forgets no built output |
| Builder.FailedCount | src/builder.rs:313-355 | the failure count is at most the number of results |
| Builder.FailedCountConcat | src/builder.rs:313-355 | the failures of two result lists add up |
| Builder.FailedCountZero | src/builder.rs:418 | no result failed exactly when the failure count is zero |
| Builder.EnqueueInv | src/builder.rs:277-284 | queueing a first-level or ready target keeps the coordinator invariant |
| Builder.EnqueueJobsKnown | src/builder.rs:227-275 | after queueing, every job names a queued target that has an object list, and a source index it has |
| Builder.EnqueueAllInv | src/builder.rs:277-284 | queueing the first level keeps the invariant |
| Builder.InitInv | src/builder.rs:206-284 | the state after queueing the first level satisfies the invariant: counters match results, `in_flight` counts the outstanding jobs, queued targets are first-level or ready |
| Builder.QueueDependentsInv | src/builder.rs:358-374 | the dependents loop keeps the invariant |
| Builder.CompileDoneInv | src/builder.rs:294-347 | handling a compile result keeps the invariant |
| Builder.CompileFailedInv | src/builder.rs:313-328 | handling a failed compile keeps the invariant |
| Builder.CompileSucceededInv | src/builder.rs:329-346 | handling a successful compile keeps the invariant |
| Builder.LinkDoneInv | src/builder.rs:348-399 | handling a link result keeps the invariant |
| Builder.RecordedInv | src/builder.rs:349-355 | recording a link result keeps the invariant |
| Builder.HandleInv | src/builder.rs:293-400 | handling any result that can arrive keeps the invariant |
| Builder.RunInv | src/builder.rs:286-407 | the whole coordinator loop keeps the invariant |
| Builder.Finish | src/builder.rs:417-433 | the report carries the loop's results and counters, and the sum of level sizes as the total |
| Builder.BuildNinjaStyle | src/builder.rs:116-433 | the total is the order's size, every result is counted as a success or a failure, and success means not cancelled and no failure |
| Builder.NinjaSuccessIff | src/builder.rs:417-418 | the build reports success exactly when it was not cancelled and every recorded result succeeded |
| Builder.FailedLinkQueuesNothing | src/builder.rs:356-374 | after a failed link, even with `ignore_errors`, no dependent is queued, because each lists the unbuilt target among its deps |
| Builder.Percent | src/builder.rs:317-318 | the percentage is `done * 100 / total` rounded down, and 0 for no targets |
| Builder.PercentAtMost100 | src/builder.rs:387-388 | while no more are done than exist, the percentage is at most 100 |
| Builder.ShownProgress | src/builder.rs:317-318 | the printed percentage is 0 without targets and at most 100 only while no more results than targets are counted |
| Builder.FinishedTargets | src/builder.rs:313-355 | every built target and every target with a failed result is finished |
| Builder.CorrectedProgress | src/builder.rs:313-320 | progress counting each finished target of the order once is 0 without targets and never passes 100 when the order lists each target once |
| Builder.CorrectedProgressBounded | src/builder.rs:313-320 | counting each finished target of the order once, the percentage never passes 100 for a full build order or one filtered to requested targets, whatever the coordinator did |
| Builder.InitTwoSources | src/builder.rs:277-284 | a single target with two sources starts with two compile jobs in flight |
| Builder.TwoFailedCompiles | src/builder.rs:313-328 | two failed compilations of one target's two sources leave two failures recorded |
| Builder.OvercountFigures | src/builder.rs:317-318 | with two failed compilations of the only target, the shown progress is 2 of 1, that is 200%, while one target finished |
| Builder.ProgressOvercounts | src/builder.rs:313-320 | a target whose two sources both fail to compile is shown as 2 of 1 targets done (200%) |
| Builder.FilteredOrderOfLib | src/dag.rs:176-188 | filtering the order `[[lib], [app]]` to a request for `lib` gives `[[lib]]` |
| Builder.FilteredInit | src/builder.rs:277-284 | with that order only `lib` is queued at the start, as one link job |
| Builder.FilteredDependents | src/builder.rs:136-144 | the dependents map still lists `app` as the dependent of `lib`, though `app` is outside the order |
| Builder.FilteredQueueApp | src/builder.rs:358-374 | once `lib` is built, the dependents loop queues a link job for `app` |
| Builder.FilteredLinkLib | src/builder.rs:348-374 | linking `lib` records it as built and queues `app` |
| Builder.FilteredLinkApp | src/builder.rs:348-374 | linking `app` records it as built too |
| Builder.FilteredStepLib | src/builder.rs:286-374 | from the start, the loop handles `lib`'s link result first, which leaves `lib` built and `app` queued |
| Builder.FilteredRunApp | src/builder.rs:286-374 | once `lib` is linked, the loop handles `app`'s link result and both are recorded as successes |
| Builder.FilteredRunLib | src/builder.rs:286-374 | from the start, the two link results leave both targets built with two successes and no failure |
| Builder.FilteredRun | src/builder.rs:277-374 | the same from the coordinator's initial state for the filtered order |
| Builder.FilteredFigures | src/builder.rs:317-318 | two targets built against an order of one shows 200%, while counting finished targets of the order shows 100% |
| Builder.FilteredProgressOvercounts | src/builder.rs:358-374 | a build filtered to `lib` still links its dependent `app`: 2 of 1 targets done, 200%, without any failure |
| Builder.BuildLevel | src/builder.rs:571-636 | one result per known target of the level, in level order, for that target |
| Builder.RecordBuilt | src/builder.rs:586-622 | recording keeps every built name, and each entry is either untouched or the output path of a successful result for that name |
| Builder.RecordBuiltKeys | src/builder.rs:586-622 | recording keeps what was built and adds exactly the names of the successful results |
| Builder.RunLevels | src/builder.rs:450-501 | with level `k` seeing its own file-system snapshot, the loop runs at most every level, and a stopped run ran at least one |
| Builder.ConsShaped | src/builder.rs:450-501 | a level without failures in front of a run keeps the run's shape |
| Builder.StopShaped | src/builder.rs:483-497 | a first level with a failure is a stopped run of one level |
| Builder.RunLevelsShape | src/builder.rs:450-501 | a run stops exactly when some result failed, runs every level unless it stops, and all failures lie in the last level it ran |
| Builder.BuildLevelByLevel | src/builder.rs:437-510 | with one file-system snapshot per level, the total is the sum of level sizes, and successful plus failed counts every result |
| Builder.LevelByLevelOutcome | src/builder.rs:437-510 | success exactly when every result succeeded; then every level ran; otherwise the build stopped after the first level with a failure, every earlier result a success |
| Builder.ShapedOutcome | src/builder.rs:483-497 | a run is unstopped exactly when all results succeeded, and then it has one result per known target |
| Builder.BuildLevelSucceeds | src/builder.rs:571-636 | with no failing compile and every link succeeding, no result of a level fails |
| Builder.RunLevelsAllSucceed | src/builder.rs:450-501 | with no failing compile or link, every level runs and nothing stops the build |
| Graph.LevelNodes | src/lib.rs:80-92 | one node per name of the level that is a target, in level order, each with the level's index |
| Graph.OrderNodes | src/lib.rs:79-101 | every node is a target placed in the level its `level` field names, built from that target |
| Graph.EdgesTo | src/lib.rs:93-98 | one edge per dependency entry, and an edge is there exactly when it points to the target from one of its dependencies |
| Graph.OrderEdges | src/lib.rs:79-98 | the edges are exactly the pairs `dep -> name` of a named target and one of its declared dependencies |
| Graph.ParseAndGraph | src/lib.rs:72-109 | the graph exists exactly when the build order succeeds, and carries that order; otherwise the order's error message is returned |
| Graph.OrderNodeIds | src/lib.rs:79-92 | when every placed name is a target, the node ids list the order level after level |
| Graph.IdsConcat | src/lib.rs:87-92 | the ids of two node lists are the ids of each, concatenated |
| Graph.FilterInAll | src/lib.rs:81 | a level whose every name is a target loses nothing |
| Graph.GraphNodes | src/lib.rs:79-92 | one node per target and no other: the ids list the order without repetition; id equals label; the type string is the target type's name; the level is the index of the level that holds the target |
| Graph.OrderPlacesTargets | src/lib.rs:79-81 | a build order places every target, and only targets, each once |
| Graph.OrderElements | src/lib.rs:79-81 | the names a build order places are exactly the targets |
| Graph.OrderNamesTargets | src/lib.rs:81 | every name a build order places is a target |
| Graph.EdgeCount | src/lib.rs:93-98 | an edge `dep -> name` occurs as often as `dep` occurs in the deps of `name` |
| Graph.EdgesToCount | src/lib.rs:93-98 | a target's edges hold `dep -> name` as often as `dep` is listed |
| Graph.GraphEdges | src/lib.rs:93-98 | for every target and each entry of its deps there is exactly one edge from the dependency to the target, and no other edge |
| Graph.NodeTypeNames | src/lib.rs:82-86 | the type string is `executable`, `static_lib` or `shared_lib`, and reads back as the target's type |
| Graph.CleanDirs | src/lib.rs:29-31 | the directories are strictly ascending and are exactly the targets' output directories |
| Graph.StrictlySortedUnique | src/lib.rs:30-31 | a sorted, de-duplicated list is fixed by its elements |
| Graph.StrictlySortedNoDuplicates | src/lib.rs:30-31 | a sorted, de-duplicated list lists nothing twice |
| Graph.CleanDirsOrderIndependent | src/lib.rs:29-31 | the directories removed are every output directory, each once, ascending, whatever order the map iterates in |
| CmakeLex.ScanFrom | src/cmake_converter.rs:46-66 | a position the scan reports lies between where it started and the end of the text |
| CmakeLex.FindClose | src/cmake_converter.rs:39-72 | the end the scanner reports for a command is a `)` at or after the argument list's start |
| CmakeLex.ScanFromFirst | src/cmake_converter.rs:46-66 | resumed from any position before the first closing `)`, the scan stops at that first `)`, and reports nothing when no character closes the command |
| CmakeLex.FindCloseIsFirst | src/cmake_converter.rs:39-72 | the argument list ends at the first unescaped, unquoted `)` that brings the nesting depth to zero; the command is dropped exactly when there is none |
| CmakeLex.ScanAgreesWithoutBackslash | gui/src-tauri/src/cmake_converter.rs:45-71 | from any scanner state, escaping anywhere and escaping only inside quotes scan alike when no backslash follows |
| CmakeLex.ScannersAgreeWithoutBackslash | gui/src-tauri/src/cmake_converter.rs:52-54 | the two converters' scanners, which differ only in where a backslash escapes, close a command at the same `)` when the text has no backslash |
| CmakeLex.Spans | src/cmake_converter.rs:38-74 | one span per command that closes, each from a match's end to its closing `)`, and every closing match yields its span |
| CmakeLex.SpansAgreeWithoutBackslash | gui/src-tauri/src/cmake_converter.rs:37-82 | without backslashes both converters find the same argument lists |
| CmakeLex.UnclosedYieldsNothing | src/cmake_converter.rs:68-72 | a command whose parentheses never close contributes no argument list |
| CmakeLex.ParseArgs | src/cmake_converter.rs:80-111 | every argument is non-empty and starts and ends with a non-whitespace character |
| CmakeLex.FlushKeepsTrimmed | src/cmake_converter.rs:97-102 | ending a token at a separator keeps every argument trimmed and non-empty |
| CmakeLex.StepKeepsTrimmed | src/cmake_converter.rs:86-104 | one character of input keeps every argument trimmed and non-empty |
| CmakeLex.FeedKeepsTrimmed | src/cmake_converter.rs:86-108 | after any input, and after the final flush, every argument is trimmed and non-empty |
| CmakeLex.FeedConcat | src/cmake_converter.rs:86 | the tokenizer reads its input one character at a time: feeding `a + b` is feeding `a` then `b` |
| CmakeLex.FlushAvoids | src/cmake_converter.rs:97-102 | a flushed argument holds only characters of the pending text |
| CmakeLex.FeedAvoids | src/cmake_converter.rs:93-104 | without backslashes, quotes and unquoted separators are never copied into an argument |
| CmakeLex.QuotesNeverCopied | src/cmake_converter.rs:96 | without backslashes in the input no argument contains a `"` |
| CmakeLex.SeparatorsSplit | src/cmake_converter.rs:97 | without backslashes or quotes no argument contains a space, tab, newline or carriage return |
| CmakeLex.EscapedFeed | src/cmake_converter.rs:87-91 | a backslash is dropped and the next character is copied, leaving the tokenizer unquoted and unescaped |
| CmakeLex.EscapedCharacterKept | src/cmake_converter.rs:87-95 | `\c` yields the one argument `c`, unless `c` is whitespace, which the trim removes |
| CmakeLex.FlushArgs | gui/src-tauri/src/cmake_converter.rs:109-116 | both flushing rules add the trimmed pending text exactly when it is not blank |
| CmakeLex.FeedQuoted | src/cmake_converter.rs:96-103 | inside quotes every character other than a quote or backslash is copied, separators included |
| CmakeLex.QuotedFeed | src/cmake_converter.rs:96-103 | `"w"` leaves `w` pending and the tokenizer unquoted |
| CmakeLex.QuotedArgument | src/cmake_converter.rs:96-108 | a quoted string with separators inside is one argument, its trimmed text |
| CmakeLex.SimulatesTrim | gui/src-tauri/src/cmake_converter.rs:109-111 | pending texts that differ by leading whitespace trim to the same argument |
| CmakeLex.FlushSimulates | gui/src-tauri/src/cmake_converter.rs:109-116 | a separator keeps the two tokenizers' states related: equal arguments, pending texts differing only by leading whitespace |
| CmakeLex.StepSimulates | gui/src-tauri/src/cmake_converter.rs:94-120 | every character keeps the two tokenizers' states related |
| CmakeLex.AppendSimulates | gui/src-tauri/src/cmake_converter.rs:117-119 | copying a character into both pending texts keeps them related |
| CmakeLex.FeedSimulates | gui/src-tauri/src/cmake_converter.rs:94-121 | any input keeps the two tokenizers' states related |
| CmakeLex.TokenizersAgree | gui/src-tauri/src/cmake_converter.rs:88-131 | the command-line converter's tokenizer, which keeps blank pending text, and the GUI converter's, which drops it, split every input into the same arguments |
| CmakeLex.CloseBrace | src/cmake_converter.rs:139 | the position is the first `}` at or after the start, and none means there is no `}` left |
| CmakeLex.MatchAt | src/cmake_converter.rs:139 | a match at `i` is the opening text followed by one or more non-`}` characters and a `}` |
| CmakeLex.Matches | src/cmake_converter.rs:139-142 | every span listed is a match of the pattern, at or after the starting position |
| CmakeLex.MatchName | src/cmake_converter.rs:143-145 | the captured name is non-empty, has no `}`, and the match is the opening, the name and `}` |
| CmakeLex.NoDollarNoMatches | src/cmake_converter.rs:139-142 | text without `$` has no `${...}` or `$ENV{...}` match |
| CmakeLex.SingleReference | src/cmake_converter.rs:139-145 | `${NAME}` alone is one match, capturing `NAME` |
| CmakeLex.ReplaceWhole | src/cmake_converter.rs:151-153 | replacing a whole non-empty text by a value gives the value |
| CmakeLex.ReplaceEach | src/cmake_converter.rs:151-153 | with no replacements the text is unchanged |
| CmakeLex.Underscored | src/cmake_converter.rs:390 | a name without `:` is left as it is |
| CmakeLex.ReplacedHead | src/cmake_converter.rs:390 | the renamed text starts with `_` exactly when the name starts with `::`, and with the name's first character otherwise |
| CmakeLex.UnderscoredHasNoDoubleColon | src/cmake_converter.rs:390 | after `::` is replaced by `_` no `::` is left in the name |
| CmakeCli.ExtractCommand | src/cmake_converter.rs:29-77 | each argument list is the tokenized text between some occurrence of the command and the `)` that closes it; there are never more lists than occurrences |
| CmakeCli.ClosedCommandExtracted | src/cmake_converter.rs:68-72 | every occurrence whose parentheses close contributes its tokenized argument list, even an empty one |
| CmakeCli.DefinedPairs | src/cmake_converter.rs:142-149 | a replacement is collected only for a match whose name is defined; none exactly when no matched name is defined |
| CmakeCli.DefinedTail | src/cmake_converter.rs:142-149 | a defined name among the matches after the first is a defined name among the remaining matches |
| CmakeCli.ResolveRound | src/cmake_converter.rs:137-175 | a round that finds nothing to replace leaves the text as it is, and a round that matches a defined `${NAME}` reports a change |
| CmakeCli.VarPairs | src/cmake_converter.rs:139-149 | every `${NAME}` pattern to replace is non-empty text |
| CmakeCli.EnvPairs | src/cmake_converter.rs:157-167 | every `$ENV{NAME}` pattern to replace is non-empty text |
| CmakeCli.ResolveFrom | src/cmake_converter.rs:134-136 | resuming after some rounds runs at least one more round and never more than ten in all |
| CmakeCli.ResolveVariables | src/cmake_converter.rs:127-176 | at least one and at most ten rounds of substitution run |
| CmakeCli.UndefinedReferencesKept | src/cmake_converter.rs:134-176 | when no reference names a defined variable or set environment variable, the text comes back unchanged after one round |
| CmakeCli.NoDollarUnchanged | src/cmake_converter.rs:134-176 | text without `$` comes back unchanged after one round |
| CmakeCli.DefinedReferenceResolved | src/cmake_converter.rs:139-153 | `${NAME}` with a defined value free of `$` becomes that value, the second round finding nothing left |
| CmakeCli.ResolvePathOperations | src/cmake_converter.rs:179-204 | a path without `..` is returned as it is; otherwise its `/`-separated segments are rebuilt with `..` popping the last kept segment, `.` when nothing is kept |
| CmakeCli.ResolvePathOperationsIdempotent | src/cmake_converter.rs:179-204 | resolving a resolved path changes nothing |
| CmakeCli.TrailingParentPops | src/cmake_converter.rs:186-189 | appending `/..` drops the last kept segment, giving `.` when at most one is kept |
| CmakeCli.FindNamed | src/cmake_converter.rs:382 | the position found is the first target with that name, and none means no target has it |
| CmakeCli.FindDep | src/cmake_converter.rs:390-392 | the target found is the first whose name equals the dependency or the dependency with `::` renamed to `_`, and none means no target answers to it |
| CmakeCli.ProvidedByRest | src/cmake_converter.rs:388-400 | a directory provided by some dependency of a list is provided by the first or by one of the rest |
| CmakeCli.WithInterfaceDirs | src/cmake_converter.rs:383-400 | the include directories only gain entries not already present, and end up holding exactly the old ones and the INTERFACE directories of the targets the dependencies resolve to |
| CmakeCli.Updated | src/cmake_converter.rs:383-408 | a target's update only appends new include directories |
| CmakeCli.Names | src/cmake_converter.rs:379 | the list of names is the targets' names in order |
| CmakeCli.PassFrom | src/cmake_converter.rs:381-409 | a pass keeps the number of targets, and a change already recorded stays recorded |
| CmakeCli.SameUnion | src/cmake_converter.rs:406-408 | changing only include directories leaves the set of INTERFACE directories alone |
| CmakeCli.GrowsReflexive | src/cmake_converter.rs:374-412 | a project grows into itself |
| CmakeCli.GrowsTransitive | src/cmake_converter.rs:376-378 | growth across passes composes, and a gain in either pass is a gain overall |
| CmakeCli.UpdateGrows | src/cmake_converter.rs:405-408 | replacing one target's include directories by its update makes the project grow |
| CmakeCli.PassGrows | src/cmake_converter.rs:381-409 | a pass makes the project grow, and strictly whenever it is the pass that reports a change |
| CmakeCli.PassSettles | src/cmake_converter.rs:376-380 | a pass reporting no change leaves the project as it was, with every name settled: its first target holds every INTERFACE directory its dependencies provide |
| CmakeCli.MissingShrinks | src/cmake_converter.rs:394-399 | growing include directories never increase the number of missing (target, INTERFACE directory) pairs, and adding one missing pair decreases it |
| CmakeCli.PassShrinks | src/cmake_converter.rs:376-378 | a gaining pass strictly decreases the number of missing pairs, so the loop terminates |
| CmakeCli.SettledClosed | src/cmake_converter.rs:374-412 | a project in which every name is settled is closed |
| CmakeCli.PropagateInterfaceIncludes | src/cmake_converter.rs:374-412 | the result grows from the input and is closed: the first target of each name holds every INTERFACE include directory of each dependency it names |
| CmakeCli.PropagationChangesOnlyIncludes | src/cmake_converter.rs:374-412 | names, dependencies, sources and INTERFACE directories are kept; include directories only gain new entries at the end |
| CmakeCli.SourceFileNotHeader | src/cmake_converter.rs:899-969 | a name with a C or C++ source extension is never a header |
| CmakeCli.CleanSourceDir | src/cmake_converter.rs:919-949 | no directory gives none; a directory not starting with the base directory's name is kept; anything kept is a suffix of the original |
| CmakeCli.SourcePath | src/cmake_converter.rs:952-964 | the emitted path ends with the source as written |
| CmakeCli.SourcePathResolved | src/cmake_converter.rs:907-964 | a source without unresolved references, under a directory without `$`, yields a path without them |
| CmakeCli.PartSources | src/cmake_converter.rs:905-975 | every path emitted for the parts of an entry names a C or C++ source file |
| CmakeCli.PartSourcesResolved | src/cmake_converter.rs:907 | under a directory without `$`, no emitted path carries `${` or `$<` |
| CmakeCli.SourceCandidates | src/cmake_converter.rs:888-976 | every candidate path names a C or C++ source file |
| CmakeCli.SourceCandidatesResolved | src/cmake_converter.rs:890-907 | under a directory without `$`, no candidate carries `${` or `$<` |
| CmakeCli.ValidSources | src/cmake_converter.rs:886-976 | the emitted sources are source files, none twice, exactly the candidate paths, listed in the order each first appears among the candidates |
| CmakeCli.SourceFileNotObject | src/cmake_converter.rs:894-897 | a source file name is never the `OBJECT` keyword in any case |
| CmakeCli.ValidSourcesNotHeaders | src/cmake_converter.rs:894-902 | no emitted source is a header or `OBJECT` |
| CmakeCli.ValidSourcesResolved | src/cmake_converter.rs:890-907 | when the cleaned directory has no `$`, no emitted source has an unresolved reference |
| CmakeCli.StripMongo | src/cmake_converter.rs:1012-1017 | the stripped directory is a suffix of the original, which is kept when it lacks the `mongo-cxx-driver/` prefix |
| CmakeCli.KeptByRest | src/cmake_converter.rs:1009-1033 | a directory kept from a list is kept from its head or from the rest |
| CmakeCli.CleanIncludeDirs | src/cmake_converter.rs:1009-1033 | every cleaned include directory is non-empty, not a comment, unresolved, back-quoted or a visibility keyword |
| CmakeCli.CleanIncludeDirsMembers | src/cmake_converter.rs:1009-1033 | the cleaned directories are exactly the stripped directories that pass the filter |
| CmakeCli.FindLib | src/cmake_converter.rs:1051-1055 | the first target whose name equals the library name with `::` renamed, equals the library name, or equals it after renaming `::` in its own name; none exactly when no target matches |
| CmakeCli.LibProvidedByRest | src/cmake_converter.rs:1049-1068 | a directory provided by some library of a list is provided by the first or by one of the rest |
| CmakeCli.LibStep | src/cmake_converter.rs:1050-1068 | one library appends only new directories, exactly the INTERFACE and ordinary include directories of the target it resolves to |
| CmakeCli.WithLibDirs | src/cmake_converter.rs:1049-1068 | the libraries append only new directories, exactly those their targets provide |
| CmakeCli.OwnDir | src/cmake_converter.rs:1036-1045 | the target's own directory is added only when it is not empty |
| CmakeCli.IncludeDirsToAdd | src/cmake_converter.rs:1009-1068 | the emitted include directories extend the cleaned ones with new entries only, and are exactly the cleaned ones, the own directory and what the libraries' targets provide |
| CmakeCli.NormalizedDeps | src/cmake_converter.rs:1087-1090 | one dependency out per dependency in, none containing `::`, and a name without `:` unchanged |
| CmakeCli.ValidLibs | src/cmake_converter.rs:1101-1111 | the emitted libraries are exactly those not a visibility keyword and without `${` or `$<`, kept in their original link order |
| CmakeCli.AllFlags | src/cmake_converter.rs:1122-1123 | the flags come first, then `-D` followed by each definition, in order |
| CmakeCli.TypeName | src/cmake_converter.rs:986-991 | the emitted type always parses; a known type is kept and anything else becomes `static_lib` |
| CmakeCli.ConvertTarget | src/cmake_converter.rs:884-1133 | the block keeps the target's name, has a type the build file accepts, and lists no source twice |
| CmakeCli.ConvertToToml | src/cmake_converter.rs:884-1136 | one block per target, in order, each with the target's name and a valid type |
| CmakeGui.NonEmpty | gui/src-tauri/src/cmake_converter.rs:77-79 | the argument lists kept are exactly the non-empty ones |
| CmakeGui.AllArguments | gui/src-tauri/src/cmake_converter.rs:73-77 | one tokenized argument list per closed command |
| CmakeGui.ExtractCommand | gui/src-tauri/src/cmake_converter.rs:28-85 | every list returned is non-empty and is the tokenized text between an occurrence of the command and its closing `)`, a backslash escaping only inside quotes |
| CmakeGui.ExtractedArguments | gui/src-tauri/src/cmake_converter.rs:37-82 | the lists extracted are the non-empty argument lists of the commands that close |
| CmakeGui.ConvertersExtractAlike | gui/src-tauri/src/cmake_converter.rs:28-85 | on text without backslashes the GUI converter extracts what the command-line converter does, less the empty lists |
| CmakeGui.NormalizeIncludePath | gui/src-tauri/src/cmake_converter.rs:134-164 | the result is `.` or `/`-joined normal components: none empty, `.` or `..` |
| CmakeGui.NormalizeIncludePathIdempotent | gui/src-tauri/src/cmake_converter.rs:143-163 | normalizing an already normalized path under `.` changes nothing |
| CmakeGui.PrefixedPathNotJoined | gui/src-tauri/src/cmake_converter.rs:137-138 | a path already starting with the CMake directory is normalized without being joined onto it again |
| CmakeGui.DefaultValue | gui/src-tauri/src/cmake_converter.rs:176-190 | exactly the seven well-known names (the three source directories, the three binary directories and the module path) have a default |
| CmakeGui.Substitution | gui/src-tauri/src/cmake_converter.rs:173-190 | a defined name is replaced by its definition; an undefined one by its default, if any |
| CmakeGui.Reference | gui/src-tauri/src/cmake_converter.rs:174 | the reference text is three characters longer than the name |
| CmakeGui.SubstituteMatches | gui/src-tauri/src/cmake_converter.rs:171-192 | with no matches the text is unchanged |
| CmakeGui.ResolveVariable | gui/src-tauri/src/cmake_converter.rs:167-195 | a value without references comes back as it is |
| CmakeGui.ExampleMatches | gui/src-tauri/src/cmake_converter.rs:169-171 | the references of `${A}${B}` are found at 0 and 4, naming `A` and `B` |
| CmakeGui.ExampleReplacements | gui/src-tauri/src/cmake_converter.rs:174 | replacing `${A}` by `${B}` and then `${B}` by `x` rewrites each occurrence in the text as it stands |
| CmakeGui.ReplaceTwice | gui/src-tauri/src/cmake_converter.rs:174 | a doubled pattern is replaced twice |
| CmakeGui.SubstitutedTextReplacedAgain | gui/src-tauri/src/cmake_converter.rs:171-192 | a reference brought in by an earlier value is replaced when its name is matched later: `${A}${B}` with A=`${B}` and B=`x` becomes `xx` |
| CmakeGui.NoDollarUnchanged | gui/src-tauri/src/cmake_converter.rs:167-195 | text without `$` is returned as it is |
| CmakeGui.SingleReferenceResolved | gui/src-tauri/src/cmake_converter.rs:171-190 | `${NAME}` alone becomes its definition or default exactly, without resolving references inside it, and stays when the name is unknown |
| CmakeGui.UnknownReferenceKept | gui/src-tauri/src/cmake_converter.rs:187-189 | a reference to a name neither defined nor well known is left as it is |
| CmakeGui.InitialVariables | gui/src-tauri/src/cmake_converter.rs:252-256 | every file starts with exactly the two source-directory variables defined |
| CmakeGui.ProjectSourceDirResolved | gui/src-tauri/src/cmake_converter.rs:252-256 | with the initial variables, `${PROJECT_SOURCE_DIR}` resolves to the file's own directory rather than the default `.` |
| CmakeGui.LineLength | gui/src-tauri/src/cmake_converter.rs:260 | the first line ends at the first `\n`, or at the end of the text |
| CmakeGui.StripCarriageReturn | gui/src-tauri/src/cmake_converter.rs:260 | a line without `\r` is kept as it is |
| CmakeGui.BeforeHash | gui/src-tauri/src/cmake_converter.rs:262-266 | the kept part is the prefix of the line before its first `#` |
| CmakeGui.BeforeHashNoHash | gui/src-tauri/src/cmake_converter.rs:262-266 | a line without `#` is kept whole |
| CmakeGui.StripComments | gui/src-tauri/src/cmake_converter.rs:259-269 | no `#` is left in the text commands are extracted from |
| CmakeGui.OneLineStripped | gui/src-tauri/src/cmake_converter.rs:259-269 | a single line is cut at its first `#` |
| CmakeGui.CrLfReadAsLf | gui/src-tauri/src/cmake_converter.rs:259-269 | a `\r\n` line ending gives the same text as `\n` |
| CmakeGui.FirstLine | gui/src-tauri/src/cmake_converter.rs:259-269 | a text starting with a line and a `\n` is that line cut at `#`, a `\n` and the rest stripped |
| CmakeGui.LineAt | gui/src-tauri/src/cmake_converter.rs:260 | the first line ends at the first `\n` |
| CmakeGui.SplitAtLine | gui/src-tauri/src/cmake_converter.rs:260 | text with a `\n` splits into its first line, the `\n` and the rest |
| CmakeGui.NoCommentUnchanged | gui/src-tauri/src/cmake_converter.rs:259-269 | text without `#` or `\r` and not ending in a newline passes through unchanged |
| CmakeGui.ValueParts | gui/src-tauri/src/cmake_converter.rs:276-294 | the value parts are arguments of the command, none of them a stop or type keyword |
| CmakeGui.PlainValueKept | gui/src-tauri/src/cmake_converter.rs:278-294 | without keywords every argument after the name is part of the value |
| CmakeGui.StopKeywordEndsValue | gui/src-tauri/src/cmake_converter.rs:284-287 | everything from `CACHE`, `INTERNAL`, `FORCE` or `PARENT_SCOPE` on is ignored |
| CmakeGui.PlainWordKept | gui/src-tauri/src/cmake_converter.rs:293 | a word that is no keyword is kept as a value part |
| CmakeGui.TypeKeywordFirst | gui/src-tauri/src/cmake_converter.rs:288-291 | a leading `STRING`, `BOOL`, `PATH` or `FILEPATH` is skipped together with the argument after it |
| CmakeGui.PlainWordBefore | gui/src-tauri/src/cmake_converter.rs:293 | a plain word in front keeps its place before the value parts of the rest |
| CmakeGui.TypeKeywordSkipsNext | gui/src-tauri/src/cmake_converter.rs:278-294 | after plain words, a type keyword and the argument after it are dropped and the rest is read on |
| CmakeGui.TrailingTypeKeyword | gui/src-tauri/src/cmake_converter.rs:288-291 | a type keyword as the last argument is dropped and ends the value |
| CmakeGui.SetCommand | gui/src-tauri/src/cmake_converter.rs:272-300 | a `set()` assigns exactly when it has a name and at least one value part, and then assigns the parts joined by spaces to the first argument |
| CmakeGui.SetVariables | gui/src-tauri/src/cmake_converter.rs:272-300 | no variable defined before the `set()` commands is removed |
| CmakeGui.UnassignedKept | gui/src-tauri/src/cmake_converter.rs:272-300 | a variable no `set()` assigns keeps its value, or stays undefined |
| CmakeGui.LastAssignmentWins | gui/src-tauri/src/cmake_converter.rs:295-297 | after a final assigning `set()`, its variable holds its value |
| CmakeGui.SetVariablesSnoc | gui/src-tauri/src/cmake_converter.rs:272-300 | the `set()` commands are applied one after another, in order |
| CmakeGui.TargetName | gui/src-tauri/src/cmake_converter.rs:329-337 | a target name holds no `::`, and the command is skipped exactly when `${` or `$<` remains after resolution |
| CmakeGui.PlainTargetName | gui/src-tauri/src/cmake_converter.rs:329-337 | a name without `$` or `:` is taken as it is |
| CmakeGui.SourcePath | gui/src-tauri/src/cmake_converter.rs:983-990 | a source is written as it is, or as the target's directory, `/` and the source |
| CmakeGui.GuiSources | gui/src-tauri/src/cmake_converter.rs:960-994 | no more sources are written than the target has, and a path is written exactly when some kept source of the target has it |
| CmakeGui.Sources | gui/src-tauri/src/cmake_converter.rs:966-992 | no more sources are written than given; when every source is kept, the `i`-th written path is the `i`-th source's |
| CmakeGui.SourcesMembers | gui/src-tauri/src/cmake_converter.rs:966-992 | a written source is exactly the written path of some source that is not a header, `OBJECT` or unresolved |
| CmakeGui.SourcesConcat | gui/src-tauri/src/cmake_converter.rs:966-992 | the sources written for a concatenation are those of each part, in order |
| CmakeGui.GuiSourcesOne | gui/src-tauri/src/cmake_converter.rs:966-992 | each source contributes its written path in place when kept, and nothing when skipped |
| CmakeGui.SourcesOne | gui/src-tauri/src/cmake_converter.rs:966-992 | the written sources of a list split around one source are the written sources before it, that source's written path when kept, and the written sources after it |
| CmakeGui.SourcesSingle | gui/src-tauri/src/cmake_converter.rs:966-992 | a single source is written as its path exactly when it is kept, and otherwise nothing is written |
| CmakeGui.GuiSourcesFiltered | gui/src-tauri/src/cmake_converter.rs:966-990 | without a directory, every written source is one of the target's sources, and not a header, `OBJECT` or unresolved |
| CmakeGui.SourceDirCandidates | gui/src-tauri/src/cmake_converter.rs:1002-1023 | with a directory each source suggests that directory, once per source; without one, the candidates are exactly the non-empty parents of the sources |
| CmakeGui.ParentOfSomeCons | gui/src-tauri/src/cmake_converter.rs:1010-1019 | a directory is a non-empty parent of some source exactly when it is the first source's parent or a parent of one of the rest |
| CmakeGui.GuiIncludeDirs | gui/src-tauri/src/cmake_converter.rs:996-1023 | the include directories only gain new entries; with a directory, the entries are the include directories plus that directory when there are sources; without one, the include directories plus the non-empty parents of the sources, and nothing else |
| CmakeGui.GuiFlags | gui/src-tauri/src/cmake_converter.rs:1051-1074 | the flags written hold no generator expression and end with `-D` followed by each definition, in order |
| CmakeGui.PlainFlagsKept | gui/src-tauri/src/cmake_converter.rs:1053-1058 | flags without generator expressions are all written, in order, before the definitions |
| CmakeGui.Item | gui/src-tauri/src/cmake_converter.rs:1058 | an array entry line is indented |
| CmakeGui.Items | gui/src-tauri/src/cmake_converter.rs:1053-1059 | one entry line per value, in order |
| CmakeGui.Definitions | gui/src-tauri/src/cmake_converter.rs:1068-1070 | one `-D` flag per definition |
| CmakeGui.GuiFlagsSplit | gui/src-tauri/src/cmake_converter.rs:1051-1074 | the flags written are the kept flags followed by the definitions |
| CmakeGui.FlagsLinesAsWritten | gui/src-tauri/src/cmake_converter.rs:1051-1074 | a target with neither flags nor definitions writes no `flags` lines |
| CmakeGui.DefinitionsOutsideArray | gui/src-tauri/src/cmake_converter.rs:1060-1073 | with both flags and definitions, the lines as written are not one well-formed `flags` array |
| CmakeGui.FlagsLines | gui/src-tauri/src/cmake_converter.rs:1051-1074 | the corrected lines are one well-formed `flags` array holding the kept flags then the definitions, and are absent exactly when both lists are empty |
| CmakeGui.FlagsLinesAgree | gui/src-tauri/src/cmake_converter.rs:1064-1073 | with only flags or only definitions, the code already writes the corrected block |
| CmakeGui.ConvertTarget | gui/src-tauri/src/cmake_converter.rs:954-1085 | the block keeps the name, type, library directories, libraries and dependencies, only adds include directories, and names the default compiler `g++` |
| CmakeGui.ConvertToToml | gui/src-tauri/src/cmake_converter.rs:954-1086 | one block per target, in order, each with the target's name and `g++` as compiler |
| Strings.Trim | src/cmake_converter.rs:97-98 | the trimmed text starts and ends with a non-whitespace character, and is empty exactly when the text is all whitespace |
| Strings.Split | src/cmake_converter.rs:182 | splitting on a character gives at least one piece, none containing the separator |
| Strings.JoinSplit | src/cmake_converter.rs:182 | joining the pieces with the separator gives the text back |
| Strings.SplitJoin | src/cmake_converter.rs:196-199 | splitting separator-free pieces joined by the separator gives the pieces back |
| Strings.SplitWhitespace | src/cmake_converter.rs:905 | the pieces are non-empty and hold no whitespace |
| Strings.NatToString | src/compiler.rs:301-303 | the rendering is non-empty decimal digits without a leading zero |
| Strings.DecimalValueOfNatToString | src/compiler.rs:301-303 | reading the rendering back as a decimal number gives the number |
| Strings.ReplaceAll | src/cmake_converter.rs:152 | text without the pattern comes back unchanged |
| Strings.UpperChar | gui/src-tauri/src/cmake_converter.rs:283 | a character's upper case is never empty and holds no ASCII lower-case letter; on ASCII it is the letter's capital or the character itself |
| Strings.ToUpper | gui/src-tauri/src/cmake_converter.rs:283 | upper case never shortens a text and leaves no ASCII lower-case letter; on ASCII text it maps letter by letter |
| Strings.ToUpperConcat | gui/src-tauri/src/cmake_converter.rs:283 | the upper case of a concatenation is the concatenation of the upper cases |
| Strings.ToUpperIdempotent | gui/src-tauri/src/cmake_converter.rs:283 | upper-casing twice is upper-casing once |
| Strings.HexDigit | src/dag.rs:127 | a digit below 16 is written as one lower-case hexadecimal character |
| Strings.HexValue | src/dag.rs:127 | a lower-case hexadecimal character reads back as the digit it writes |
| Strings.DebugEscape | src/dag.rs:127 | a character is written as itself exactly when it is no ASCII control character, `\` or `"`; otherwise as an escape of two to six characters starting with `\` |
| Strings.DebugEscapeAll | src/dag.rs:127 | escaping never shortens a name |
| Strings.DebugUnescapeOne | src/dag.rs:127 | one escaped character reads back as itself, whatever follows |
| Strings.DebugEscapeRoundTrip | src/dag.rs:127 | reading the escaped text back gives the name: distinct names are written differently |
| Strings.DebugEscapePlain | src/dag.rs:127 | a name without quotes, backslashes or ASCII control characters is written as it is |
| Strings.ToUpperFixed | gui/src-tauri/src/cmake_converter.rs:283 | a text whose every character is its own upper case is unchanged |
| Paths.Join | src/compiler.rs:87-108 | an absolute right-hand side replaces the base; otherwise the length is the two parts plus any separator inserted |
| Paths.JoinParts | src/compiler.rs:87-108 | a joined relative path starts with the base, ends with the path, and has a separator between them exactly when the base needs one |
| Paths.JoinAssociative | src/compiler.rs:87 | joining two relative pieces one after the other is joining them first |
| Paths.ResolveSegments | src/cmake_converter.rs:183-194 | the kept segments are normal segments taken from the input, never more of them than the input has |
| Paths.ResolveParent | src/cmake_converter.rs:185-188 | a trailing `..` pops the last kept segment, and is ignored when none is kept |
| Paths.ResolveWithoutParent | src/cmake_converter.rs:189-191 | without `..`, resolving keeps exactly the normal segments, in order |
| Paths.NormalSegmentsOfNormal | src/cmake_converter.rs:189-191 | segments that are all normal are kept as they are |
| Paths.Normalize | gui/src-tauri/src/cmake_converter.rs:143-163 | the normal form is `.` or `/`-joined segments, none of them empty, `.` or `..` |
| Paths.NormalizeIdempotent | gui/src-tauri/src/cmake_converter.rs:143-163 | normalizing twice is normalizing once |
| Paths.FileName | src/compiler.rs:596-603 | a file name is a single normal component |
| Paths.FileNameOfJoin | src/compiler.rs:108 | the file name of a directory joined with a name is that name |
| Paths.Stem | src/compiler.rs:101-106 | the stem is the name, or the prefix before a last `.` with no `.` after it |
| Paths.StemOfExtension | src/compiler.rs:101-106 | the stem of `name.ext` is `name` |
| Paths.FileStem | src/builder.rs:256-260 | a path has a stem exactly when it has a file name, and the stem is that name's stem |
| Paths.Parent | src/compiler.rs:255 | only a path of separators has no parent, and a parent is shorter than the path |
| Paths.ParentOfJoin | src/compiler.rs:380 | the parent of a directory joined with a name is the directory |
| Ordering.Sort | src/lib.rs:30 | the sorted list is ordered and a permutation of the input |
| Ordering.SortedUnique | src/lib.rs:30 | a sorted list is fixed by its multiset |
| Ordering.SortPermutationInvariant | src/lib.rs:30 | lists with the same elements sort to the same list |
| Ordering.Dedup | src/lib.rs:31 | dedup keeps every element, no two neighbours equal, and the first element first |
| Ordering.SortDedup | src/lib.rs:30-31 | sorting then deduplicating gives a strictly ascending list of exactly the input's elements |
| Ordering.DedupOfSorted | src/lib.rs:30-31 | deduplicating a sorted list makes it strictly ascending |
| Seqs.AppendMissing | src/cmake_converter.rs:394-399 | pushing each entry not already present only appends new entries, ends with exactly the union, and changes nothing exactly when every entry was present |
| Seqs.AppendMissingNoDuplicates | src/cmake_converter.rs:394-399 | pushing only missing entries keeps a duplicate-free list duplicate-free |
| Seqs.AppendMissingSnoc | src/cmake_converter.rs:394-399 | pushing one more entry adds it at the end exactly when it is missing |
| Seqs.AppendMissingFirstSeen | src/cmake_converter.rs:394-399 | pushing missing entries lists each in the order it is first seen |
| Seqs.FirstSeenExtend | src/cmake_converter.rs:394-399 | first-seen order survives more entries seen after |
| Seqs.FirstSeenSnoc | src/cmake_converter.rs:394-399 | appending a new entry to both lists keeps first-seen order |
| Seqs.FirstIndexPrefix | src/cmake_converter.rs:394-399 | an entry's first position is found in the earliest part that holds it |
| Seqs.TotalLengthZero | src/builder.rs:124 | the level sizes sum to zero exactly when every level is empty |
| Seqs.FilterInSameOn | src/cmake_converter.rs:1101-1111 | filtering with two sets that agree on the list keeps the same entries |

## Left out

- Worker threads, the job and result channels, `Arc`/`Mutex` state and the cancellation flag of `src/builder.rs`: the coordinator is a sequential state machine driven by a list of job results, each carrying the cancel flag as read after it.
- Process spawning and output capture (`run_command`, `Command::output`): a compile or link outcome is an input, and the messages collected from the compiler's output are not modelled.
- The link and archive command lines of `link_executable`, `create_static_lib` and `link_shared_lib` (src/compiler.rs:441-577): only the dependency link arguments they share (`add_dependency_link_args`) are modelled.
- `compile_one_source` beyond its argument list (src/compiler.rs:279-350): creating the object directory and reporting the compiler's output are I/O.
- Printed and streamed progress and status messages, `print_ld_library_path_info`, and the output-collecting wrappers `build_and_collect_output` and `build_and_stream_output` of `src/lib.rs`.
- The file system seen by the compiler decisions is a map from existing paths to modification times, `None` when a time cannot be read.
- File reading, TOML and serde deserialisation: a build file is modelled as the fields it is read into, and an emitted `build.toml` as the field lists it is rendered from, `sources` always written (as `sources = []` when empty) and any other empty list standing for an omitted field.
- `find_workspace_root` (src/config.rs:217-242), `find_all_cmake_files` and `convert_cmake_to_toml_files` (src/cmake_converter.rs:240-372): they walk the file system.
- Glob expansion is a function parameter of the file-system record; `canonicalize` is not modelled.
- The regular-expression search for command names (`\bname\s*\(`, case-insensitive): the positions where the argument lists start are a parameter. The `${NAME}` and `$ENV{NAME}` patterns are modelled at character level.
- The process environment: `$ENV{NAME}` lookups read a map passed in, and so does the existing `LD_LIBRARY_PATH`.
- The rest of both converters' `parse_cmake_lists_recursive` (which commands fill which target fields, `include()` and `add_subdirectory` file loading, `project()` name and version, the `bsoncxx`/`mongocxx` special cases): the model starts from the parsed targets and covers the steps named above; the command-line converter's single-reference `resolve_variable` (src/cmake_converter.rs:114-124) is not modelled because `resolve_variables` supersedes it.
- The `[project]` header and `includes` array written by `convert_to_toml_with_includes`, and the GUI converter's project `name`/`version` lines: only the `[[target]]` blocks are modelled.
- CmakeCli.CleanSourceDir: the base path's file name is a parameter, and the contract states the untouched and suffix cases rather than the exact remainder after the base name is stripped.
- Paths.Parent: models `Path::parent` only for paths without `.` components or doubled separators, which are the paths the core passes it.
- CmakeLex.ReplaceEach: states only the empty case; the pieces of each replacement are covered by Strings.ReplaceAll and CmakeLex.ReplaceWhole.
- CmakeGui.SubstituteMatches and CmakeGui.Reference: state only the empty case and the length; CmakeGui.SingleReferenceResolved and CmakeGui.UnknownReferenceKept state what substitution does.
- Compile.BuildTarget: creating the object directory (src/compiler.rs:88-95) is assumed to succeed; when `create_dir_all` fails the source returns a failure with an empty path before compiling anything, and the model has no input for that I/O error.
- Graph.CleanDirs: output directories are compared as strings, while the source sorts and de-duplicates `PathBuf`s (src/lib.rs:29-31), which compare by path components: as paths `build` and `build/` are one directory, and `a/b` sorts before `a-b`, so the model can list a directory twice or in another order for such spellings.
- Graph.CleanDirsOrderIndependent: "ascending" is string order, not the component order of `PathBuf`, for the reason given for Graph.CleanDirs.
- Propagation.Gather: the `contains` tests on include and library directories (src/config.rs:424, 461-469) compare `PathBuf`s by components; the model compares strings, so `inc` and `inc/` count as two entries here and as one in the source.
- Include cycles: `parse_recursive` (src/config.rs:377-396) follows `includes` with no record of the files already visited, so a file that includes itself, directly or through others, makes the source recurse without end. A build file is modelled as a finite tree (Config.BuildFile), which cannot express such a cycle, so the model says nothing about that input.
- Config.Collect: the "Include file not found" error omits the text of the underlying I/O error that the source appends after a colon.
- Strings.ReplaceAll: the contract states only that text without the pattern is unchanged; CmakeGui.ReplaceTwice, CmakeGui.ExampleReplacements and CmakeLex.ReplaceWhole state what replacement does.
- Builder.CorrectedProgressBounded: the corrected figure counts only targets of the order; which targets get built is left as written, so with a filtered order the dependents outside it are still queued and linked (Builder.FilteredProgressOvercounts).
- Builder.RunLevels and Builder.BuildLevelByLevel: each level's file-system snapshot is an independent parameter. The model does not derive level k+1's snapshot from the outputs level k writes, although in the source those new modification times are what `dep_newer` (src/compiler.rs:186-195) reads. `build_level_by_level` (src/builder.rs:437) is also not reached from `build_project`, which calls `build_ninja_style` (src/builder.rs:74).
- Dag.DebugList: `{:?}` escapes are modelled for ASCII only. Rust also writes `\u{..}` for non-ASCII characters that are not printable or that extend a grapheme, following Unicode tables the model does not carry; such characters are written as they are.
- `build_level_parallel` splits a level into chunks of at most `jobs` targets; the model builds each level as one chunk, since chunking changes only which threads run together, and a worker thread's panic is not modelled.
- The concrete linear and diamond examples of the tests in `src/dag.rs`: Dag.BuildOrderSorted, Dag.BuildOrderEdges and Dag.BuildOrderPartition state the general properties those examples illustrate, and Dag.CycleExample covers the cycle test.
- src/main.rs, src/options.rs, the GUI's Tauri plumbing and the orphaned `src/build.rs`, `src/init.rs` and `src/utils.rs` modules: command-line parsing, IPC, dialogs and templates, outside the core.
- The synthetic C++ fixtures under `example_too_complex/`: they are compile-load inputs, not part of the tool.

## Findings

| source | as written | input that shows it | evidently intended | confidence | as-written member | corrected member |
|---|---|---|---|---|---|---|
| src/builder.rs:313-320 | `failed` grows by one per failed compile job, and the progress shown is `(successful + failed) * 100 / total_targets` | one target with two sources whose compiles both fail: `failed` is 2, the total is 1, and 200% is shown | progress counts finished targets, so it never exceeds 100% | not executed | Builder.ProgressOvercounts | Builder.CorrectedProgressBounded |
| src/builder.rs:358-374 | after a link, every dependent in the dependents map (built from all targets, src/builder.rs:136-144) whose dependencies are built is queued, while the total counts only the order, which may be filtered | targets `lib` and `app` without sources, `app` depending on `lib`, with the order filtered to `lib` (`[[lib]]`): both are linked, `successful` is 2 of 1 target, and 200% is shown with no failure | progress counts finished targets of the order, so it never exceeds 100% | not executed | Builder.FilteredProgressOvercounts | Builder.CorrectedProgressBounded |
| gui/src-tauri/src/cmake_converter.rs:1051-1074 | when a target has flags, the `flags` array is closed before the `-D` definition lines are written | a target with flags `["-O2"]` and definitions `["X"]`: the `"-DX",` line comes after the closing `]` | the definitions are entries of the same `flags` array, after the kept flags | not executed | CmakeGui.DefinitionsOutsideArray | CmakeGui.FlagsLines |
