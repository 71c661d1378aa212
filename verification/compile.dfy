/**
 * The decisions of `src/compiler.rs`: how a path becomes a compiler
 * argument, what the outputs are called, when a source is recompiled and an
 * output relinked, the compile command line, the `LD_LIBRARY_PATH` value and
 * the outcome of building one target.
 *
 * Modification times are abstract integers: `Stats` maps each existing path
 * to its mtime, `None` when the mtime cannot be read. Running the compiler or
 * the linker is not modelled; whether a run succeeds is a parameter.
 */
module Compile {
  import opened Wrappers
  import Strings
  import Paths
  import opened Config

  // ---------------------------------------------------------------------------
  // Paths as arguments and output names
  // ---------------------------------------------------------------------------

  /** The Windows verbatim prefix `\\?\`. */
  const VerbatimPrefix: string := "\\\\?\\"

  /** Every backslash turned into a forward slash. */
  function ForwardSlashes(s: string): (r: string)
    ensures |r| == |s| && '\\' !in r
    decreases |s|
  {
    if |s| == 0 then "" else [if s[0] == '\\' then '/' else s[0]] + ForwardSlashes(s[1..])
  }

  /** Each character is kept, except that a backslash becomes `/`. */
  lemma {:induction false} ForwardSlashesAt(s: string)
    ensures forall i :: 0 <= i < |s| ==> ForwardSlashes(s)[i] == (if s[i] == '\\' then '/' else s[i])
    decreases |s|
  {
    if |s| > 0 {
      ForwardSlashesAt(s[1..]);
      var r := ForwardSlashes(s);
      assert r == [if s[0] == '\\' then '/' else s[0]] + ForwardSlashes(s[1..]);
      forall i | 0 < i < |s| ensures r[i] == (if s[i] == '\\' then '/' else s[i]) {
        assert r[i] == ForwardSlashes(s[1..])[i - 1];
        assert s[i] == s[1..][i - 1];
      }
    }
  }

  /** `path_arg`: drop a leading verbatim prefix, then use forward slashes throughout. */
  function PathArg(p: string): (r: string)
    ensures '\\' !in r
  {
    ForwardSlashes(if Strings.StartsWith(p, VerbatimPrefix) then p[4..] else p)
  }

  /**
   * A path without backslashes (every Unix path) is passed as it is; otherwise
   * each character after the verbatim prefix is kept, backslashes becoming `/`.
   */
  lemma PathArgChars(p: string)
    ensures '\\' !in p ==> PathArg(p) == p
    ensures var k := if Strings.StartsWith(p, VerbatimPrefix) then 4 else 0;
      |PathArg(p)| == |p| - k && forall i :: k <= i < |p| ==> PathArg(p)[i - k] == (if p[i] == '\\' then '/' else p[i])
  {
    if Strings.StartsWith(p, VerbatimPrefix) {
      assert p[0] == VerbatimPrefix[0];
      ForwardSlashesAt(p[4..]);
    } else {
      ForwardSlashesAt(p);
    }
  }

  /** Rewriting a path argument a second time changes nothing. */
  lemma PathArgIdempotent(p: string)
    ensures PathArg(PathArg(p)) == PathArg(p)
  {
    PathArgChars(PathArg(p));
  }

  /** `shared_lib_filename`: `lib<name>.dll` on Windows, `lib<name>.so` elsewhere. */
  function SharedLibFilename(name: string, windows: bool): (r: string)
    ensures Strings.StartsWith(r, "lib" + name + ".")
    ensures windows ==> |r| == |name| + 7 && r[|name| + 4..] == "dll"
    ensures !windows ==> |r| == |name| + 6 && r[|name| + 4..] == "so"
  {
    var r := "lib" + name + "." + (if windows then "dll" else "so");
    Strings.StartsWithConcat("lib" + name + ".", if windows then "dll" else "so");
    r
  }

  /** The file a target produces, inside its output directory. */
  function OutputFileName(kind: TargetType, name: string, windows: bool): (r: string)
    ensures kind == Executable ==> r == name
    ensures kind != Executable ==> Strings.StartsWith(r, "lib" + name)
    ensures kind == StaticLib ==> Strings.EndsWith(r, ".a")
    ensures kind == SharedLib ==> Strings.EndsWith(r, if windows then ".dll" else ".so")
    ensures PlainName(name) ==> |r| > 0 && '/' !in r
  {
    assert kind == StaticLib ==> ("lib" + name + ".a")[..|"lib" + name|] == "lib" + name;
    assert kind == SharedLib ==> Strings.StartsWith(SharedLibFilename(name, windows), "lib" + name) by {
      var ext := if windows then "dll" else "so";
      assert ("lib" + name + "." + ext)[..|"lib" + name|] == "lib" + name;
    }
    match kind
    case Executable => name
    case StaticLib => "lib" + name + ".a"
    case SharedLib => SharedLibFilename(name, windows)
  }

  /** The final output path: the output file name joined onto the output directory. */
  function OutputPath(t: ResolvedTarget, windows: bool): (r: string)
    ensures Paths.IsAbsolute(OutputFileName(t.targetType, t.name, windows)) ==> r == OutputFileName(t.targetType, t.name, windows)
  {
    Paths.Join(t.outputDir, OutputFileName(t.targetType, t.name, windows))
  }

  /** A target name that can be a single file name. */
  predicate PlainName(name: string) {
    |name| > 0 && '/' !in name && '.' !in name
  }

  /**
   * The output of a target with a plain name lies directly in its output
   * directory (when that has no trailing separator), and its file name is the
   * output file name: `<name>`, `lib<name>.a` or `lib<name>.{so,dll}`.
   */
  lemma OutputPathParts(t: ResolvedTarget, windows: bool)
    requires PlainName(t.name)
    ensures Paths.FileName(OutputPath(t, windows)) == Some(OutputFileName(t.targetType, t.name, windows))
    ensures Paths.NeedsSeparator(t.outputDir) ==> Paths.Parent(OutputPath(t, windows)) == Some(t.outputDir)
  {
    var f := OutputFileName(t.targetType, t.name, windows);
    assert '/' !in f && |f| > 0 by {
      if t.targetType == SharedLib {
        var ext := if windows then "dll" else "so";
        assert f == "lib" + t.name + "." + ext;
      }
    }
    assert Paths.IsNormalSegment(f) by {
      if t.targetType == Executable {
        assert f[0] != '.' by { assert f == t.name; }
      } else {
        assert f[0] == 'l';
      }
    }
    Paths.FileNameOfJoin(t.outputDir, f);
    if Paths.NeedsSeparator(t.outputDir) {
      Paths.ParentOfJoin(t.outputDir, f);
    }
  }

  // ---------------------------------------------------------------------------
  // Object files
  // ---------------------------------------------------------------------------

  /** The directory receiving a target's object files: `<output_dir>/obj/<name>`. */
  function ObjectDir(t: ResolvedTarget): (r: string)
    ensures !Paths.IsAbsolute(t.name) ==> Strings.StartsWith(r, t.outputDir) && Strings.EndsWith(r, t.name)
    ensures Paths.IsAbsolute(t.name) ==> r == t.name
  {
    var o := Paths.Join(t.outputDir, "obj");
    Paths.JoinParts(t.outputDir, "obj");
    assert !Paths.IsAbsolute(t.name) ==> Strings.StartsWith(Paths.Join(o, t.name), t.outputDir) by {
      if !Paths.IsAbsolute(t.name) {
        Paths.JoinParts(o, t.name);
        var r := Paths.Join(o, t.name);
        assert r[..|t.outputDir|] == r[..|o|][..|t.outputDir|] == o[..|t.outputDir|];
      }
    }
    assert !Paths.IsAbsolute(t.name) ==> Strings.EndsWith(Paths.Join(o, t.name), t.name) by {
      if !Paths.IsAbsolute(t.name) { Paths.JoinParts(o, t.name); }
    }
    Paths.Join(o, t.name)
  }

  /**
   * The object file of a source: its file stem (empty when it has none) plus
   * `.o`, in the object directory; it always lies under that directory and
   * ends in `.o`.
   */
  function ObjectPath(t: ResolvedTarget, source: string): (r: string)
    ensures Strings.StartsWith(r, ObjectDir(t)) && Strings.EndsWith(r, ".o")
  {
    var o := ObjectFileName(source);
    Paths.JoinParts(ObjectDir(t), o);
    var r := Paths.Join(ObjectDir(t), o);
    assert r[|r| - 2..] == o[|o| - 2..] by {
      assert r[|r| - |o|..] == o;
    }
    r
  }

  /** The object file name of a source: its file stem, or nothing, then `.o`; a relative name without separators. */
  function ObjectFileName(source: string): (r: string)
    ensures Paths.Sep !in r && Strings.EndsWith(r, ".o") && !Paths.IsAbsolute(r)
    ensures Paths.FileStem(source).Some? ==> r == Paths.FileStem(source).value + ".o"
    ensures Paths.FileStem(source).None? ==> r == ".o"
  {
    var stem := Paths.FileStem(source).GetOr("");
    StemHasNoSeparator(source);
    var o := stem + ".o";
    assert o[|o| - 2..] == ".o";
    assert Paths.Sep !in o;
    assert !Paths.IsAbsolute(o) by { assert o[0] in o; }
    o
  }

  /** Every object path is the object directory, a separator where needed, then the source's stem and `.o`. */
  lemma ObjectPathParts(t: ResolvedTarget, source: string)
    ensures Paths.Sep !in ObjectFileName(source) && Strings.EndsWith(ObjectFileName(source), ".o")
    ensures Strings.StartsWith(ObjectPath(t, source), ObjectDir(t))
    ensures Strings.EndsWith(ObjectPath(t, source), ObjectFileName(source))
  {
    Paths.JoinParts(ObjectDir(t), ObjectFileName(source));
  }

  lemma StemHasNoSeparator(source: string)
    ensures Paths.Sep !in Paths.FileStem(source).GetOr("")
  {
    match Paths.FileName(source)
    case None =>
    case Some(name) =>
      var stem := Paths.Stem(name);
      assert stem == name[..|stem|];
      assert forall i :: 0 <= i < |stem| ==> stem[i] == name[i];
  }

  /**
   * A source `<dir>/<stem>.<ext>` with dot-free `stem` and `ext` compiles to
   * `<stem>.o` directly inside the object directory.
   */
  lemma ObjectPathOfSource(t: ResolvedTarget, dir: string, stem: string, ext: string)
    requires PlainName(stem) && '/' !in ext && '.' !in ext
    requires Paths.NeedsSeparator(ObjectDir(t))
    ensures ObjectFileName(Paths.Join(dir, stem + "." + ext)) == stem + ".o"
    ensures Paths.FileName(ObjectPath(t, Paths.Join(dir, stem + "." + ext))) == Some(stem + ".o")
    ensures Paths.Parent(ObjectPath(t, Paths.Join(dir, stem + "." + ext))) == Some(ObjectDir(t))
  {
    var file := stem + "." + ext;
    assert '/' !in file;
    assert Paths.IsNormalSegment(file) by { assert file[0] != '.' by { assert file[0] == stem[0]; } }
    Paths.FileNameOfJoin(dir, file);
    Paths.StemOfExtension(stem, ext);
    var o := stem + ".o";
    assert '/' !in o;
    assert Paths.IsNormalSegment(o) by { assert o[0] != '.' by { assert o[0] == stem[0]; } }
    Paths.FileNameOfJoin(ObjectDir(t), o);
    Paths.ParentOfJoin(ObjectDir(t), o);
  }

  // ---------------------------------------------------------------------------
  // Incremental rules
  // ---------------------------------------------------------------------------

  /** The existing paths and their modification times (`None`: the time cannot be read). */
  type Stats = map<string, Option<int>>

  function Mtime(fs: Stats, p: string): Option<int> {
    if p in fs then fs[p] else None
  }

  /**
   * A source is compiled unless its object exists and neither time is
   * unknown and the source is not newer: a missing object or an unreadable
   * source time always means compiling.
   */
  predicate NeedsRecompile(fs: Stats, source: string, obj: string)
    ensures obj !in fs || Mtime(fs, source).None? ==> NeedsRecompile(fs, source, obj)
  {
    if obj !in fs then true
    else match (Mtime(fs, source), fs[obj])
      case (Some(s), Some(o)) => s > o
      case _ => true
  }

  /** Compiling at a time no earlier than the source's mtime leaves the object up to date. */
  lemma CompiledIsUpToDate(fs: Stats, source: string, obj: string, now: int)
    requires source != obj && Mtime(fs, source).Some? && Mtime(fs, source).value <= now
    ensures !NeedsRecompile(fs[obj := Some(now)], source, obj)
  {
  }

  /**
   * Recompiling is needed exactly when the object is missing, a time is
   * unknown, or the source was modified after the object.
   */
  lemma NeedsRecompileIff(fs: Stats, source: string, obj: string)
    ensures !NeedsRecompile(fs, source, obj) <==>
      obj in fs && Mtime(fs, source).Some? && fs[obj].Some? && Mtime(fs, source).value <= fs[obj].value
  {
  }

  /** A path that exists with a known mtime later than `out`. */
  predicate NewerThan(fs: Stats, p: string, out: int) {
    p in fs && fs[p].Some? && fs[p].value > out
  }

  /** Some object file is newer than the output. */
  predicate AnyObjectNewer(fs: Stats, objects: seq<string>, out: int) {
    exists i :: 0 <= i < |objects| && NewerThan(fs, objects[i], out)
  }

  /** Some link dependency that has been built is newer than the output. */
  predicate AnyDepNewer(fs: Stats, deps: seq<string>, built: map<string, string>, out: int) {
    exists i :: 0 <= i < |deps| && deps[i] in built && NewerThan(fs, built[deps[i]], out)
  }

  /**
   * The relink rule: relink when the output is missing or its time unknown,
   * otherwise when something was just recompiled (`build_target` only), or an
   * object or a built link dependency is newer than the output.
   */
  predicate NeedsRelink(fs: Stats, output: string, objects: seq<string>, deps: seq<string>, built: map<string, string>, recompiled: bool)
    ensures output !in fs || recompiled ==> NeedsRelink(fs, output, objects, deps, built, recompiled)
    ensures output in fs && fs[output].Some? && AnyObjectNewer(fs, objects, fs[output].value) ==>
      NeedsRelink(fs, output, objects, deps, built, recompiled)
  {
    if output !in fs then true
    else match fs[output]
      case None => true
      case Some(out) => recompiled || AnyObjectNewer(fs, objects, out) || AnyDepNewer(fs, deps, built, out)
  }

  /** Linking at a time no earlier than every input's leaves the output up to date. */
  lemma LinkedIsUpToDate(fs: Stats, output: string, objects: seq<string>, deps: seq<string>, built: map<string, string>, now: int)
    requires output !in objects
    requires forall i :: 0 <= i < |deps| && deps[i] in built ==> built[deps[i]] != output
    requires forall p :: p in fs && fs[p].Some? ==> fs[p].value <= now
    ensures !NeedsRelink(fs[output := Some(now)], output, objects, deps, built, false)
  {
    var fs2 := fs[output := Some(now)];
    assert !AnyObjectNewer(fs2, objects, now) by {
      forall i | 0 <= i < |objects| ensures !NewerThan(fs2, objects[i], now) {
        assert objects[i] != output;
      }
    }
  }

  /** An output that exists with a known time is relinked when one object is newer. */
  lemma NewerObjectRelinks(fs: Stats, output: string, objects: seq<string>, deps: seq<string>, built: map<string, string>, i: nat)
    requires output in fs && fs[output].Some?
    requires i < |objects| && NewerThan(fs, objects[i], fs[output].value)
    ensures NeedsRelink(fs, output, objects, deps, built, false)
  {
  }

  // ---------------------------------------------------------------------------
  // Command lines
  // ---------------------------------------------------------------------------

  /** `-I <dir>` for each include directory, in order. */
  function IncludeArgs(dirs: seq<string>): (r: seq<string>)
    ensures |r| == 2 * |dirs|
  {
    seq(2 * |dirs|, k requires 0 <= k < 2 * |dirs| => if k % 2 == 0 then "-I" else PathArg(dirs[k / 2]))
  }

  /** The `i`-th include directory is the `i`-th `-I` pair. */
  lemma IncludeArgsPair(dirs: seq<string>, i: nat)
    requires i < |dirs|
    ensures IncludeArgs(dirs)[2 * i] == "-I" && IncludeArgs(dirs)[2 * i + 1] == PathArg(dirs[i])
  {
    assert (2 * i) % 2 == 0 && (2 * i + 1) % 2 == 1 && (2 * i + 1) / 2 == i;
  }

  /** `-std=c++N` when the target has a standard. */
  function StandardArgs(std: Option<u32>): (r: seq<string>)
    ensures std.None? <==> r == []
  {
    match std
    case None => []
    case Some(n) => ["-std=c++" + Strings.NatToString(n as nat)]
  }

  const StdPrefix: string := "-std=c++"

  /** The `-std` argument reads back as the standard it was made from. */
  lemma StandardArgRoundTrip(n: u32)
    ensures |StandardArgs(Some(n))| == 1
    ensures Strings.StartsWith(StandardArgs(Some(n))[0], StdPrefix)
    ensures Strings.DecimalValue(StandardArgs(Some(n))[0][|StdPrefix|..]) == n as nat
  {
    var a := StandardArgs(Some(n))[0];
    Strings.StartsWithConcat(StdPrefix, Strings.NatToString(n as nat));
    assert a[|StdPrefix|..] == Strings.NatToString(n as nat);
    Strings.DecimalValueOfNatToString(n as nat);
  }

  /**
   * The arguments after the compiler command when compiling one source:
   * `-c <src> -o <obj>`, `-fPIC` for a shared library, `-I` per include
   * directory, the standard, the compiler flags, then the legacy flags.
   */
  function CompileArgs(t: ResolvedTarget, source: string, obj: string): (r: seq<string>)
    ensures |r| >= 4 && r[0] == "-c" && r[1] == PathArg(source) && r[2] == "-o" && r[3] == PathArg(obj)
  {
    CommandHead(t, source, obj) + IncludeArgs(t.includeDirs) + CommandTail(t)
  }

  /** `-c <src> -o <obj>`, then `-fPIC` for a shared library. */
  function CommandHead(t: ResolvedTarget, source: string, obj: string): (r: seq<string>)
    ensures |r| == if t.targetType == SharedLib then 5 else 4
  {
    ["-c", PathArg(source), "-o", PathArg(obj)] + (if t.targetType == SharedLib then ["-fPIC"] else [])
  }

  /** The standard, the compiler flags, then the legacy flags. */
  function CommandTail(t: ResolvedTarget): seq<string> {
    StandardArgs(t.cxxStandard) + t.compilerFlags + t.flags
  }

  /**
   * After the four fixed arguments come `-fPIC` exactly for a shared library,
   * the include arguments, then the standard, and the command ends with the
   * compiler flags followed by the legacy flags.
   */
  lemma CompileArgsLayout(t: ResolvedTarget, source: string, obj: string)
    ensures var r := CompileArgs(t, source, obj);
      var std := (if t.targetType == SharedLib then 5 else 4) + 2 * |t.includeDirs|;
      && |r| == std + |StandardArgs(t.cxxStandard)| + |t.compilerFlags| + |t.flags|
      && (t.targetType == SharedLib ==> r[4] == "-fPIC")
      && r[std..std + |StandardArgs(t.cxxStandard)|] == StandardArgs(t.cxxStandard)
      && r[|r| - |t.compilerFlags| - |t.flags|..] == t.compilerFlags + t.flags
  {
    var head := CommandHead(t, source, obj);
    var r := CompileArgs(t, source, obj);
    var a := head + IncludeArgs(t.includeDirs);
    var std := StandardArgs(t.cxxStandard);
    var tail := t.compilerFlags + t.flags;
    assert r == a + std + tail;
    assert (a + std + tail)[|a|..|a| + |std|] == std;
    assert (a + std + tail)[|a| + |std|..] == tail;
    if t.targetType == SharedLib {
      assert r[4] == a[4] == head[4];
    }
  }

  /** The `i`-th include directory is passed as the `i`-th `-I` pair after the head of the command. */
  lemma CompileArgsInclude(t: ResolvedTarget, source: string, obj: string, i: nat)
    requires i < |t.includeDirs|
    ensures var r := CompileArgs(t, source, obj);
      var inc := if t.targetType == SharedLib then 5 else 4;
      && inc + 2 * i + 1 < |r|
      && r[inc + 2 * i] == "-I" && r[inc + 2 * i + 1] == PathArg(t.includeDirs[i])
  {
    var head := CommandHead(t, source, obj);
    var inc := IncludeArgs(t.includeDirs);
    var rest := CommandTail(t);
    IncludeArgsPair(t.includeDirs, i);
    Seqs.IndexMiddle(head, inc, rest, 2 * i);
    Seqs.IndexMiddle(head, inc, rest, 2 * i + 1);
  }

  /** The whole compile command: the compiler's executable, then the arguments. */
  function CompileCommand(t: ResolvedTarget, source: string, obj: string): (r: seq<string>)
    ensures |r| == 1 + |CompileArgs(t, source, obj)| && r[0] == t.compiler.Command() && r[1..] == CompileArgs(t, source, obj)
  {
    [t.compiler.Command()] + CompileArgs(t, source, obj)
  }

  /** The non-empty `:`-separated parts of a search path. */
  function NonEmptyParts(parts: seq<string>): (r: seq<string>)
    ensures forall x :: x in r <==> x in parts && x != ""
    ensures forall i :: 0 <= i < |r| ==> r[i] != ""
    decreases |parts|
  {
    if |parts| == 0 then []
    else if parts[0] == "" then NonEmptyParts(parts[1..])
    else [parts[0]] + NonEmptyParts(parts[1..])
  }

  /**
   * `build_ld_library_path`: the library directories, then the non-empty
   * parts of the inherited `LD_LIBRARY_PATH` (a parameter; `None` when unset),
   * joined with `:`.
   */
  function LdLibraryPath(libDirs: seq<string>, existing: Option<string>): (r: string)
    ensures libDirs == [] && existing.None? ==> r == ""
  {
    Strings.Join(libDirs + InheritedParts(existing), ":")
  }

  function InheritedParts(existing: Option<string>): (r: seq<string>)
    ensures forall i :: 0 <= i < |r| ==> r[i] != "" && ':' !in r[i]
  {
    match existing
    case None => []
    case Some(s) =>
      var parts := Strings.Split(s, ':');
      var r := NonEmptyParts(parts);
      assert forall i :: 0 <= i < |r| ==> ':' !in r[i] by {
        forall i | 0 <= i < |r| ensures ':' !in r[i] {
          assert r[i] in parts;
          var j :| 0 <= j < |parts| && parts[j] == r[i];
        }
      }
      r
  }

  /**
   * Splitting the value at `:` gives back the library directories followed by
   * the inherited non-empty parts, when no directory contains `:` and there is
   * at least one entry.
   */
  lemma LdLibraryPathSplits(libDirs: seq<string>, existing: Option<string>)
    requires forall i :: 0 <= i < |libDirs| ==> ':' !in libDirs[i]
    requires |libDirs + InheritedParts(existing)| >= 1
    ensures Strings.Split(LdLibraryPath(libDirs, existing), ':') == libDirs + InheritedParts(existing)
  {
    var all := libDirs + InheritedParts(existing);
    forall i | 0 <= i < |all| ensures ':' !in all[i] {
      if i >= |libDirs| { assert all[i] == InheritedParts(existing)[i - |libDirs|]; }
    }
    Strings.SplitJoin(all, ':');
  }

  // ---------------------------------------------------------------------------
  // Linking against built dependencies
  // ---------------------------------------------------------------------------

  /** The `-l` name the fallback derives from a library path: its file stem without a leading `lib`. */
  function LinkName(libPath: string): (r: string)
    ensures |r| <= |Paths.FileStem(libPath).GetOr("")|
  {
    var stem := Paths.FileStem(libPath).GetOr("");
    if Strings.StartsWith(stem, "lib") then stem[3..] else stem
  }

  /** The fallback names a dependency library by its target name. */
  lemma LinkNameOfLibrary(t: ResolvedTarget, windows: bool)
    requires PlainName(t.name) && t.targetType != Executable
    ensures LinkName(OutputPath(t, windows)) == t.name
  {
    OutputPathParts(t, windows);
    var ext := if t.targetType == StaticLib then "a" else if windows then "dll" else "so";
    var base := "lib" + t.name;
    assert OutputFileName(t.targetType, t.name, windows) == base + "." + ext;
    Paths.StemOfExtension(base, ext);
    Strings.StartsWithConcat("lib", t.name);
    assert base[3..] == t.name;
  }

  /**
   * `add_dependency_link_args`: for each link dependency that has been built,
   * its library path when that file exists, otherwise `-L <parent>` (when it
   * has one) and `-l<name>`; dependencies not built contribute nothing.
   */
  function DependencyLinkArgs(deps: seq<string>, built: map<string, string>, fs: Stats): (r: seq<string>)
    ensures |deps| == 1 ==> r == DepArgs(deps[0], built, fs)
    ensures (forall i :: 0 <= i < |deps| ==> deps[i] !in built) ==> r == []
    decreases |deps|
  {
    if |deps| == 0 then []
    else DepArgs(deps[0], built, fs) + DependencyLinkArgs(deps[1..], built, fs)
  }

  function DepArgs(dep: string, built: map<string, string>, fs: Stats): (r: seq<string>)
    ensures dep !in built ==> r == []
    ensures dep in built && built[dep] in fs ==> r == [PathArg(built[dep])]
    ensures dep in built && built[dep] !in fs ==> |r| >= 1 && r[|r| - 1] == "-l" + LinkName(built[dep])
  {
    if dep !in built then []
    else
      var p := built[dep];
      if p in fs then [PathArg(p)]
      else
        (match Paths.Parent(p) case Some(d) => ["-L", PathArg(d)] case None => [])
        + ["-l" + LinkName(p)]
  }

  /** Joining built dependency arguments of two lists gives the arguments of the concatenation. */
  lemma {:induction false} DependencyLinkArgsConcat(a: seq<string>, b: seq<string>, built: map<string, string>, fs: Stats)
    ensures DependencyLinkArgs(a + b, built, fs) == DependencyLinkArgs(a, built, fs) + DependencyLinkArgs(b, built, fs)
    decreases |a|
  {
    if |a| == 0 {
      assert a + b == b;
    } else {
      assert (a + b)[0] == a[0];
      assert (a + b)[1..] == a[1..] + b;
      DependencyLinkArgsConcat(a[1..], b, built, fs);
    }
  }

  // ---------------------------------------------------------------------------
  // Building one target
  // ---------------------------------------------------------------------------

  /** What building a target reports: the name, success, and the output path (empty on failure or skip). */
  datatype CompileResult = CompileResult(targetName: string, success: bool, outputPath: string)

  /** The sources that need compiling, in order: exactly those whose object is missing or out of date. */
  function ToCompile(t: ResolvedTarget, fs: Stats): (r: seq<string>)
    ensures |r| <= |t.sources|
    ensures forall s :: s in r <==> s in t.sources && NeedsRecompile(fs, s, ObjectPath(t, s))
  {
    FilterSources(t, t.sources, fs)
  }

  /** The source's object is missing or out of date. */
  predicate Stale(t: ResolvedTarget, fs: Stats, s: string) {
    NeedsRecompile(fs, s, ObjectPath(t, s))
  }

  function FilterSources(t: ResolvedTarget, sources: seq<string>, fs: Stats): (r: seq<string>)
    ensures |r| <= |sources|
    ensures forall s :: s in r <==> s in sources && Stale(t, fs, s)
    decreases |sources|
  {
    if |sources| == 0 then []
    else
      var rest := FilterSources(t, sources[1..], fs);
      var r := if Stale(t, fs, sources[0]) then [sources[0]] + rest else rest;
      assert forall s :: s in r <==> s in sources && Stale(t, fs, s) by {
        forall s ensures s in r <==> s in sources && Stale(t, fs, s) {
          assert s in sources <==> s == sources[0] || s in sources[1..] by {
            assert sources == [sources[0]] + sources[1..];
          }
        }
      }
      r
  }

  /** The object file of each source, in order. */
  function ObjectFiles(t: ResolvedTarget, sources: seq<string>): seq<string> {
    seq(|sources|, i requires 0 <= i < |sources| => ObjectPath(t, sources[i]))
  }

  /**
   * `build_target`. `compileFails` are the sources whose compilation fails,
   * `linkSucceeds` whether the link or archive command succeeds; `linkDeps`
   * replaces the target's own deps for the relink check when given.
   */
  function BuildTarget(t: ResolvedTarget, fs: Stats, built: map<string, string>, linkDeps: Option<seq<string>>,
                       windows: bool, compileFails: set<string>, linkSucceeds: bool): (r: CompileResult)
    ensures r.targetName == t.name
    ensures t.sources == [] ==> r.success && r.outputPath == ""
    ensures t.sources != [] && r.success ==> r.outputPath == OutputPath(t, windows)
    ensures (exists s :: s in t.sources && NeedsRecompile(fs, s, ObjectPath(t, s)) && s in compileFails) ==> !r.success
    ensures t.sources != [] && (forall s :: s in t.sources ==> s !in compileFails) && linkSucceeds ==> r.success
    ensures !r.success ==> r.outputPath == ""
    ensures t.sources != [] ==>
      (r.success <==>
        && (forall s :: s in t.sources && NeedsRecompile(fs, s, ObjectPath(t, s)) ==> s !in compileFails)
        && (linkSucceeds ||
            !NeedsRelink(fs, OutputPath(t, windows), ObjectFiles(t, t.sources), linkDeps.GetOr(t.deps), built,
                         exists s :: s in t.sources && NeedsRecompile(fs, s, ObjectPath(t, s)))))
  {
    if |t.sources| == 0 then CompileResult(t.name, true, "")
    else
      var compiled := ToCompile(t, fs);
      assert |compiled| > 0 <==> exists s :: s in t.sources && NeedsRecompile(fs, s, ObjectPath(t, s)) by {
        if |compiled| > 0 {
          assert compiled[0] in compiled;
        }
      }
      if exists s :: s in compiled && s in compileFails then CompileResult(t.name, false, "")
      else
        var objects := ObjectFiles(t, t.sources);
        var deps := linkDeps.GetOr(t.deps);
        var output := OutputPath(t, windows);
        var relink := NeedsRelink(fs, output, objects, deps, built, |compiled| > 0);
        if !relink || linkSucceeds then CompileResult(t.name, true, output)
        else CompileResult(t.name, false, "")
  }

  /**
   * `run_link_step`: the link job that follows a target's compile jobs. It
   * skips only when there are neither objects nor sources, and relinks by the
   * same rule without the "just recompiled" reason.
   */
  function RunLinkStep(t: ResolvedTarget, objects: seq<string>, fs: Stats, built: map<string, string>,
                       linkDeps: Option<seq<string>>, windows: bool, linkSucceeds: bool): (r: CompileResult)
    ensures r.targetName == t.name
    ensures objects == [] && t.sources == [] ==> r.success && r.outputPath == ""
    ensures !(objects == [] && t.sources == []) ==>
      (r.success <==> linkSucceeds || !NeedsRelink(fs, OutputPath(t, windows), objects, linkDeps.GetOr(t.deps), built, false))
    ensures !(objects == [] && t.sources == []) && r.success ==> r.outputPath == OutputPath(t, windows)
    ensures !r.success ==> r.outputPath == ""
  {
    if |objects| == 0 && |t.sources| == 0 then CompileResult(t.name, true, "")
    else
      var output := OutputPath(t, windows);
      if !NeedsRelink(fs, output, objects, linkDeps.GetOr(t.deps), built, false) || linkSucceeds then
        CompileResult(t.name, true, output)
      else CompileResult(t.name, false, "")
  }
}
