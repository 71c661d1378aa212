/**
 * The command-line converter from a CMake project to the build tool's TOML
 * description (`src/cmake_converter.rs`): command extraction, variable
 * resolution, `..` resolution in paths, the fixpoint that copies
 * INTERFACE include directories into dependents, and the filters that decide
 * what each emitted `[[target]]` lists. The emitted text is modelled as the
 * field lists it is rendered from: `sources` is always written (as
 * `sources = []` when empty), and every other empty list is an omitted field.
 */
module CmakeCli {
  import opened Wrappers
  import Seqs
  import Strings
  import Paths
  import Config
  import CmakeLex

  /** A target as the parser collects it. */
  datatype CmakeTarget = CmakeTarget(
    name: string,
    targetType: string,
    sources: seq<string>,
    includeDirs: seq<string>,
    interfaceIncludeDirs: seq<string>,
    libDirs: seq<string>,
    libs: seq<string>,
    flags: seq<string>,
    deps: seq<string>,
    compileDefinitions: seq<string>,
    sourceDir: Option<string>)

  // ---------------------------------------------------------------------------
  // extract_command
  // ---------------------------------------------------------------------------

  /** `args` are the arguments between some start in `starts` and the `)` that closes it. */
  ghost predicate ArgumentsOf(content: string, starts: seq<nat>, args: seq<string>) {
    exists a: nat, e: nat ::
      && a in starts && a <= e < |content|
      && CmakeLex.FindClose(CmakeLex.EscapeAnywhere, content, a) == Some(e)
      && args == CmakeLex.ParseArgs(CmakeLex.KeepBlank, content[a..e])
  }

  /**
   * `extract_command`: for each occurrence of the command (given by where its
   * opening parenthesis ends) the arguments up to the matching `)`. A
   * backslash escapes the next character anywhere, and an argument list is
   * kept even when it is empty.
   */
  function ExtractCommand(content: string, starts: seq<nat>): (r: seq<seq<string>>)
    requires forall i :: 0 <= i < |starts| ==> starts[i] <= |content|
    ensures |r| <= |starts|
    ensures forall j :: 0 <= j < |r| ==> ArgumentsOf(content, starts, r[j])
  {
    var spans := CmakeLex.Spans(CmakeLex.EscapeAnywhere, content, starts);
    var r := seq(|spans|, j requires 0 <= j < |spans| =>
      CmakeLex.ParseArgs(CmakeLex.KeepBlank, content[spans[j].0..spans[j].1]));
    assert forall j :: 0 <= j < |r| ==> ArgumentsOf(content, starts, r[j]) by {
      forall j | 0 <= j < |r| ensures ArgumentsOf(content, starts, r[j]) {
        var a, e := spans[j].0, spans[j].1;
        assert a in starts && a <= e < |content|;
        assert r[j] == CmakeLex.ParseArgs(CmakeLex.KeepBlank, content[a..e]);
      }
    }
    r
  }

  /** Every command whose arguments close is extracted. */
  lemma ClosedCommandExtracted(content: string, starts: seq<nat>, a: nat)
    requires forall i :: 0 <= i < |starts| ==> starts[i] <= |content|
    requires a in starts
    requires CmakeLex.FindClose(CmakeLex.EscapeAnywhere, content, a).Some?
    ensures var e := CmakeLex.FindClose(CmakeLex.EscapeAnywhere, content, a).value;
      CmakeLex.ParseArgs(CmakeLex.KeepBlank, content[a..e]) in ExtractCommand(content, starts)
  {
    var spans := CmakeLex.Spans(CmakeLex.EscapeAnywhere, content, starts);
    var e := CmakeLex.FindClose(CmakeLex.EscapeAnywhere, content, a).value;
    var k :| 0 <= k < |spans| && spans[k] == (a, e);
    assert ExtractCommand(content, starts)[k] == CmakeLex.ParseArgs(CmakeLex.KeepBlank, content[a..e]);
  }

  // ---------------------------------------------------------------------------
  // resolve_variables
  // ---------------------------------------------------------------------------

  const MaxIterations: nat := 10

  /** `(matched text, value)` for each match in `ms` whose name `values` defines, in order. */
  function DefinedPairs(text: string, ms: seq<(nat, nat)>, open: string, values: map<string, string>)
    : (r: seq<(string, string)>)
    requires CmakeLex.ValidMatches(text, ms, open)
    ensures |r| <= |ms|
    ensures forall i :: 0 <= i < |r| ==> |r[i].0| > 0
    ensures (forall j :: 0 <= j < |ms| ==> CmakeLex.MatchName(text, ms[j], open) !in values) ==> r == []
    ensures (exists j :: 0 <= j < |ms| && CmakeLex.MatchName(text, ms[j], open) in values) ==> r != []
    decreases |ms|
  {
    if |ms| == 0 then []
    else
      var rest := DefinedPairs(text, ms[1..], open, values);
      var name := CmakeLex.MatchName(text, ms[0], open);
      DefinedTail(text, ms, open, values);
      if name in values then [(text[ms[0].0..ms[0].1], values[name])] + rest else rest
  }

  /** A defined name among the matches after the first is one of the tail's matches. */
  lemma DefinedTail(text: string, ms: seq<(nat, nat)>, open: string, values: map<string, string>)
    requires CmakeLex.ValidMatches(text, ms, open) && |ms| > 0
    ensures (exists j :: 1 <= j < |ms| && CmakeLex.MatchName(text, ms[j], open) in values) ==>
      exists j :: 0 <= j < |ms[1..]| && CmakeLex.MatchName(text, ms[1..][j], open) in values
  {
    if exists j :: 1 <= j < |ms| && CmakeLex.MatchName(text, ms[j], open) in values {
      var j :| 1 <= j < |ms| && CmakeLex.MatchName(text, ms[j], open) in values;
      assert ms[1..][j - 1] == ms[j];
    }
  }

  /** The `${NAME}` references of a text that name a defined variable. */
  function VarPairs(text: string, vars: map<string, string>): (r: seq<(string, string)>)
    ensures forall i :: 0 <= i < |r| ==> |r[i].0| > 0
  {
    DefinedPairs(text, CmakeLex.Matches(text, 0, CmakeLex.VarOpen), CmakeLex.VarOpen, vars)
  }

  /** The `$ENV{NAME}` references of a text that name a set environment variable. */
  function EnvPairs(text: string, env: map<string, string>): (r: seq<(string, string)>)
    ensures forall i :: 0 <= i < |r| ==> |r[i].0| > 0
  {
    DefinedPairs(text, CmakeLex.Matches(text, 0, CmakeLex.EnvOpen), CmakeLex.EnvOpen, env)
  }

  /**
   * One round of `resolve_variables`: every defined `${NAME}` reference is
   * replaced, then every set `$ENV{NAME}` reference of the result; the flag
   * says whether any reference was defined.
   */
  function ResolveRound(text: string, vars: map<string, string>, env: map<string, string>): (r: (string, bool))
    ensures !r.1 ==> r.0 == text
    ensures var ms := CmakeLex.Matches(text, 0, CmakeLex.VarOpen);
      (exists j :: 0 <= j < |ms| && CmakeLex.MatchName(text, ms[j], CmakeLex.VarOpen) in vars) ==> r.1
  {
    var refs := VarPairs(text, vars);
    var t := CmakeLex.ReplaceEach(text, refs);
    var envRefs := EnvPairs(t, env);
    (CmakeLex.ReplaceEach(t, envRefs), |refs| > 0 || |envRefs| > 0)
  }

  /** The resolved text and the number of rounds run. */
  datatype Resolution = Resolution(text: string, rounds: nat)

  function ResolveFrom(text: string, vars: map<string, string>, env: map<string, string>, done: nat): (r: Resolution)
    requires done < MaxIterations
    ensures done < r.rounds <= MaxIterations
    decreases MaxIterations - done
  {
    var (t, changed) := ResolveRound(text, vars, env);
    if changed && done + 1 < MaxIterations then ResolveFrom(t, vars, env, done + 1)
    else Resolution(t, done + 1)
  }

  /**
   * `resolve_variables`: rounds of substitution until a round finds nothing
   * defined, at most ten of them. The environment is a parameter.
   */
  function ResolveVariables(text: string, vars: map<string, string>, env: map<string, string>): (r: Resolution)
    ensures 1 <= r.rounds <= MaxIterations
  {
    ResolveFrom(text, vars, env, 0)
  }

  /** A text whose references are all undefined is returned as it is after one round. */
  lemma UndefinedReferencesKept(text: string, vars: map<string, string>, env: map<string, string>)
    requires forall m :: m in CmakeLex.Matches(text, 0, CmakeLex.VarOpen) ==>
      CmakeLex.MatchName(text, m, CmakeLex.VarOpen) !in vars
    requires forall m :: m in CmakeLex.Matches(text, 0, CmakeLex.EnvOpen) ==>
      CmakeLex.MatchName(text, m, CmakeLex.EnvOpen) !in env
    ensures ResolveVariables(text, vars, env) == Resolution(text, 1)
  {
    var vm := CmakeLex.Matches(text, 0, CmakeLex.VarOpen);
    assert forall j :: 0 <= j < |vm| ==> CmakeLex.MatchName(text, vm[j], CmakeLex.VarOpen) !in vars by {
      forall j | 0 <= j < |vm| ensures CmakeLex.MatchName(text, vm[j], CmakeLex.VarOpen) !in vars {
        assert vm[j] in vm;
      }
    }
    var em := CmakeLex.Matches(text, 0, CmakeLex.EnvOpen);
    assert forall j :: 0 <= j < |em| ==> CmakeLex.MatchName(text, em[j], CmakeLex.EnvOpen) !in env by {
      forall j | 0 <= j < |em| ensures CmakeLex.MatchName(text, em[j], CmakeLex.EnvOpen) !in env {
        assert em[j] in em;
      }
    }
    assert VarPairs(text, vars) == [];
    assert EnvPairs(text, env) == [];
    assert ResolveRound(text, vars, env) == (text, false);
  }

  /** Text without a `$` is left unchanged, after a single round. */
  lemma NoDollarUnchanged(text: string, vars: map<string, string>, env: map<string, string>)
    requires '$' !in text
    ensures ResolveVariables(text, vars, env) == Resolution(text, 1)
  {
    CmakeLex.NoDollarNoMatches(text, 0, CmakeLex.VarOpen);
    CmakeLex.NoDollarNoMatches(text, 0, CmakeLex.EnvOpen);
    UndefinedReferencesKept(text, vars, env);
  }

  /** A lone defined reference becomes its value; a second round confirms nothing is left. */
  lemma DefinedReferenceResolved(name: string, vars: map<string, string>, env: map<string, string>)
    requires |name| > 0 && '}' !in name
    requires name in vars && '$' !in vars[name]
    ensures ResolveVariables(CmakeLex.VarOpen + name + "}", vars, env) == Resolution(vars[name], 2)
  {
    var s := CmakeLex.VarOpen + name + "}";
    var v := vars[name];
    CmakeLex.SingleReference(name);
    var ms := CmakeLex.Matches(s, 0, CmakeLex.VarOpen);
    assert s[0..|s|] == s;
    assert DefinedPairs(s, ms[1..], CmakeLex.VarOpen, vars) == [];
    assert VarPairs(s, vars) == [(s, v)];
    CmakeLex.ReplaceWhole(s, v);
    assert CmakeLex.ReplaceEach(s, [(s, v)]) == CmakeLex.ReplaceEach(v, []);
    CmakeLex.NoDollarNoMatches(v, 0, CmakeLex.EnvOpen);
    assert EnvPairs(v, env) == [];
    assert ResolveRound(s, vars, env) == (v, true);
    NoDollarUnchanged(v, vars, env);
  }

  // ---------------------------------------------------------------------------
  // resolve_path_operations
  // ---------------------------------------------------------------------------

  /**
   * `resolve_path_operations`: a path mentioning `..` is rebuilt from its
   * `/`-separated segments, with `..` dropping the previously kept segment;
   * any other path is returned as it is.
   */
  function ResolvePathOperations(p: string): (r: string)
    ensures !Strings.Contains(p, "..") ==> r == p
    ensures Strings.Contains(p, "..") ==>
      (r == "." || forall i :: 0 <= i < |Strings.Split(r, Paths.Sep)| ==> Paths.IsNormalSegment(Strings.Split(r, Paths.Sep)[i]))
  {
    if Strings.Contains(p, "..") then Paths.Normalize(p) else p
  }

  /** Resolving a resolved path changes nothing. */
  lemma ResolvePathOperationsIdempotent(p: string)
    ensures ResolvePathOperations(ResolvePathOperations(p)) == ResolvePathOperations(p)
  {
    if Strings.Contains(p, "..") {
      Paths.NormalizeIdempotent(p);
    }
  }

  /**
   * A trailing `/..` removes the last segment kept from the rest of the
   * path; with at most one kept segment the result is `.`.
   */
  lemma TrailingParentPops(p: string)
    ensures var kept := Paths.ResolveSegments(Strings.Split(p, Paths.Sep));
      ResolvePathOperations(p + "/..") ==
        if |kept| <= 1 then "." else Strings.Join(kept[..|kept| - 1], [Paths.Sep])
  {
    var q := p + "/..";
    assert q == p + [Paths.Sep] + "..";
    assert Strings.EndsWith(q, "..") by {
      assert q[|q| - 2..] == "..";
    }
    Strings.EndsWithContains(q, "..");
    Paths.SplitConcat(p, "..", Paths.Sep);
    Strings.SplitNoSep("..", Paths.Sep);
    var parts := Strings.Split(p, Paths.Sep);
    assert Strings.Split(q, Paths.Sep) == parts + [".."];
    Paths.ResolveParent(parts);
  }

  // ---------------------------------------------------------------------------
  // propagate_interface_includes
  // ---------------------------------------------------------------------------

  /** The first target called `n`. */
  function FindNamed(ts: seq<CmakeTarget>, n: string): (r: Option<nat>)
    ensures r.Some? ==> r.value < |ts| && ts[r.value].name == n
    ensures r.Some? ==> forall j :: 0 <= j < r.value ==> ts[j].name != n
    ensures r.None? ==> forall j :: 0 <= j < |ts| ==> ts[j].name != n
    decreases |ts|
  {
    if |ts| == 0 then None
    else if ts[0].name == n then Some(0)
    else match FindNamed(ts[1..], n)
      case Some(i) => Some(i + 1)
      case None => None
  }

  /** A target answers to a dependency written with `::` or with `_` in its place. */
  predicate AnswersTo(t: CmakeTarget, dep: string) {
    t.name == CmakeLex.Underscored(dep) || t.name == dep
  }

  /** The first target a dependency name resolves to. */
  function FindDep(ts: seq<CmakeTarget>, dep: string): (r: Option<nat>)
    ensures r.Some? ==> r.value < |ts| && AnswersTo(ts[r.value], dep)
    ensures r.Some? ==> forall j :: 0 <= j < r.value ==> !AnswersTo(ts[j], dep)
    ensures r.None? ==> forall j :: 0 <= j < |ts| ==> !AnswersTo(ts[j], dep)
    decreases |ts|
  {
    if |ts| == 0 then None
    else if AnswersTo(ts[0], dep) then Some(0)
    else match FindDep(ts[1..], dep)
      case Some(i) => Some(i + 1)
      case None => None
  }

  /** `x` is an INTERFACE include directory of the target `dep` resolves to. */
  predicate Provides(ts: seq<CmakeTarget>, dep: string, x: string) {
    match FindDep(ts, dep)
    case Some(j) => x in ts[j].interfaceIncludeDirs
    case None => false
  }

  lemma ProvidedByRest(ts: seq<CmakeTarget>, deps: seq<string>)
    requires |deps| > 0
    ensures forall x :: (exists k :: 0 <= k < |deps| && Provides(ts, deps[k], x)) <==>
      Provides(ts, deps[0], x) || exists k :: 0 <= k < |deps[1..]| && Provides(ts, deps[1..][k], x)
  {
    forall x | exists k :: 0 <= k < |deps| && Provides(ts, deps[k], x)
      ensures Provides(ts, deps[0], x) || exists k :: 0 <= k < |deps[1..]| && Provides(ts, deps[1..][k], x)
    {
      var k :| 0 <= k < |deps| && Provides(ts, deps[k], x);
      if k > 0 {
        assert deps[1..][k - 1] == deps[k];
      }
    }
    forall x, k | 0 <= k < |deps[1..]| && Provides(ts, deps[1..][k], x)
      ensures exists k :: 0 <= k < |deps| && Provides(ts, deps[k], x)
    {
      assert deps[k + 1] == deps[1..][k];
    }
  }

  /** `acc` followed by the missing INTERFACE include directories of each dependency, in order. */
  function WithInterfaceDirs(ts: seq<CmakeTarget>, acc: seq<string>, deps: seq<string>): (r: seq<string>)
    ensures Seqs.AppendsOnlyNew(acc, r)
    ensures forall x :: x in r <==> x in acc || exists k :: 0 <= k < |deps| && Provides(ts, deps[k], x)
    decreases |deps|
  {
    if |deps| == 0 then acc
    else
      var next := match FindDep(ts, deps[0])
        case Some(j) => Seqs.AppendMissing(acc, ts[j].interfaceIncludeDirs)
        case None => acc;
      assert Seqs.AppendsOnlyNew(acc, next) by {
        if next == acc {
          Seqs.AppendsOnlyNewReflexive(acc);
        }
      }
      var r := WithInterfaceDirs(ts, next, deps[1..]);
      Seqs.AppendsOnlyNewTransitive(acc, next, r);
      ProvidedByRest(ts, deps);
      r
  }

  /** One target's update in a pass: its include directories gain what its dependencies provide. */
  function Updated(ts: seq<CmakeTarget>, i: nat): (r: seq<string>)
    requires i < |ts|
    ensures Seqs.AppendsOnlyNew(ts[i].includeDirs, r)
  {
    WithInterfaceDirs(ts, ts[i].includeDirs, ts[i].deps)
  }

  function Names(ts: seq<CmakeTarget>): (r: seq<string>)
    ensures |r| == |ts| && forall i :: 0 <= i < |ts| ==> r[i] == ts[i].name
  {
    seq(|ts|, i requires 0 <= i < |ts| => ts[i].name)
  }

  /**
   * One pass of the loop from the `k`-th name on: the first target of each
   * name takes the directories its dependencies provide, looked up in the
   * targets as updated so far. The flag records whether anything changed.
   */
  function PassFrom(ts: seq<CmakeTarget>, names: seq<string>, k: nat, changed: bool): (r: (seq<CmakeTarget>, bool))
    requires k <= |names|
    ensures |r.0| == |ts|
    ensures changed ==> r.1
    decreases |names| - k
  {
    if k == |names| then (ts, changed)
    else match FindNamed(ts, names[k])
      case None => PassFrom(ts, names, k + 1, changed)
      case Some(i) =>
        var dirs := Updated(ts, i);
        if dirs != ts[i].includeDirs then PassFrom(ts[i := ts[i].(includeDirs := dirs)], names, k + 1, true)
        else PassFrom(ts, names, k + 1, changed)
  }

  /** Every INTERFACE include directory of every target. */
  ghost function Union(ts: seq<CmakeTarget>): set<string> {
    set i, x | 0 <= i < |ts| && x in ts[i].interfaceIncludeDirs :: x
  }

  /** `b` is `a` with only the include directories changed. */
  ghost predicate SameExceptIncludes(a: seq<CmakeTarget>, b: seq<CmakeTarget>) {
    |a| == |b| && forall i :: 0 <= i < |a| ==> b[i] == a[i].(includeDirs := b[i].includeDirs)
  }

  /**
   * `b` is `a` with include directories extended by appending new entries
   * drawn from the INTERFACE include directories of the project.
   */
  ghost predicate Grows(a: seq<CmakeTarget>, b: seq<CmakeTarget>) {
    && SameExceptIncludes(a, b)
    && (forall i :: 0 <= i < |a| ==> Seqs.AppendsOnlyNew(a[i].includeDirs, b[i].includeDirs))
    && (forall i, x :: 0 <= i < |a| && x in b[i].includeDirs ==> x in a[i].includeDirs || x in Union(a))
  }

  /** Some target of `b` has an include directory that the same target of `a` lacks. */
  ghost predicate Gains(a: seq<CmakeTarget>, b: seq<CmakeTarget>)
    requires |a| == |b|
  {
    exists i, x :: 0 <= i < |a| && x in b[i].includeDirs && x !in a[i].includeDirs
  }

  /** The first target of each name has every directory its dependencies provide. */
  ghost predicate Settled(ts: seq<CmakeTarget>, n: string) {
    match FindNamed(ts, n)
    case None => true
    case Some(i) => Updated(ts, i) == ts[i].includeDirs
  }

  lemma SameUnion(a: seq<CmakeTarget>, b: seq<CmakeTarget>)
    requires SameExceptIncludes(a, b)
    ensures Union(a) == Union(b)
  {
    forall x | x in Union(a) ensures x in Union(b) {
      var i :| 0 <= i < |a| && x in a[i].interfaceIncludeDirs;
      assert b[i].interfaceIncludeDirs == a[i].interfaceIncludeDirs;
    }
    forall x | x in Union(b) ensures x in Union(a) {
      var i :| 0 <= i < |b| && x in b[i].interfaceIncludeDirs;
      assert b[i].interfaceIncludeDirs == a[i].interfaceIncludeDirs;
    }
  }

  lemma GrowsReflexive(a: seq<CmakeTarget>)
    ensures Grows(a, a)
  {
    forall i | 0 <= i < |a| ensures Seqs.AppendsOnlyNew(a[i].includeDirs, a[i].includeDirs) {
      Seqs.AppendsOnlyNewReflexive(a[i].includeDirs);
    }
  }

  lemma GrowsTransitive(a: seq<CmakeTarget>, b: seq<CmakeTarget>, c: seq<CmakeTarget>)
    requires Grows(a, b) && Grows(b, c)
    ensures Grows(a, c)
    ensures Gains(a, b) ==> Gains(a, c)
    ensures Gains(b, c) ==> Gains(a, c)
  {
    SameUnion(a, b);
    forall i | 0 <= i < |a| ensures Seqs.AppendsOnlyNew(a[i].includeDirs, c[i].includeDirs) {
      Seqs.AppendsOnlyNewTransitive(a[i].includeDirs, b[i].includeDirs, c[i].includeDirs);
    }
    forall i, x | 0 <= i < |a| && x in a[i].includeDirs ensures x in b[i].includeDirs {
      assert b[i].includeDirs[..|a[i].includeDirs|] == a[i].includeDirs;
    }
    forall i, x | 0 <= i < |a| && x in b[i].includeDirs ensures x in c[i].includeDirs {
      assert c[i].includeDirs[..|b[i].includeDirs|] == b[i].includeDirs;
    }
  }

  /** Updating one target as a pass does makes the project grow. */
  lemma UpdateGrows(ts: seq<CmakeTarget>, i: nat)
    requires i < |ts|
    ensures var next := ts[i := ts[i].(includeDirs := Updated(ts, i))];
      Grows(ts, next) && (Updated(ts, i) != ts[i].includeDirs ==> Gains(ts, next))
  {
    var dirs := Updated(ts, i);
    var next := ts[i := ts[i].(includeDirs := dirs)];
    forall j | 0 <= j < |ts| ensures Seqs.AppendsOnlyNew(ts[j].includeDirs, next[j].includeDirs) {
      if j != i {
        Seqs.AppendsOnlyNewReflexive(ts[j].includeDirs);
      }
    }
    forall j, x | 0 <= j < |ts| && x in next[j].includeDirs
      ensures x in ts[j].includeDirs || x in Union(ts)
    {
      if j == i && x !in ts[i].includeDirs {
        var k :| 0 <= k < |ts[i].deps| && Provides(ts, ts[i].deps[k], x);
        var d := FindDep(ts, ts[i].deps[k]).value;
        assert x in ts[d].interfaceIncludeDirs;
      }
    }
    if dirs != ts[i].includeDirs {
      assert |dirs| > |ts[i].includeDirs| by {
        assert dirs[..|ts[i].includeDirs|] == ts[i].includeDirs;
      }
      var x := dirs[|ts[i].includeDirs|];
      assert x !in dirs[..|ts[i].includeDirs|];
      assert next[i].includeDirs == dirs;
    }
  }

  /** A pass makes the project grow, strictly when it reports a change it made itself. */
  lemma {:induction false} PassGrows(ts: seq<CmakeTarget>, names: seq<string>, k: nat, changed: bool)
    requires k <= |names|
    ensures var r := PassFrom(ts, names, k, changed);
      Grows(ts, r.0) && (r.1 ==> changed || Gains(ts, r.0))
    decreases |names| - k
  {
    if k == |names| {
      GrowsReflexive(ts);
    } else {
      match FindNamed(ts, names[k])
      case None =>
        PassGrows(ts, names, k + 1, changed);
      case Some(i) =>
        var dirs := Updated(ts, i);
        if dirs != ts[i].includeDirs {
          var next := ts[i := ts[i].(includeDirs := dirs)];
          UpdateGrows(ts, i);
          PassGrows(next, names, k + 1, true);
          GrowsTransitive(ts, next, PassFrom(next, names, k + 1, true).0);
        } else {
          PassGrows(ts, names, k + 1, changed);
        }
    }
  }

  /** A pass that reports no change leaves the project as it was, with every remaining name settled. */
  lemma {:induction false} PassSettles(ts: seq<CmakeTarget>, names: seq<string>, k: nat, changed: bool)
    requires k <= |names|
    ensures var r := PassFrom(ts, names, k, changed);
      !r.1 ==> r.0 == ts && forall m :: k <= m < |names| ==> Settled(ts, names[m])
    decreases |names| - k
  {
    if k < |names| {
      var r := PassFrom(ts, names, k, changed);
      var found := FindNamed(ts, names[k]);
      if found.None? || Updated(ts, found.value) == ts[found.value].includeDirs {
        assert r == PassFrom(ts, names, k + 1, changed);
        assert Settled(ts, names[k]);
        PassSettles(ts, names, k + 1, changed);
        if !r.1 {
          forall m | k <= m < |names| ensures Settled(ts, names[m]) {
            if m > k {
              assert k + 1 <= m < |names|;
            }
          }
        }
      } else {
        assert r.1;
      }
    }
  }

  /** The number of (target, project INTERFACE directory) pairs still missing. */
  ghost function Missing(ts: seq<CmakeTarget>, u: set<string>): nat
    decreases |ts|
  {
    if |ts| == 0 then 0 else |u - Seqs.Elements(ts[0].includeDirs)| + Missing(ts[1..], u)
  }

  lemma {:induction false} MissingShrinks(a: seq<CmakeTarget>, b: seq<CmakeTarget>, u: set<string>)
    requires |a| == |b|
    requires forall i :: 0 <= i < |a| ==> Seqs.Elements(a[i].includeDirs) <= Seqs.Elements(b[i].includeDirs)
    ensures Missing(b, u) <= Missing(a, u)
    ensures (exists i, x :: 0 <= i < |a| && x in u && x in b[i].includeDirs && x !in a[i].includeDirs) ==>
      Missing(b, u) < Missing(a, u)
    decreases |a|
  {
    if |a| > 0 {
      var ma := u - Seqs.Elements(a[0].includeDirs);
      var mb := u - Seqs.Elements(b[0].includeDirs);
      Seqs.SubsetCard(mb, ma);
      MissingShrinks(a[1..], b[1..], u);
      if exists i, x :: 0 <= i < |a| && x in u && x in b[i].includeDirs && x !in a[i].includeDirs {
        var i, x :| 0 <= i < |a| && x in u && x in b[i].includeDirs && x !in a[i].includeDirs;
        if i == 0 {
          assert x in ma && x !in mb;
        } else {
          assert a[1..][i - 1] == a[i] && b[1..][i - 1] == b[i];
        }
      }
    }
  }

  /** A growing, gaining pass leaves fewer directories missing. */
  lemma PassShrinks(a: seq<CmakeTarget>, b: seq<CmakeTarget>)
    requires Grows(a, b) && Gains(a, b)
    ensures Union(b) == Union(a)
    ensures Missing(b, Union(a)) < Missing(a, Union(a))
  {
    SameUnion(a, b);
    forall i | 0 <= i < |a| ensures Seqs.Elements(a[i].includeDirs) <= Seqs.Elements(b[i].includeDirs) {
      assert b[i].includeDirs[..|a[i].includeDirs|] == a[i].includeDirs;
    }
    var i, x :| 0 <= i < |a| && x in b[i].includeDirs && x !in a[i].includeDirs;
    assert x in Union(a);
    MissingShrinks(a, b, Union(a));
  }

  /**
   * At the fixpoint every target that is the first of its name holds every
   * INTERFACE include directory of each dependency it names.
   */
  ghost predicate Closed(ts: seq<CmakeTarget>) {
    forall k, d, x ::
      (0 <= k < |ts| && FindNamed(ts, ts[k].name) == Some(k) && 0 <= d < |ts[k].deps| && Provides(ts, ts[k].deps[d], x))
      ==> x in ts[k].includeDirs
  }

  lemma SettledClosed(ts: seq<CmakeTarget>)
    requires forall m :: 0 <= m < |ts| ==> Settled(ts, Names(ts)[m])
    ensures Closed(ts)
  {
    forall k, d, x | 0 <= k < |ts| && FindNamed(ts, ts[k].name) == Some(k) && 0 <= d < |ts[k].deps| &&
      Provides(ts, ts[k].deps[d], x)
      ensures x in ts[k].includeDirs
    {
      assert Settled(ts, Names(ts)[k]);
      assert Updated(ts, k) == ts[k].includeDirs;
    }
  }

  /**
   * `propagate_interface_includes`: passes over the targets until one changes
   * nothing. Each changing pass adds at least one missing INTERFACE
   * directory to some target, which bounds the number of passes.
   */
  function PropagateInterfaceIncludes(ts: seq<CmakeTarget>): (r: seq<CmakeTarget>)
    ensures Grows(ts, r)
    ensures Closed(r)
    decreases Missing(ts, Union(ts))
  {
    var names := Names(ts);
    var (next, changed) := PassFrom(ts, names, 0, false);
    PassGrows(ts, names, 0, false);
    PassSettles(ts, names, 0, false);
    if changed then
      PassShrinks(ts, next);
      var r := PropagateInterfaceIncludes(next);
      GrowsTransitive(ts, next, r);
      r
    else
      SettledClosed(ts);
      next
  }

  /** Propagation keeps every target's name, sources, dependencies and everything but its include directories. */
  lemma PropagationChangesOnlyIncludes(ts: seq<CmakeTarget>)
    ensures var r := PropagateInterfaceIncludes(ts);
      |r| == |ts| && forall i :: 0 <= i < |ts| ==>
        && r[i].name == ts[i].name && r[i].deps == ts[i].deps && r[i].sources == ts[i].sources
        && r[i].interfaceIncludeDirs == ts[i].interfaceIncludeDirs
        && Seqs.AppendsOnlyNew(ts[i].includeDirs, r[i].includeDirs)
  {
    var r := PropagateInterfaceIncludes(ts);
    assert Grows(ts, r);
    forall i | 0 <= i < |ts| ensures r[i] == ts[i].(includeDirs := r[i].includeDirs) {
    }
  }

  // ---------------------------------------------------------------------------
  // convert_to_toml_with_includes
  // ---------------------------------------------------------------------------

  /** An unresolved variable or a generator expression. */
  predicate HasUnresolved(s: string) {
    Strings.Contains(s, "${") || Strings.Contains(s, "$<")
  }

  predicate IsHeader(s: string) {
    Strings.EndsWith(s, ".h") || Strings.EndsWith(s, ".hpp") || Strings.EndsWith(s, ".hh") || Strings.EndsWith(s, ".hxx")
  }

  predicate IsSourceFile(s: string) {
    || Strings.EndsWith(s, ".cpp") || Strings.EndsWith(s, ".c") || Strings.EndsWith(s, ".cc")
    || Strings.EndsWith(s, ".cxx") || Strings.EndsWith(s, ".C")
  }

  function AsciiLower(c: char): char {
    if 'A' <= c <= 'Z' then (c as int + 32) as char else c
  }

  /** Rust's `eq_ignore_ascii_case`. */
  predicate EqIgnoreAsciiCase(a: string, b: string) {
    |a| == |b| && forall i :: 0 <= i < |a| ==> AsciiLower(a[i]) == AsciiLower(b[i])
  }

  /** A compiled source file is never a header. */
  lemma SourceFileNotHeader(s: string)
    requires IsSourceFile(s)
    ensures !IsHeader(s)
  {
    var n := |s|;
    assert s[n - 1] == 'p' || s[n - 1] == 'c' || s[n - 1] == 'x' || s[n - 1] == 'C';
    if s[n - 1] == 'p' {
      assert Strings.EndsWith(s, ".cpp");
      assert s[n - 3] == 'c';
    } else if s[n - 1] == 'x' {
      assert Strings.EndsWith(s, ".cxx");
      assert s[n - 3] == 'c';
    }
  }

  /**
   * The target's directory relative to where the TOML file goes: a leading
   * copy of the base directory's name (and the separator after it) is
   * removed, and nothing is left when that is all there was.
   */
  function CleanSourceDir(sourceDir: Option<string>, baseName: string): (r: Option<string>)
    ensures sourceDir.None? ==> r.None?
    ensures r.Some? ==> Strings.EndsWith(sourceDir.value, r.value)
    ensures sourceDir.Some? && !(baseName != "" && Strings.StartsWith(sourceDir.value, baseName)) ==> r == sourceDir
  {
    match sourceDir
    case None => None
    case Some(sd) =>
      if baseName != "" && Strings.StartsWith(sd, baseName) then
        var rest := sd[|baseName|..];
        assert sd[|sd| - |rest|..] == rest;
        if |rest| > 0 && (rest[0] == '/' || rest[0] == '\\') then
          assert sd[|sd| - |rest[1..]|..] == rest[1..];
          if |rest| == 1 then None else Some(rest[1..])
        else if rest == "" then None
        else Some(rest)
      else Some(sd)
  }

  /** A source's path relative to the TOML file: absolute paths stay, others go under the cleaned directory. */
  function SourcePath(part: string, dir: Option<string>): (r: string)
    ensures Strings.EndsWith(r, part)
  {
    if |part| > 0 && part[0] == '/' then part
    else match dir
      case Some(d) =>
        if d != "" then
          assert (d + "/" + part)[|d| + 1..] == part;
          d + "/" + part
        else part
      case None => part
  }

  /** A directory path without `$` produces no unresolved reference when sources are put under it. */
  lemma SourcePathResolved(part: string, dir: Option<string>)
    requires !HasUnresolved(part)
    requires dir.Some? ==> '$' !in dir.value
    ensures !HasUnresolved(SourcePath(part, dir))
  {
    if dir.Some? && dir.value != "" && !(|part| > 0 && part[0] == '/') {
      var d := dir.value;
      var ds := d + "/";
      forall p: string | p == "${" || p == "$<" ensures !Strings.Contains(ds + part, p) {
        CmakeLex.NoCharNotContained(d, p);
        CmakeLex.NoCharNotContained("/", p);
        if Strings.Contains(ds, p) {
          Strings.ContainsPairConcat(d, "/", p);
        }
        if Strings.Contains(ds + part, p) {
          Strings.ContainsPairConcat(ds, part, p);
        }
      }
      assert SourcePath(part, dir) == ds + part;
    }
  }

  /** The source files named by the whitespace-separated parts of one entry. */
  function PartSources(parts: seq<string>, dir: Option<string>): (r: seq<string>)
    ensures forall i :: 0 <= i < |r| ==> IsSourceFile(r[i])
    decreases |parts|
  {
    if |parts| == 0 then []
    else
      var rest := PartSources(parts[1..], dir);
      var part := Strings.Trim(parts[0]);
      if part != "" && !HasUnresolved(part) && IsSourceFile(SourcePath(part, dir)) then
        Seqs.ConcatEntries([SourcePath(part, dir)], rest, IsSourceFile);
        [SourcePath(part, dir)] + rest
      else rest
  }

  /** Under a directory without `$`, no emitted source carries an unresolved reference. */
  lemma {:induction false} PartSourcesResolved(parts: seq<string>, dir: Option<string>)
    requires dir.Some? ==> '$' !in dir.value
    ensures forall f :: f in PartSources(parts, dir) ==> !HasUnresolved(f)
    decreases |parts|
  {
    if |parts| > 0 {
      PartSourcesResolved(parts[1..], dir);
      var part := Strings.Trim(parts[0]);
      if part != "" && !HasUnresolved(part) {
        SourcePathResolved(part, dir);
      }
    }
  }

  /** `sources` entries that are unresolved, `OBJECT` or headers are skipped before splitting. */
  predicate SkippedSource(s: string) {
    HasUnresolved(s) || EqIgnoreAsciiCase(s, "OBJECT") || IsHeader(s)
  }

  /** The source files of each entry of `sources`, in order, duplicates included. */
  function SourceCandidates(sources: seq<string>, dir: Option<string>): (r: seq<string>)
    ensures forall i :: 0 <= i < |r| ==> IsSourceFile(r[i])
    decreases |sources|
  {
    if |sources| == 0 then []
    else
      var here := if SkippedSource(sources[0]) then [] else PartSources(Strings.SplitWhitespace(sources[0]), dir);
      Seqs.ConcatEntries(here, SourceCandidates(sources[1..], dir), IsSourceFile);
      here + SourceCandidates(sources[1..], dir)
  }

  lemma {:induction false} SourceCandidatesResolved(sources: seq<string>, dir: Option<string>)
    requires dir.Some? ==> '$' !in dir.value
    ensures forall f :: f in SourceCandidates(sources, dir) ==> !HasUnresolved(f)
    decreases |sources|
  {
    if |sources| > 0 {
      SourceCandidatesResolved(sources[1..], dir);
      if !SkippedSource(sources[0]) {
        PartSourcesResolved(Strings.SplitWhitespace(sources[0]), dir);
      }
    }
  }

  /**
   * The emitted `sources` list: compiled source files only, each once, in
   * first-seen order, placed under the cleaned source directory.
   */
  function ValidSources(t: CmakeTarget, baseName: string): (r: seq<string>)
    ensures Seqs.NoDuplicates(r)
    ensures forall i :: 0 <= i < |r| ==> IsSourceFile(r[i])
    ensures forall x :: x in r <==> x in SourceCandidates(t.sources, CleanSourceDir(t.sourceDir, baseName))
    ensures Seqs.FirstSeenOrder(r, SourceCandidates(t.sources, CleanSourceDir(t.sourceDir, baseName)))
  {
    var c := SourceCandidates(t.sources, CleanSourceDir(t.sourceDir, baseName));
    var r := Seqs.AppendMissing([], c);
    Seqs.AppendMissingNoDuplicates([], c);
    Seqs.AppendMissingFirstSeen(c);
    Seqs.DrawnEntries(c, r, IsSourceFile);
    r
  }

  lemma SourceFileNotObject(f: string)
    requires IsSourceFile(f)
    ensures !EqIgnoreAsciiCase(f, "OBJECT")
  {
    var c := f[|f| - 1];
    assert c == 'p' || c == 'c' || c == 'x' || c == 'C';
    if |f| == 6 {
      assert AsciiLower(f[5]) != AsciiLower("OBJECT"[5]);
    }
  }

  /** No emitted source is a header or the `OBJECT` keyword. */
  lemma ValidSourcesNotHeaders(t: CmakeTarget, baseName: string)
    ensures forall f :: f in ValidSources(t, baseName) ==> !IsHeader(f) && !EqIgnoreAsciiCase(f, "OBJECT")
  {
    forall f | f in ValidSources(t, baseName) ensures !IsHeader(f) && !EqIgnoreAsciiCase(f, "OBJECT") {
      SourceFileNotHeader(f);
      SourceFileNotObject(f);
    }
  }

  /** When the cleaned source directory has no `$`, every emitted source is free of unresolved references. */
  lemma ValidSourcesResolved(t: CmakeTarget, baseName: string)
    requires var dir := CleanSourceDir(t.sourceDir, baseName); dir.Some? ==> '$' !in dir.value
    ensures forall f :: f in ValidSources(t, baseName) ==> !HasUnresolved(f)
  {
    SourceCandidatesResolved(t.sources, CleanSourceDir(t.sourceDir, baseName));
  }

  const MongoPrefix := "mongo-cxx-driver/"

  /** The `mongo-cxx-driver/` prefix is dropped from include directories. */
  function StripMongo(d: string): (r: string)
    ensures Strings.EndsWith(d, r)
    ensures !Strings.StartsWith(d, MongoPrefix) ==> r == d
  {
    assert |MongoPrefix| == 17;
    assert |d| >= 17 ==> d[|d| - |d[17..]|..] == d[17..];
    if Strings.StartsWith(d, MongoPrefix) then d[17..] else d
  }

  /** Include directories that are comments, unresolved, back-quoted or visibility keywords are dropped. */
  predicate KeepIncludeDir(d: string) {
    && d != ""
    && !Strings.StartsWith(d, "#")
    && !HasUnresolved(d)
    && '`' !in d
    && d != "INTERFACE" && d != "PRIVATE" && d != "PUBLIC"
  }

  lemma KeptByRest(dirs: seq<string>)
    requires |dirs| > 0
    ensures forall x :: (exists i :: 0 <= i < |dirs| && StripMongo(dirs[i]) == x && KeepIncludeDir(x)) <==>
      (x == StripMongo(dirs[0]) && KeepIncludeDir(x)) ||
      exists i :: 0 <= i < |dirs[1..]| && StripMongo(dirs[1..][i]) == x && KeepIncludeDir(x)
  {
    forall x | exists i :: 0 <= i < |dirs| && StripMongo(dirs[i]) == x && KeepIncludeDir(x)
      ensures (x == StripMongo(dirs[0]) && KeepIncludeDir(x)) ||
        exists i :: 0 <= i < |dirs[1..]| && StripMongo(dirs[1..][i]) == x && KeepIncludeDir(x)
    {
      var i :| 0 <= i < |dirs| && StripMongo(dirs[i]) == x && KeepIncludeDir(x);
      if i > 0 {
        assert dirs[1..][i - 1] == dirs[i];
      }
    }
    forall x, i | 0 <= i < |dirs[1..]| && StripMongo(dirs[1..][i]) == x && KeepIncludeDir(x)
      ensures exists i :: 0 <= i < |dirs| && StripMongo(dirs[i]) == x && KeepIncludeDir(x)
    {
      assert dirs[i + 1] == dirs[1..][i];
    }
  }

  function CleanIncludeDirs(dirs: seq<string>): (r: seq<string>)
    ensures forall i :: 0 <= i < |r| ==> KeepIncludeDir(r[i])
    decreases |dirs|
  {
    if |dirs| == 0 then []
    else
      var d := StripMongo(dirs[0]);
      var rest := CleanIncludeDirs(dirs[1..]);
      if KeepIncludeDir(d) then [d] + rest else rest
  }

  /** The cleaned include directories are exactly the stripped directories that are kept. */
  lemma {:induction false} CleanIncludeDirsMembers(dirs: seq<string>)
    ensures forall x :: x in CleanIncludeDirs(dirs) <==>
      exists i :: 0 <= i < |dirs| && StripMongo(dirs[i]) == x && KeepIncludeDir(x)
    decreases |dirs|
  {
    if |dirs| > 0 {
      CleanIncludeDirsMembers(dirs[1..]);
      KeptByRest(dirs);
    }
  }

  /** A target answers to a library name when the names agree as written or with `::` renamed on both sides. */
  predicate NamesLib(t: CmakeTarget, lib: string) {
    var n := CmakeLex.Underscored(lib);
    t.name == n || t.name == lib || CmakeLex.Underscored(t.name) == n
  }

  /** The first target a library name resolves to. */
  function FindLib(ts: seq<CmakeTarget>, lib: string): (r: Option<nat>)
    ensures r.Some? ==> r.value < |ts| && NamesLib(ts[r.value], lib)
    ensures r.Some? ==> forall j :: 0 <= j < r.value ==> !NamesLib(ts[j], lib)
    ensures r.None? ==> forall j :: 0 <= j < |ts| ==> !NamesLib(ts[j], lib)
    decreases |ts|
  {
    if |ts| == 0 then None
    else
      if NamesLib(ts[0], lib) then Some(0)
      else match FindLib(ts[1..], lib)
        case Some(i) => Some(i + 1)
        case None => None
  }

  /** `x` is an include directory of the project target a library name resolves to. */
  predicate LibProvides(ts: seq<CmakeTarget>, lib: string, x: string) {
    match FindLib(ts, lib)
    case Some(j) => x in ts[j].interfaceIncludeDirs || x in ts[j].includeDirs
    case None => false
  }

  lemma LibProvidedByRest(ts: seq<CmakeTarget>, libs: seq<string>)
    requires |libs| > 0
    ensures forall x :: (exists k :: 0 <= k < |libs| && LibProvides(ts, libs[k], x)) <==>
      LibProvides(ts, libs[0], x) || exists k :: 0 <= k < |libs[1..]| && LibProvides(ts, libs[1..][k], x)
  {
    forall x | exists k :: 0 <= k < |libs| && LibProvides(ts, libs[k], x)
      ensures LibProvides(ts, libs[0], x) || exists k :: 0 <= k < |libs[1..]| && LibProvides(ts, libs[1..][k], x)
    {
      var k :| 0 <= k < |libs| && LibProvides(ts, libs[k], x);
      if k > 0 {
        assert libs[1..][k - 1] == libs[k];
      }
    }
    forall x, k | 0 <= k < |libs[1..]| && LibProvides(ts, libs[1..][k], x)
      ensures exists k :: 0 <= k < |libs| && LibProvides(ts, libs[k], x)
    {
      assert libs[k + 1] == libs[1..][k];
    }
  }

  /** `acc` with the include directories of the project target `lib` resolves to appended. */
  function LibStep(ts: seq<CmakeTarget>, acc: seq<string>, lib: string): (r: seq<string>)
    ensures Seqs.AppendsOnlyNew(acc, r)
    ensures forall x :: x in r <==> x in acc || LibProvides(ts, lib, x)
  {
    match FindLib(ts, lib)
    case Some(j) =>
      var mid := Seqs.AppendMissing(acc, ts[j].interfaceIncludeDirs);
      var r := Seqs.AppendMissing(mid, ts[j].includeDirs);
      Seqs.AppendsOnlyNewTransitive(acc, mid, r);
      r
    case None =>
      Seqs.AppendsOnlyNewReflexive(acc);
      acc
  }

  function WithLibDirs(ts: seq<CmakeTarget>, acc: seq<string>, libs: seq<string>): (r: seq<string>)
    ensures Seqs.AppendsOnlyNew(acc, r)
    ensures forall x :: x in r <==> x in acc || exists k :: 0 <= k < |libs| && LibProvides(ts, libs[k], x)
    decreases |libs|
  {
    if |libs| == 0 then acc
    else
      var next := LibStep(ts, acc, libs[0]);
      var r := WithLibDirs(ts, next, libs[1..]);
      Seqs.AppendsOnlyNewTransitive(acc, next, r);
      LibProvidedByRest(ts, libs);
      r
  }

  /** The target's own directory, without the `mongo-cxx-driver/` prefix, when it is not empty. */
  function OwnDir(t: CmakeTarget): (r: Option<string>)
    ensures r.Some? ==> r.value != ""
  {
    match t.sourceDir
    case Some(sd) => if StripMongo(sd) != "" then Some(StripMongo(sd)) else None
    case None => None
  }

  /**
   * The emitted `include_dirs`: the target's cleaned include directories in
   * order, then its own directory, then the include directories of project
   * targets its libraries resolve to, each new entry once.
   */
  function IncludeDirsToAdd(ts: seq<CmakeTarget>, t: CmakeTarget): (r: seq<string>)
    ensures Seqs.AppendsOnlyNew(CleanIncludeDirs(t.includeDirs), r)
    ensures forall x :: x in r <==>
      || x in CleanIncludeDirs(t.includeDirs)
      || OwnDir(t) == Some(x)
      || exists k :: 0 <= k < |t.libs| && LibProvides(ts, t.libs[k], x)
  {
    var base := CleanIncludeDirs(t.includeDirs);
    var withOwn := match OwnDir(t)
      case Some(c) => if c !in base then base + [c] else base
      case None => base;
    assert Seqs.AppendsOnlyNew(base, withOwn) by {
      if withOwn == base {
        Seqs.AppendsOnlyNewReflexive(base);
      } else {
        assert withOwn[..|base|] == base;
      }
    }
    var r := WithLibDirs(ts, withOwn, t.libs);
    Seqs.AppendsOnlyNewTransitive(base, withOwn, r);
    r
  }

  /** The emitted `deps`: every dependency with `::` renamed. */
  function NormalizedDeps(deps: seq<string>): (r: seq<string>)
    ensures |r| == |deps|
    ensures forall i :: 0 <= i < |r| ==> !Strings.Contains(r[i], "::")
    ensures forall i :: 0 <= i < |r| ==> ':' !in deps[i] ==> r[i] == deps[i]
  {
    var r := seq(|deps|, i requires 0 <= i < |deps| => CmakeLex.Underscored(deps[i]));
    forall i | 0 <= i < |r| ensures !Strings.Contains(r[i], "::") {
      CmakeLex.UnderscoredHasNoDoubleColon(deps[i]);
    }
    r
  }

  predicate KeepLib(lib: string) {
    lib != "INTERFACE" && lib != "PRIVATE" && lib != "PUBLIC" && !HasUnresolved(lib)
  }

  /**
   * The emitted `libs`: the libraries that are not visibility keywords or
   * unresolved, in their original (link) order.
   */
  function ValidLibs(libs: seq<string>): (r: seq<string>)
    ensures |r| <= |libs|
    ensures forall x :: x in r <==> x in libs && KeepLib(x)
    ensures r == Seqs.FilterIn(libs, set x | x in libs && KeepLib(x))
    decreases |libs|
  {
    if |libs| == 0 then []
    else
      var rest := ValidLibs(libs[1..]);
      assert forall x :: x in libs <==> x == libs[0] || x in libs[1..] by {
        assert libs == [libs[0]] + libs[1..];
      }
      Seqs.FilterInSameOn(libs[1..], set x | x in libs[1..] && KeepLib(x), set x | x in libs && KeepLib(x));
      if KeepLib(libs[0]) then [libs[0]] + rest else rest
  }

  /** The emitted `flags`: the target's flags followed by one `-D` flag per compile definition. */
  function AllFlags(t: CmakeTarget): (r: seq<string>)
    ensures |r| == |t.flags| + |t.compileDefinitions|
    ensures r[..|t.flags|] == t.flags
    ensures forall i :: 0 <= i < |t.compileDefinitions| ==> r[|t.flags| + i] == "-D" + t.compileDefinitions[i]
  {
    t.flags + seq(|t.compileDefinitions|, i requires 0 <= i < |t.compileDefinitions| => "-D" + t.compileDefinitions[i])
  }

  /** The emitted `type`: a known type name as it is, anything else as a static library. */
  function TypeName(targetType: string): (r: string)
    ensures Config.ParseTargetType(r).Some?
    ensures Config.ParseTargetType(targetType).Some? ==> r == targetType
    ensures Config.ParseTargetType(targetType).None? ==> r == "static_lib"
  {
    if targetType == "executable" || targetType == "static_lib" || targetType == "shared_lib" then targetType
    else "static_lib"
  }

  /** One emitted `[[target]]` block; `sources` is always written, any other empty list is an omitted field. */
  datatype TomlTarget = TomlTarget(
    name: string,
    targetType: string,
    sources: seq<string>,
    includeDirs: seq<string>,
    deps: seq<string>,
    libs: seq<string>,
    flags: seq<string>)

  function ConvertTarget(ts: seq<CmakeTarget>, t: CmakeTarget, baseName: string): (r: TomlTarget)
    ensures r.name == t.name
    ensures Config.ParseTargetType(r.targetType).Some?
    ensures Seqs.NoDuplicates(r.sources)
  {
    TomlTarget(t.name, TypeName(t.targetType), ValidSources(t, baseName), IncludeDirsToAdd(ts, t),
      NormalizedDeps(t.deps), ValidLibs(t.libs), AllFlags(t))
  }

  /** The `[[target]]` blocks of `convert_to_toml_with_includes`, one per target in order. */
  function ConvertToToml(ts: seq<CmakeTarget>, baseName: string): (r: seq<TomlTarget>)
    ensures |r| == |ts|
    ensures forall i :: 0 <= i < |r| ==> r[i].name == ts[i].name && Config.ParseTargetType(r[i].targetType).Some?
  {
    seq(|ts|, i requires 0 <= i < |ts| => ConvertTarget(ts, ts[i], baseName))
  }
}
