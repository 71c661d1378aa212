/**
 * The build coordinator of `src/builder.rs`. The worker threads, the job
 * queue and the result channel are replaced by the sequence of job results
 * the coordinator receives; what remains is its bookkeeping: which targets'
 * jobs are queued and when, what each result changes, the reported success
 * and progress, and the level-by-level alternative.
 */
module Builder {
  import opened Wrappers
  import opened Seqs
  import opened Config
  import Paths
  import Dag
  import Compile

  type Targets = map<string, ResolvedTarget>

  /** The dependency graph of a project: each target's `deps`. */
  function DepGraph(targets: Targets): (g: Dag.Graph)
    ensures g.Keys == targets.Keys
    ensures forall n :: n in g ==> g[n] == targets[n].deps
  {
    map n | n in targets :: targets[n].deps
  }

  /** Every target is stored under its own name, as a loaded project's are. */
  predicate KeyedByName(targets: Targets) {
    forall n :: n in targets ==> targets[n].name == n
  }

  /** `total_targets`: the sum of the level sizes, which is zero only when every level is empty. */
  function TotalTargets(order: Dag.Levels): (r: nat)
    ensures r == |Flatten(order)|
    ensures r == 0 <==> forall k :: 0 <= k < |order| ==> order[k] == []
  {
    Seqs.TotalLengthZero(order);
    TotalLength(order)
  }

  /** For a successful build order the total is the number of targets. */
  lemma TotalTargetsCount(targets: Targets, keys: seq<string>, order: Dag.Levels)
    requires IsEnumeration(keys, DepGraph(targets))
    requires Dag.BuildOrder(DepGraph(targets), keys) == Ok(order)
    ensures TotalTargets(order) == |targets|
  {
    assert |DepGraph(targets)| == |targets| by {
      assert DepGraph(targets).Keys == targets.Keys;
    }
  }

  // ---------------------------------------------------------------------------
  // Object paths and link dependencies
  // ---------------------------------------------------------------------------

  /** The object path the coordinator gives a source: `<output_dir>/obj/<name>/<stem>.o`, `name` being the target's key. */
  function ObjectPathFor(t: ResolvedTarget, name: string, source: string): string {
    Paths.Join(Paths.Join(Paths.Join(t.outputDir, "obj"), name), Compile.ObjectFileName(source))
  }

  /** For a target stored under its own name, that is the path its own build uses. */
  lemma ObjectPathAgrees(t: ResolvedTarget, source: string)
    ensures ObjectPathFor(t, t.name, source) == Compile.ObjectPath(t, source)
    ensures Strings.StartsWith(ObjectPathFor(t, t.name, source), Compile.ObjectDir(t))
    ensures Strings.EndsWith(ObjectPathFor(t, t.name, source), Compile.ObjectFileName(source))
  {
    Compile.ObjectPathParts(t, source);
  }

  /**
   * `link_deps_for_target`: nothing for an unknown target or a static
   * library, otherwise its transitive dependencies in link order.
   */
  function LinkDepsForTarget(targets: Targets, name: string, order: Dag.Levels): (r: Option<seq<string>>)
    ensures r.None? <==> name !in targets || targets[name].targetType == StaticLib
  {
    if name !in targets then None
    else match targets[name].targetType
      case StaticLib => None
      case _ => Some(Dag.TransitiveDepsInLinkOrder(DepGraph(targets), name, order))
  }

  /**
   * For a successful build order, the link dependencies of an executable or
   * shared library are exactly its transitive dependencies, each listed
   * before the dependencies of its own.
   */
  lemma LinkDepsForTargetContents(targets: Targets, keys: seq<string>, order: Dag.Levels, name: string)
    requires IsEnumeration(keys, DepGraph(targets))
    requires Dag.BuildOrder(DepGraph(targets), keys) == Ok(order)
    requires name in targets && targets[name].targetType != StaticLib
    ensures var r := LinkDepsForTarget(targets, name, order);
      && r.Some?
      && (forall x :: x in r.value <==> x in Dag.Closure(DepGraph(targets), targets[name].deps))
      && Dag.DependentsFirst(DepGraph(targets), r.value)
  {
    Dag.TransitiveDepsLinkOrder(DepGraph(targets), keys, order, name);
  }

  /**
   * `built_deps_subset`: empty without link dependencies, otherwise the
   * listed names that have been built, with their paths.
   */
  function BuiltDepsSubset(built: map<string, string>, names: Option<seq<string>>): (r: map<string, string>)
    ensures names.None? ==> r == map[]
    ensures names.Some? ==> forall n :: n in r <==> n in names.value && n in built
    ensures forall n :: n in r ==> n in built && r[n] == built[n]
  {
    match names
    case None => map[]
    case Some(ns) => BuiltAmong(built, ns)
  }

  function BuiltAmong(built: map<string, string>, names: seq<string>): (r: map<string, string>)
    ensures forall n :: n in r <==> n in names && n in built
    ensures forall n :: n in r ==> r[n] == built[n]
    decreases |names|
  {
    if |names| == 0 then map[]
    else
      var last := names[|names| - 1];
      var front := names[..|names| - 1];
      assert names == front + [last];
      var rest := BuiltAmong(built, front);
      if last in built then rest[last := built[last]] else rest
  }

  // ---------------------------------------------------------------------------
  // Jobs and the coordinator's state
  // ---------------------------------------------------------------------------

  datatype Job =
    | CompileJob(target: string, index: nat, source: string, obj: string)
    | LinkJob(target: string, objects: seq<string>, builtDeps: map<string, string>, linkDeps: Option<seq<string>>)

  /**
   * What the coordinator starts from: the targets, the build order, the
   * iteration order of the target map (which fixes the order of each
   * dependents list), `ignore_errors`, and whether output names follow
   * Windows conventions.
   */
  datatype Plan = Plan(targets: Targets, order: Dag.Levels, keys: seq<string>, ignoreErrors: bool, windows: bool)

  /**
   * The coordinator's bookkeeping: `built_targets`, `obj_files`,
   * `compile_jobs_added` (in insertion order), every job pushed so far,
   * the jobs whose result has been handled, `in_flight`, the counters, the
   * failure flag and the results.
   */
  datatype Coordinator = Coordinator(
    built: map<string, string>,
    objects: map<string, seq<Option<string>>>,
    added: seq<string>,
    jobs: seq<Job>,
    received: set<nat>,
    inFlight: nat,
    successful: nat,
    failed: nat,
    buildFailed: bool,
    results: seq<Compile.CompileResult>)

  const Start: Coordinator := Coordinator(map[], map[], [], [], {}, 0, 0, 0, false, [])

  function Level0(order: Dag.Levels): seq<string> {
    if |order| == 0 then [] else order[0]
  }

  /** A dependent is ready when it is a target whose every dependency has been built. */
  predicate Ready(targets: Targets, built: map<string, string>, name: string) {
    name in targets && forall d :: d in targets[name].deps ==> d in built
  }

  /** The compile job of each source of a target, in order. */
  function CompileJobs(t: ResolvedTarget, name: string): (r: seq<Job>)
    ensures |r| == |t.sources|
    ensures forall k :: 0 <= k < |r| ==> r[k] == CompileJob(name, k, t.sources[k], ObjectPathFor(t, name, t.sources[k]))
  {
    seq(|t.sources|, k requires 0 <= k < |t.sources| => CompileJob(name, k, t.sources[k], ObjectPathFor(t, name, t.sources[k])))
  }

  /**
   * `push_compile_jobs`: nothing for an unknown target; a link job with no
   * objects for a target without sources; otherwise one compile job per
   * source. Returns the state and the number of jobs pushed.
   */
  function PushJobs(plan: Plan, s: Coordinator, name: string): (r: (Coordinator, nat))
    ensures r.0 == s.(jobs := r.0.jobs)
    ensures |r.0.jobs| == |s.jobs| + r.1 && r.0.jobs[..|s.jobs|] == s.jobs
    ensures r.1 > 0 <==> name in plan.targets
    ensures forall k :: |s.jobs| <= k < |r.0.jobs| ==> r.0.jobs[k].target == name
    ensures name in plan.targets && plan.targets[name].sources == [] ==>
      r.1 == 1 && r.0.jobs[|s.jobs|].LinkJob? && r.0.jobs[|s.jobs|].objects == []
    ensures name in plan.targets && plan.targets[name].sources != [] ==>
      && r.1 == |plan.targets[name].sources|
      && (forall k :: 0 <= k < r.1 ==>
            var src := plan.targets[name].sources[k];
            r.0.jobs[|s.jobs| + k] == CompileJob(name, k, src, ObjectPathFor(plan.targets[name], name, src)))
  {
    if name !in plan.targets then (s, 0)
    else
      var t := plan.targets[name];
      if |t.sources| == 0 then
        var linkDeps := LinkDepsForTarget(plan.targets, name, plan.order);
        (s.(jobs := s.jobs + [LinkJob(name, [], BuiltDepsSubset(s.built, linkDeps), linkDeps)]), 1)
      else
        var jobs := CompileJobs(t, name);
        var r := s.(jobs := s.jobs + jobs);
        assert forall k :: 0 <= k < |jobs| ==> r.jobs[|s.jobs| + k] == jobs[k];
        (r, |jobs|)
  }

  /** One empty object slot per source of a known target; none for an unknown one. */
  function NoObjects(plan: Plan, name: string): seq<Option<string>> {
    if name in plan.targets then seq(|plan.targets[name].sources|, _ => None) else []
  }

  /**
   * Queue a target: make its `obj_files` entry when missing, push its jobs,
   * count them in flight and record it in `compile_jobs_added`.
   */
  function Enqueue(plan: Plan, s: Coordinator, name: string): (r: Coordinator)
    ensures r.built == s.built && r.received == s.received && r.results == s.results
    ensures r.successful == s.successful && r.failed == s.failed && r.buildFailed == s.buildFailed
    ensures r.objects == if name in s.objects then s.objects else s.objects[name := NoObjects(plan, name)]
    ensures r.added == if name in s.added then s.added else s.added + [name]
    ensures |r.jobs| >= |s.jobs| && r.jobs[..|s.jobs|] == s.jobs
    ensures r.inFlight == s.inFlight + (|r.jobs| - |s.jobs|)
    ensures forall k :: |s.jobs| <= k < |r.jobs| ==> r.jobs[k].target == name && name in plan.targets
    ensures forall k :: |s.jobs| <= k < |r.jobs| && r.jobs[k].CompileJob? ==>
      r.jobs[k].index < |plan.targets[name].sources|
  {
    var s1 := if name in s.objects then s else s.(objects := s.objects[name := NoObjects(plan, name)]);
    var (s2, n) := PushJobs(plan, s1, name);
    s2.(inFlight := s2.inFlight + n, added := if name in s2.added then s2.added else s2.added + [name])
  }

  /** Queue each name in turn: the first level's targets at the start of the build. */
  function EnqueueAll(plan: Plan, s: Coordinator, names: seq<string>): (r: Coordinator)
    ensures r.built == s.built && r.received == s.received && r.results == s.results
    ensures r.successful == s.successful && r.failed == s.failed && r.buildFailed == s.buildFailed
    ensures forall x :: x in r.added <==> x in s.added || x in names
    ensures |r.jobs| >= |s.jobs| && r.inFlight == s.inFlight + (|r.jobs| - |s.jobs|)
    decreases |names|
  {
    if |names| == 0 then s
    else
      assert forall x :: x in names <==> x == names[0] || x in names[1..] by {
        assert names == [names[0]] + names[1..];
      }
      EnqueueAll(plan, Enqueue(plan, s, names[0]), names[1..])
  }

  /**
   * The state once the first level's targets are queued: exactly they are
   * queued, every pushed job is in flight, and nothing is built, received
   * or counted yet.
   */
  function Init(plan: Plan): (r: Coordinator)
    ensures forall x :: x in r.added <==> x in Level0(plan.order)
    ensures r.inFlight == |r.jobs|
    ensures r.built == map[] && r.received == {} && r.results == []
    ensures r.successful == 0 && r.failed == 0 && !r.buildFailed
  {
    EnqueueAll(plan, Start, Level0(plan.order))
  }

  /**
   * The dependents of `x`, in the target map's iteration order: each target
   * once per occurrence of `x` in its `deps`.
   */
  function Dependents(targets: Targets, keys: seq<string>, x: string): (r: seq<string>)
    ensures forall n :: n in r <==> n in keys && n in targets && x in targets[n].deps
    decreases |keys|
  {
    if |keys| == 0 then []
    else
      var n := keys[0];
      var here := if n in targets then Occurrences(n, targets[n].deps, x) else [];
      assert forall y :: y in keys <==> y == n || y in keys[1..] by {
        assert keys == [n] + keys[1..];
      }
      here + Dependents(targets, keys[1..], x)
  }

  /** `n` once for each `x` in `deps`. */
  function Occurrences(n: string, deps: seq<string>, x: string): (r: seq<string>)
    ensures forall y :: y in r <==> y == n && x in deps
    decreases |deps|
  {
    if |deps| == 0 then []
    else
      assert forall y :: y in deps <==> y == deps[0] || y in deps[1..] by {
        assert deps == [deps[0]] + deps[1..];
      }
      (if deps[0] == x then [n] else []) + Occurrences(n, deps[1..], x)
  }

  /**
   * The dependents loop after a link: each dependent not yet queued whose
   * dependencies are all built is queued, in order.
   */
  function QueueDependents(plan: Plan, s: Coordinator, names: seq<string>): (r: Coordinator)
    ensures r.built == s.built && r.received == s.received && r.results == s.results
    ensures r.successful == s.successful && r.failed == s.failed && r.buildFailed == s.buildFailed
    ensures forall x :: x in r.added <==> x in s.added || (x in names && Ready(plan.targets, s.built, x))
    ensures |r.added| >= |s.added| && r.added[..|s.added|] == s.added
    ensures NoDuplicates(s.added) ==> NoDuplicates(r.added)
    ensures (forall x :: x in names ==> x in s.added || !Ready(plan.targets, s.built, x)) ==> r == s
    decreases |names|
  {
    if |names| == 0 then s
    else
      var x := names[0];
      var s1 := if x !in s.added && Ready(plan.targets, s.built, x) then Enqueue(plan, s, x) else s;
      assert forall y :: y in names <==> y == x || y in names[1..] by {
        assert names == [x] + names[1..];
      }
      assert NoDuplicates(s.added) && x !in s.added ==> NoDuplicates(s.added + [x]) by {
        if NoDuplicates(s.added) && x !in s.added {
          NoDuplicatesAppend(s.added, x);
        }
      }
      var r := QueueDependents(plan, s1, names[1..]);
      PrefixTransitive(s.added, s1.added, r.added);
      r
  }

  /** The jobs pushed from index `from` on are for known targets newly recorded in `added`. */
  ghost predicate QueuedJobs(plan: Plan, jobs: seq<Job>, from: nat, before: seq<string>, after: seq<string>) {
    forall k :: from <= k < |jobs| ==>
      && jobs[k].target in plan.targets && jobs[k].target in after && jobs[k].target !in before
      && (jobs[k].CompileJob? ==> jobs[k].index < |plan.targets[jobs[k].target].sources|)
  }

  /** Entries already in `obj_files` are kept; new ones have one empty slot per source. */
  ghost predicate ObjectsExtended(plan: Plan, before: map<string, seq<Option<string>>>, after: map<string, seq<Option<string>>>) {
    && after.Keys >= before.Keys
    && forall x :: x in after ==> after[x] == if x in before then before[x] else NoObjects(plan, x)
  }

  /**
   * The dependents loop only appends jobs, counts each in flight, and every
   * job it pushes belongs to a dependent queued by this very loop.
   */
  lemma {:induction false} QueueDependentsJobs(plan: Plan, s: Coordinator, names: seq<string>)
    ensures var r := QueueDependents(plan, s, names);
      && |r.jobs| >= |s.jobs| && r.jobs[..|s.jobs|] == s.jobs
      && r.inFlight == s.inFlight + (|r.jobs| - |s.jobs|)
      && QueuedJobs(plan, r.jobs, |s.jobs|, s.added, r.added)
      && ObjectsExtended(plan, s.objects, r.objects)
    decreases |names|, 1
  {
    if |names| > 0 {
      var x := names[0];
      if x !in s.added && Ready(plan.targets, s.built, x) {
        QueueOneJobs(plan, s, names);
      } else {
        assert QueueDependents(plan, s, names) == QueueDependents(plan, s, names[1..]);
        QueueDependentsJobs(plan, s, names[1..]);
      }
    }
  }

  /** The step of the dependents loop that queues its first name. */
  lemma {:induction false} QueueOneJobs(plan: Plan, s: Coordinator, names: seq<string>)
    requires |names| > 0 && names[0] !in s.added && Ready(plan.targets, s.built, names[0])
    ensures var r := QueueDependents(plan, s, names);
      && |r.jobs| >= |s.jobs| && r.jobs[..|s.jobs|] == s.jobs
      && r.inFlight == s.inFlight + (|r.jobs| - |s.jobs|)
      && QueuedJobs(plan, r.jobs, |s.jobs|, s.added, r.added)
      && ObjectsExtended(plan, s.objects, r.objects)
    decreases |names|, 0
  {
    var x := names[0];
    var s1 := Enqueue(plan, s, x);
    var r := QueueDependents(plan, s1, names[1..]);
    assert r == QueueDependents(plan, s, names);
    QueueDependentsJobs(plan, s1, names[1..]);
    EnqueueNew(plan, s, x);
    PrefixTransitive(s.jobs, s1.jobs, r.jobs);
    QueuedJobsCompose(plan, s.jobs, s1.jobs, r.jobs, s.added, s1.added, r.added);
    ObjectsExtendedCompose(plan, s.objects, s1.objects, r.objects);
  }

  lemma ObjectsExtendedCompose(plan: Plan, o0: map<string, seq<Option<string>>>, o1: map<string, seq<Option<string>>>,
                               o2: map<string, seq<Option<string>>>)
    requires ObjectsExtended(plan, o0, o1) && ObjectsExtended(plan, o1, o2)
    ensures ObjectsExtended(plan, o0, o2)
  {
  }

  /** Queueing a name not yet recorded pushes only jobs of that name and extends `obj_files`. */
  lemma EnqueueNew(plan: Plan, s: Coordinator, x: string)
    requires x !in s.added
    ensures var r := Enqueue(plan, s, x);
      && QueuedJobs(plan, r.jobs, |s.jobs|, s.added, r.added)
      && ObjectsExtended(plan, s.objects, r.objects)
  {
  }

  lemma QueuedJobsCompose(plan: Plan, j0: seq<Job>, j1: seq<Job>, j2: seq<Job>, a0: seq<string>, a1: seq<string>, a2: seq<string>)
    requires |j0| <= |j1| <= |j2| && j2[..|j1|] == j1
    requires |a0| <= |a1| <= |a2| && a1[..|a0|] == a0 && a2[..|a1|] == a1
    requires QueuedJobs(plan, j1, |j0|, a0, a1) && QueuedJobs(plan, j2, |j1|, a1, a2)
    ensures QueuedJobs(plan, j2, |j0|, a0, a2)
  {
    forall k | |j0| <= k < |j2|
      ensures j2[k].target in plan.targets && j2[k].target in a2 && j2[k].target !in a0
      ensures j2[k].CompileJob? ==> j2[k].index < |plan.targets[j2[k].target].sources|
    {
      if k < |j1| {
        assert j2[k] == j2[..|j1|][k];
        PrefixMember(a1, a2, j2[k].target);
      } else {
        if j2[k].target in a0 {
          PrefixMember(a0, a1, j2[k].target);
        }
      }
    }
  }

  lemma PrefixMember<T>(a: seq<T>, b: seq<T>, x: T)
    requires |a| <= |b| && b[..|a|] == a && x in a
    ensures x in b
  {
    var i :| 0 <= i < |a| && a[i] == x;
    assert b[i] == b[..|a|][i];
  }

  lemma PrefixTransitive<T>(a: seq<T>, b: seq<T>, c: seq<T>)
    requires |a| <= |b| <= |c| && b[..|a|] == a && c[..|b|] == b
    ensures c[..|a|] == a
  {
    assert c[..|a|] == c[..|b|][..|a|];
  }

  // ---------------------------------------------------------------------------
  // Handling results
  // ---------------------------------------------------------------------------

  /**
   * One result received by the coordinator: the job it belongs to, the file
   * times at that moment, whether the compiler or linker command succeeds
   * when it runs, and the cancel flag as read after handling it.
   */
  datatype Event =
    | CompileDone(job: nat, fs: Compile.Stats, compileSucceeds: bool, cancel: bool)
    | LinkDone(job: nat, fs: Compile.Stats, linkSucceeds: bool, cancel: bool)

  /** A result that can arrive: of a job pushed and not yet answered, for a known target, of the right kind. */
  predicate Valid(plan: Plan, s: Coordinator, e: Event) {
    && e.job < |s.jobs| && e.job !in s.received && s.inFlight > 0
    && s.jobs[e.job].target in plan.targets
    && (e.CompileDone? ==>
          s.jobs[e.job].CompileJob? && s.jobs[e.job].target in s.objects
          && s.jobs[e.job].index < |s.objects[s.jobs[e.job].target]|)
    && (e.LinkDone? ==> s.jobs[e.job].LinkJob?)
  }

  /** `compile_one_source_or_skip` succeeds when the object is up to date or the compiler succeeds. */
  predicate CompileSucceeded(s: Coordinator, e: Event)
    requires e.CompileDone? && e.job < |s.jobs| && s.jobs[e.job].CompileJob?
  {
    var job := s.jobs[e.job];
    !Compile.NeedsRecompile(e.fs, job.source, job.obj) || e.compileSucceeds
  }

  /** The object paths of a target whose every slot is filled. */
  function Filled(of: seq<Option<string>>): (r: seq<string>)
    requires forall k :: 0 <= k < |of| ==> of[k].Some?
    ensures |r| == |of| && forall k :: 0 <= k < |of| ==> of[k] == Some(r[k])
  {
    seq(|of|, k requires 0 <= k < |of| => of[k].value)
  }

  /**
   * A compile result: a failure is counted and recorded; a success fills
   * the source's object slot and, once every slot is filled, pushes the
   * target's link job.
   */
  function OnCompileDone(plan: Plan, s: Coordinator, e: Event): (r: Coordinator)
    requires e.CompileDone? && Valid(plan, s, e)
    ensures r.received == s.received + {e.job} && r.added == s.added && r.built == s.built
    ensures !CompileSucceeded(s, e) ==>
      r.failed == s.failed + 1 && r.buildFailed && r.jobs == s.jobs && r.inFlight == s.inFlight - 1
      && r.results == s.results + [Compile.CompileResult(s.jobs[e.job].target, false, "")]
    ensures CompileSucceeded(s, e) ==>
      var job := s.jobs[e.job];
      var of := s.objects[job.target][job.index := Some(job.obj)];
      && r.failed == s.failed && r.buildFailed == s.buildFailed && r.results == s.results
      && r.objects == s.objects[job.target := of]
      && ((forall k :: 0 <= k < |of| ==> of[k].Some?) ==>
            var linkDeps := LinkDepsForTarget(plan.targets, job.target, plan.order);
            && r.jobs == s.jobs + [LinkJob(job.target, Filled(of), BuiltDepsSubset(s.built, linkDeps), linkDeps)]
            && r.inFlight == s.inFlight)
      && (!(forall k :: 0 <= k < |of| ==> of[k].Some?) ==> r.jobs == s.jobs && r.inFlight == s.inFlight - 1)
  {
    var job := s.jobs[e.job];
    var s1 := s.(inFlight := s.inFlight - 1, received := s.received + {e.job});
    if !CompileSucceeded(s, e) then
      s1.(buildFailed := true, failed := s1.failed + 1,
          results := s1.results + [Compile.CompileResult(job.target, false, "")])
    else
      var of := s1.objects[job.target][job.index := Some(job.obj)];
      var s2 := s1.(objects := s1.objects[job.target := of]);
      if forall k :: 0 <= k < |of| ==> of[k].Some? then
        var linkDeps := LinkDepsForTarget(plan.targets, job.target, plan.order);
        s2.(jobs := s2.jobs + [LinkJob(job.target, Filled(of), BuiltDepsSubset(s2.built, linkDeps), linkDeps)],
            inFlight := s2.inFlight + 1)
      else s2
  }

  /** What `run_link_step` reports for a link job. */
  function LinkResult(plan: Plan, s: Coordinator, e: Event): (r: Compile.CompileResult)
    requires e.LinkDone? && Valid(plan, s, e)
    ensures r.targetName == plan.targets[s.jobs[e.job].target].name
  {
    var job := s.jobs[e.job];
    Compile.RunLinkStep(plan.targets[job.target], job.objects, e.fs, job.builtDeps, job.linkDeps, plan.windows, e.linkSucceeds)
  }

  /**
   * A link result: a success records the output in `built_targets`, a
   * failure is counted; after a success, or with `ignore_errors`, the
   * target's dependents are considered for queueing.
   */
  function OnLinkDone(plan: Plan, s: Coordinator, e: Event): (r: Coordinator)
    requires e.LinkDone? && Valid(plan, s, e)
    ensures var res := LinkResult(plan, s, e);
      && r.received == s.received + {e.job}
      && r.results == s.results + [res]
      && (res.success ==>
            r.built == s.built[res.targetName := res.outputPath] && r.successful == s.successful + 1
            && r.failed == s.failed && r.buildFailed == s.buildFailed)
      && (!res.success ==>
            r.built == s.built && r.successful == s.successful && r.failed == s.failed + 1 && r.buildFailed)
      && (!res.success && !plan.ignoreErrors ==> r.added == s.added && r.jobs == s.jobs)
  {
    var result := LinkResult(plan, s, e);
    var s2 := Recorded(s, e.job, result);
    if result.success || plan.ignoreErrors then QueueDependents(plan, s2, Dependents(plan.targets, plan.keys, result.targetName))
    else s2
  }

  /**
   * The result of handling one event: the job is answered, at most one
   * result is recorded and counted once as a success or a failure, and no
   * built output is forgotten.
   */
  function Handle(plan: Plan, s: Coordinator, e: Event): (r: Coordinator)
    requires Valid(plan, s, e)
    ensures r.received == s.received + {e.job}
    ensures |s.results| <= |r.results| <= |s.results| + 1 && r.results[..|s.results|] == s.results
    ensures r.successful + r.failed == s.successful + s.failed + (|r.results| - |s.results|)
    ensures s.built.Keys <= r.built.Keys
  {
    if e.CompileDone? then
      var r := OnCompileDone(plan, s, e);
      assert r.results[..|s.results|] == s.results;
      r
    else
      var r := OnLinkDone(plan, s, e);
      assert r.results[..|s.results|] == s.results;
      r
  }

  // ---------------------------------------------------------------------------
  // The coordinator's invariant
  // ---------------------------------------------------------------------------

  /** The number of failed results. */
  function FailedCount(rs: seq<Compile.CompileResult>): (r: nat)
    ensures r <= |rs|
    decreases |rs|
  {
    if |rs| == 0 then 0 else (if rs[0].success then 0 else 1) + FailedCount(rs[1..])
  }

  lemma {:induction false} FailedCountConcat(a: seq<Compile.CompileResult>, b: seq<Compile.CompileResult>)
    ensures FailedCount(a + b) == FailedCount(a) + FailedCount(b)
    decreases |a|
  {
    if |a| == 0 {
      assert a + b == b;
    } else {
      assert (a + b)[0] == a[0];
      assert (a + b)[1..] == a[1..] + b;
      FailedCountConcat(a[1..], b);
    }
  }

  /** No result failed exactly when the failure count is zero. */
  lemma {:induction false} FailedCountZero(rs: seq<Compile.CompileResult>)
    ensures FailedCount(rs) == 0 <==> forall k :: 0 <= k < |rs| ==> rs[k].success
    decreases |rs|
  {
    if |rs| > 0 {
      FailedCountZero(rs[1..]);
      assert forall k :: 1 <= k < |rs| ==> rs[k] == rs[1..][k - 1];
    }
  }

  /** Every `obj_files` entry has one slot per source of its target, and every compile job's slot exists. */
  ghost predicate ObjectsSized(plan: Plan, s: Coordinator) {
    && (forall x :: x in s.objects ==> |s.objects[x]| == |NoObjects(plan, x)|)
    && (forall k :: 0 <= k < |s.jobs| && s.jobs[k].CompileJob? ==> s.jobs[k].target in s.objects)
  }

  /** `in_flight` counts exactly the pushed jobs whose result is still outstanding. */
  ghost predicate InFlightCounted(s: Coordinator) {
    && (forall k :: k in s.received ==> k < |s.jobs|)
    && s.inFlight + |s.received| == |s.jobs|
  }

  /** `failed` counts the failed results and the failure flag is set exactly when it is positive. */
  ghost predicate FailuresCounted(s: Coordinator) {
    && s.failed == FailedCount(s.results)
    && (s.buildFailed <==> s.failed > 0)
  }

  /** Only targets of the project are built or reported. */
  ghost predicate NamesKnown(plan: Plan, s: Coordinator) {
    && (forall x :: x in s.built ==> x in plan.targets)
    && (forall k :: 0 <= k < |s.results| ==> s.results[k].targetName in plan.targets)
  }

  /** Every queued target is of the first level or has all its dependencies built. */
  ghost predicate AddedReady(plan: Plan, s: Coordinator) {
    forall x :: x in s.added ==> x in Level0(plan.order) || Ready(plan.targets, s.built, x)
  }

  ghost predicate Inv(plan: Plan, s: Coordinator) {
    && NoDuplicates(s.added)
    && QueuedJobs(plan, s.jobs, 0, [], s.added)
    && ObjectsSized(plan, s)
    && InFlightCounted(s)
    && FailuresCounted(s)
    && NamesKnown(plan, s)
    && AddedReady(plan, s)
  }

  /** Queueing a first-level target or a ready one keeps the invariant. */
  lemma EnqueueInv(plan: Plan, s: Coordinator, x: string)
    requires Inv(plan, s)
    requires x in Level0(plan.order) || Ready(plan.targets, s.built, x)
    ensures Inv(plan, Enqueue(plan, s, x))
  {
    if x !in s.added {
      NoDuplicatesAppend(s.added, x);
    }
    EnqueueJobsKnown(plan, s, x);
  }

  /** After queueing, every job names a queued target with an object list, and a source it has. */
  lemma EnqueueJobsKnown(plan: Plan, s: Coordinator, x: string)
    requires Inv(plan, s)
    ensures var r := Enqueue(plan, s, x);
      forall k :: 0 <= k < |r.jobs| ==>
        && r.jobs[k].target in plan.targets && r.jobs[k].target in r.added
        && (r.jobs[k].CompileJob? ==> r.jobs[k].index < |plan.targets[r.jobs[k].target].sources|)
        && (r.jobs[k].CompileJob? ==> r.jobs[k].target in r.objects)
  {
    var r := Enqueue(plan, s, x);
    forall k | 0 <= k < |r.jobs|
      ensures r.jobs[k].target in plan.targets && r.jobs[k].target in r.added
      ensures r.jobs[k].CompileJob? ==> r.jobs[k].index < |plan.targets[r.jobs[k].target].sources|
      ensures r.jobs[k].CompileJob? ==> r.jobs[k].target in r.objects
    {
      if k < |s.jobs| {
        assert r.jobs[k] == r.jobs[..|s.jobs|][k];
      }
    }
  }

  lemma {:induction false} EnqueueAllInv(plan: Plan, s: Coordinator, names: seq<string>)
    requires Inv(plan, s)
    requires forall x :: x in names ==> x in Level0(plan.order)
    ensures Inv(plan, EnqueueAll(plan, s, names))
    decreases |names|
  {
    if |names| > 0 {
      EnqueueInv(plan, s, names[0]);
      EnqueueAllInv(plan, Enqueue(plan, s, names[0]), names[1..]);
    }
  }

  /** The coordinator's state after queueing the first level satisfies the invariant. */
  lemma InitInv(plan: Plan)
    ensures Inv(plan, Init(plan))
  {
    EnqueueAllInv(plan, Start, Level0(plan.order));
  }

  lemma {:induction false} QueueDependentsInv(plan: Plan, s: Coordinator, names: seq<string>)
    requires Inv(plan, s)
    ensures Inv(plan, QueueDependents(plan, s, names))
    decreases |names|
  {
    if |names| > 0 {
      var x := names[0];
      if x !in s.added && Ready(plan.targets, s.built, x) {
        EnqueueInv(plan, s, x);
        QueueDependentsInv(plan, Enqueue(plan, s, x), names[1..]);
      } else {
        QueueDependentsInv(plan, s, names[1..]);
      }
    }
  }

  lemma ReceivedCard(received: set<nat>, j: nat)
    requires j !in received
    ensures |received + {j}| == |received| + 1
  {
  }

  /** Handling a compile result keeps the invariant. */
  lemma CompileDoneInv(plan: Plan, s: Coordinator, e: Event)
    requires e.CompileDone? && Valid(plan, s, e) && Inv(plan, s)
    ensures Inv(plan, OnCompileDone(plan, s, e))
  {
    if CompileSucceeded(s, e) {
      CompileSucceededInv(plan, s, e);
    } else {
      CompileFailedInv(plan, s, e);
    }
  }

  lemma CompileFailedInv(plan: Plan, s: Coordinator, e: Event)
    requires e.CompileDone? && Valid(plan, s, e) && Inv(plan, s) && !CompileSucceeded(s, e)
    ensures Inv(plan, OnCompileDone(plan, s, e))
  {
    var r := OnCompileDone(plan, s, e);
    ReceivedCard(s.received, e.job);
    FailedCountConcat(s.results, [r.results[|s.results|]]);
    assert forall k :: 0 <= k < |s.results| ==> r.results[k] == s.results[k];
  }

  lemma CompileSucceededInv(plan: Plan, s: Coordinator, e: Event)
    requires e.CompileDone? && Valid(plan, s, e) && Inv(plan, s) && CompileSucceeded(s, e)
    ensures Inv(plan, OnCompileDone(plan, s, e))
  {
    var r := OnCompileDone(plan, s, e);
    ReceivedCard(s.received, e.job);
    forall k | 0 <= k < |r.jobs|
      ensures r.jobs[k].target in plan.targets && r.jobs[k].target in r.added
      ensures r.jobs[k].CompileJob? ==> r.jobs[k].index < |plan.targets[r.jobs[k].target].sources|
      ensures r.jobs[k].CompileJob? ==> r.jobs[k].target in r.objects
    {
      if k < |s.jobs| {
        assert r.jobs[k] == s.jobs[k];
      }
    }
  }

  /** Handling a link result keeps the invariant, for targets stored under their own names. */
  lemma LinkDoneInv(plan: Plan, s: Coordinator, e: Event)
    requires KeyedByName(plan.targets)
    requires e.LinkDone? && Valid(plan, s, e) && Inv(plan, s)
    ensures Inv(plan, OnLinkDone(plan, s, e))
  {
    var result := LinkResult(plan, s, e);
    assert result.targetName == s.jobs[e.job].target;
    var s2 := Recorded(s, e.job, result);
    RecordedInv(plan, s, e.job, result);
    if result.success || plan.ignoreErrors {
      QueueDependentsInv(plan, s2, Dependents(plan.targets, plan.keys, result.targetName));
    }
  }

  /** The bookkeeping of a link result before its dependents are considered. */
  function Recorded(s: Coordinator, j: nat, result: Compile.CompileResult): Coordinator
    requires s.inFlight > 0
  {
    var s1 := s.(inFlight := s.inFlight - 1, received := s.received + {j}, results := s.results + [result]);
    if result.success then s1.(built := s1.built[result.targetName := result.outputPath], successful := s1.successful + 1)
    else s1.(failed := s1.failed + 1, buildFailed := true)
  }

  lemma RecordedInv(plan: Plan, s: Coordinator, j: nat, result: Compile.CompileResult)
    requires Inv(plan, s) && s.inFlight > 0 && j < |s.jobs| && j !in s.received
    requires result.targetName in plan.targets
    ensures Inv(plan, Recorded(s, j, result))
  {
    var r := Recorded(s, j, result);
    ReceivedCard(s.received, j);
    FailedCountConcat(s.results, [result]);
    assert forall k :: 0 <= k < |s.results| ==> r.results[k] == s.results[k];
    assert InFlightCounted(r);
    assert FailuresCounted(r);
    assert NamesKnown(plan, r);
    assert AddedReady(plan, r);
  }

  lemma HandleInv(plan: Plan, s: Coordinator, e: Event)
    requires KeyedByName(plan.targets)
    requires Valid(plan, s, e) && Inv(plan, s)
    ensures Inv(plan, Handle(plan, s, e))
  {
    if e.CompileDone? {
      CompileDoneInv(plan, s, e);
    } else {
      LinkDoneInv(plan, s, e);
    }
  }

  // ---------------------------------------------------------------------------
  // The run and its outcome
  // ---------------------------------------------------------------------------

  /**
   * The coordinator loop over the results as they arrive. It stops when
   * nothing is in flight (or a result that cannot arrive is offered), and
   * after any result other than a failed compilation when the cancel flag
   * is set; a failed compilation skips the cancel check.
   */
  function Run(plan: Plan, s: Coordinator, events: seq<Event>): (r: Coordinator)
    ensures s.received <= r.received
    ensures |s.results| <= |r.results| && r.results[..|s.results|] == s.results
    ensures r.successful + r.failed == s.successful + s.failed + (|r.results| - |s.results|)
    ensures s.built.Keys <= r.built.Keys
    decreases |events|
  {
    if |events| == 0 || !Valid(plan, s, events[0]) then s
    else
      var e := events[0];
      var s1 := Handle(plan, s, e);
      if (e.CompileDone? && !CompileSucceeded(s, e)) || !e.cancel then
        var r := Run(plan, s1, events[1..]);
        PrefixTransitive(s.results, s1.results, r.results);
        r
      else s1
  }

  lemma {:induction false} RunInv(plan: Plan, s: Coordinator, events: seq<Event>)
    requires KeyedByName(plan.targets) && Inv(plan, s)
    ensures Inv(plan, Run(plan, s, events))
    decreases |events|
  {
    if |events| > 0 && Valid(plan, s, events[0]) {
      HandleInv(plan, s, events[0]);
      RunInv(plan, Handle(plan, s, events[0]), events[1..]);
    }
  }

  datatype BuildResult = BuildResult(
    success: bool,
    results: seq<Compile.CompileResult>,
    totalTargets: nat,
    successfulTargets: nat,
    failedTargets: nat)

  /** The reported outcome; `cancelled` is the cancel flag as read once the loop is over. */
  function Finish(plan: Plan, s: Coordinator, cancelled: bool): (r: BuildResult)
    ensures r.results == s.results && r.successfulTargets == s.successful && r.failedTargets == s.failed
    ensures r.totalTargets == TotalTargets(plan.order)
  {
    BuildResult(!cancelled && !s.buildFailed && s.failed == 0, s.results, TotalTargets(plan.order), s.successful, s.failed)
  }

  /**
   * `build_ninja_style`: queue the first level, run the loop, report. The
   * total is the size of the order, every recorded result is counted once
   * as a success or a failure, and a cancelled build never succeeds.
   */
  function BuildNinjaStyle(plan: Plan, events: seq<Event>, cancelled: bool): (r: BuildResult)
    ensures r.totalTargets == TotalTargets(plan.order)
    ensures r.successfulTargets + r.failedTargets == |r.results|
    ensures r.success ==> !cancelled && r.failedTargets == 0
  {
    Finish(plan, Run(plan, Init(plan), events), cancelled)
  }

  /**
   * The build reports success exactly when it was not cancelled and every
   * result it recorded, of a compilation or of a link, succeeded.
   */
  lemma NinjaSuccessIff(plan: Plan, events: seq<Event>, cancelled: bool)
    requires KeyedByName(plan.targets)
    ensures var r := BuildNinjaStyle(plan, events, cancelled);
      r.success <==> !cancelled && forall k :: 0 <= k < |r.results| ==> r.results[k].success
  {
    InitInv(plan);
    RunInv(plan, Init(plan), events);
    FailedCountZero(Run(plan, Init(plan), events).results);
  }

  /**
   * A failed link queues nothing, even with `ignore_errors`: every dependent
   * of the failed target lists it among its dependencies, and it was never
   * built.
   */
  lemma FailedLinkQueuesNothing(plan: Plan, s: Coordinator, e: Event)
    requires KeyedByName(plan.targets)
    requires e.LinkDone? && Valid(plan, s, e)
    requires !LinkResult(plan, s, e).success
    requires s.jobs[e.job].target !in s.built
    ensures OnLinkDone(plan, s, e).added == s.added
    ensures OnLinkDone(plan, s, e).jobs == s.jobs
  {
    var result := LinkResult(plan, s, e);
    var s2 := Recorded(s, e.job, result);
    var names := Dependents(plan.targets, plan.keys, result.targetName);
    forall x | x in names ensures !Ready(plan.targets, s2.built, x) {
      assert result.targetName in plan.targets[x].deps;
    }
  }

  // ---------------------------------------------------------------------------
  // Progress
  // ---------------------------------------------------------------------------

  /** The progress percentage: `done * 100 / total` in integer division, 0 for no targets. */
  function Percent(done: nat, total: nat): (r: nat)
    ensures total == 0 ==> r == 0
    ensures total > 0 ==> r * total <= done * 100 < (r + 1) * total
  {
    if total > 0 then (done * 100) / total else 0
  }

  /** While no more targets are done than exist, the percentage is at most 100. */
  lemma PercentAtMost100(done: nat, total: nat)
    requires done <= total
    ensures Percent(done, total) <= 100
  {
    var r := Percent(done, total);
    if total > 0 {
      assert (r - 100) * total == r * total - 100 * total;
      assert (r - 100) * total <= 0;
    }
  }

  /**
   * The progress line as printed: successful plus failed counters over the
   * total. It stays within 100 only while there are no more results than
   * targets.
   */
  function ShownProgress(plan: Plan, s: Coordinator): (r: nat)
    ensures TotalTargets(plan.order) == 0 ==> r == 0
    ensures s.successful + s.failed <= TotalTargets(plan.order) ==> r <= 100
  {
    var done := s.successful + s.failed;
    assert done <= TotalTargets(plan.order) ==> Percent(done, TotalTargets(plan.order)) <= 100 by {
      if done <= TotalTargets(plan.order) {
        PercentAtMost100(done, TotalTargets(plan.order));
      }
    }
    Percent(done, TotalTargets(plan.order))
  }

  /** The targets finished so far: every built one and every one with a failed result. */
  function FinishedTargets(s: Coordinator): (r: set<string>)
    ensures s.built.Keys <= r
    ensures forall k :: 0 <= k < |s.results| && !s.results[k].success ==> s.results[k].targetName in r
  {
    s.built.Keys + set k | 0 <= k < |s.results| && !s.results[k].success :: s.results[k].targetName
  }

  /**
   * Progress counting each finished target of the order once; targets queued
   * as dependents outside a filtered order are not counted. With an order
   * that lists no name twice it never passes 100.
   */
  function CorrectedProgress(plan: Plan, s: Coordinator): (r: nat)
    ensures TotalTargets(plan.order) == 0 ==> r == 0
    ensures NoDuplicates(Flatten(plan.order)) ==> r <= 100
  {
    var names := Flatten(plan.order);
    var done := FinishedTargets(s) * Elements(names);
    assert NoDuplicates(names) ==> |done| <= TotalTargets(plan.order) by {
      if NoDuplicates(names) {
        NoDuplicatesCard(names);
        SubsetCard(done, Elements(names));
      }
    }
    assert |done| <= TotalTargets(plan.order) ==> Percent(|done|, TotalTargets(plan.order)) <= 100 by {
      if |done| <= TotalTargets(plan.order) {
        PercentAtMost100(|done|, TotalTargets(plan.order));
      }
    }
    Percent(|done|, TotalTargets(plan.order))
  }

  /**
   * Counting finished targets of the order, progress never passes 100 for a
   * full build order or one filtered to requested targets, whatever the
   * coordinator has done.
   */
  lemma CorrectedProgressBounded(plan: Plan, s: Coordinator, full: Dag.Levels, requested: seq<string>)
    requires IsEnumeration(plan.keys, DepGraph(plan.targets))
    requires Dag.BuildOrder(DepGraph(plan.targets), plan.keys) == Ok(full)
    requires Dag.FilterOrder(DepGraph(plan.targets), plan.keys, full, requested) == Ok(plan.order)
    ensures CorrectedProgress(plan, s) <= 100
  {
    Dag.FilterOrderNoDuplicates(DepGraph(plan.targets), plan.keys, full, requested);
  }

  /** The state after queueing a single target with two sources. */
  lemma InitTwoSources(t: ResolvedTarget)
    requires |t.sources| == 2
    ensures var plan := Plan(map[t.name := t], [[t.name]], [t.name], false, false);
      var s := Init(plan);
      && |s.jobs| == 2 && s.inFlight == 2 && s.received == {}
      && s.failed == 0 && s.successful == 0 && s.results == [] && s.built == map[]
      && s.objects == map[t.name := [None, None]]
      && (forall k :: 0 <= k < 2 ==> s.jobs[k].CompileJob? && s.jobs[k].target == t.name && s.jobs[k].index == k)
  {
    var plan := Plan(map[t.name := t], [[t.name]], [t.name], false, false);
    assert Level0(plan.order) == [t.name];
    assert [t.name][1..] == [];
    assert Init(plan) == EnqueueAll(plan, Enqueue(plan, Start, t.name), []);
    assert NoObjects(plan, t.name) == [None, None];
  }

  /** Two failed compilations of one target's two sources, with nothing up to date. */
  lemma TwoFailedCompiles(plan: Plan, s: Coordinator, name: string)
    requires name in plan.targets && name in s.objects && |s.objects[name]| == 2
    requires |s.jobs| == 2 && s.inFlight == 2 && s.received == {}
    requires forall k :: 0 <= k < 2 ==> s.jobs[k].CompileJob? && s.jobs[k].target == name && s.jobs[k].index == k
    ensures var r := Run(plan, s, [CompileDone(0, map[], false, false), CompileDone(1, map[], false, false)]);
      && r.failed == s.failed + 2 && r.successful == s.successful && r.built == s.built
      && r.results == s.results + [Compile.CompileResult(name, false, ""), Compile.CompileResult(name, false, "")]
  {
    var e0 := CompileDone(0, map[], false, false);
    var e1 := CompileDone(1, map[], false, false);
    assert Valid(plan, s, e0);
    assert !CompileSucceeded(s, e0);
    var s1 := OnCompileDone(plan, s, e0);
    assert Valid(plan, s1, e1);
    assert !CompileSucceeded(s1, e1);
    var s2 := OnCompileDone(plan, s1, e1);
    assert Run(plan, s1, [e1]) == Run(plan, s2, []) == s2;
    assert [e0, e1][1..] == [e1];
  }

  /** The progress figures once both compilations of the single target have failed. */
  lemma OvercountFigures(plan: Plan, s: Coordinator, name: string)
    requires plan.order == [[name]]
    requires s.failed == 2 && s.successful == 0 && s.built == map[]
    requires s.results == [Compile.CompileResult(name, false, ""), Compile.CompileResult(name, false, "")]
    ensures TotalTargets(plan.order) == 1
    ensures ShownProgress(plan, s) == 200
    ensures |FinishedTargets(s)| == 1 && CorrectedProgress(plan, s) == 100
  {
    assert TotalTargets(plan.order) == 1 by {
      assert plan.order[1..] == [];
      assert TotalLength(plan.order[1..]) == 0;
    }
    var failedNames := set k | 0 <= k < |s.results| && !s.results[k].success :: s.results[k].targetName;
    assert s.results[0].targetName == name;
    assert failedNames == {name};
    assert FinishedTargets(s) == {name};
    assert Flatten(plan.order) == [name] by {
      assert plan.order[1..] == [];
    }
    assert FinishedTargets(s) * Elements(Flatten(plan.order)) == {name};
    assert Percent(2, 1) == 200;
    assert Percent(1, 1) == 100;
  }

  /**
   * As written, `failed` grows once per failed compile job: a single target
   * whose two sources both fail to compile shows 2 of 1 targets done, 200%.
   */
  lemma ProgressOvercounts(t: ResolvedTarget)
    requires |t.sources| == 2
    ensures var plan := Plan(map[t.name := t], [[t.name]], [t.name], false, false);
      var s := Run(plan, Init(plan), [CompileDone(0, map[], false, false), CompileDone(1, map[], false, false)]);
      && TotalTargets(plan.order) == 1
      && s.failed == 2
      && ShownProgress(plan, s) == 200
      && |FinishedTargets(s)| == 1
      && CorrectedProgress(plan, s) == 100
  {
    var plan := Plan(map[t.name := t], [[t.name]], [t.name], false, false);
    InitTwoSources(t);
    TwoFailedCompiles(plan, Init(plan), t.name);
    OvercountFigures(plan, Run(plan, Init(plan), [CompileDone(0, map[], false, false), CompileDone(1, map[], false, false)]), t.name);
  }

  /**
   * Two source-less static libraries, `app` depending on `lib`, with the
   * build order filtered to `lib` alone; the dependents map still covers
   * both targets.
   */
  function FilteredPlan(lib: ResolvedTarget, app: ResolvedTarget): Plan {
    Plan(map[lib.name := lib, app.name := app], [[lib.name]], [lib.name, app.name], false, false)
  }

  predicate FilteredPair(lib: ResolvedTarget, app: ResolvedTarget) {
    && lib.name != app.name && lib.sources == [] && app.sources == []
    && lib.targetType == StaticLib && app.targetType == StaticLib && lib.deps == [] && app.deps == [lib.name]
  }

  /** Filtering the full order `[[lib], [app]]` to a request for `lib` gives `[[lib]]`, the order of the example. */
  lemma FilteredOrderOfLib(lib: ResolvedTarget, app: ResolvedTarget)
    requires FilteredPair(lib, app)
    ensures var plan := FilteredPlan(lib, app);
      Dag.FilterOrder(DepGraph(plan.targets), plan.keys, [[lib.name], [app.name]], [lib.name]) == Ok(plan.order)
  {
    var plan := FilteredPlan(lib, app);
    var g := DepGraph(plan.targets);
    assert g[lib.name] == [];
    assert Dag.FirstMissing(g, [lib.name]) == None by {
      assert [lib.name][1..] == [];
    }
    assert Dag.Closure(g, [lib.name]) == {lib.name} by {
      assert Elements([lib.name]) == {lib.name};
      assert [lib.name][..0] == [];
      assert Dag.PushDeps({lib.name}, [], []) == ({lib.name}, []);
      assert Dag.Explore(g, {lib.name}, [lib.name]) == Dag.Explore(g, {lib.name}, []);
    }
    var order: Dag.Levels := [[lib.name], [app.name]];
    assert FilterIn([lib.name], {lib.name}) == [lib.name];
    assert FilterIn([app.name], {lib.name}) == [];
    assert order[1..][1..] == [];
    assert Dag.FilterLevels(order[1..], {lib.name}) == [];
    assert Dag.FilterLevels(order, {lib.name}) == [[lib.name]];
  }

  /** The start: only `lib`'s link job, in flight, nothing built or counted. */
  predicate FilteredStart(lib: ResolvedTarget, s: Coordinator) {
    && s.jobs == [LinkJob(lib.name, [], map[], None)] && s.inFlight == 1 && s.added == [lib.name]
    && s.built == map[] && s.received == {} && s.successful == 0 && s.failed == 0 && s.results == []
  }

  /** After linking `lib`: it is built and `app`'s link job is in flight. */
  predicate FilteredLibLinked(lib: ResolvedTarget, app: ResolvedTarget, s: Coordinator) {
    && s.built == map[lib.name := ""] && s.successful == 1 && s.failed == 0 && s.received == {0}
    && s.jobs == [LinkJob(lib.name, [], map[], None), LinkJob(app.name, [], map[], None)] && s.inFlight == 1
    && s.results == [Compile.CompileResult(lib.name, true, "")]
  }

  /** After linking both: two successes and no failure. */
  predicate FilteredBothLinked(lib: ResolvedTarget, app: ResolvedTarget, s: Coordinator) {
    && s.built.Keys == {lib.name, app.name} && s.successful == 2 && s.failed == 0
    && s.results == [Compile.CompileResult(lib.name, true, ""), Compile.CompileResult(app.name, true, "")]
  }

  /** At the start only `lib` is queued: one link job with no objects. */
  lemma FilteredInit(lib: ResolvedTarget, app: ResolvedTarget)
    requires FilteredPair(lib, app)
    ensures FilteredStart(lib, Init(FilteredPlan(lib, app)))
  {
    var plan := FilteredPlan(lib, app);
    assert Level0(plan.order) == [lib.name];
    assert [lib.name][1..] == [];
    assert Init(plan) == EnqueueAll(plan, Enqueue(plan, Start, lib.name), []);
    assert LinkDepsForTarget(plan.targets, lib.name, plan.order) == None;
  }

  /** `app` is the one dependent of `lib`, and nothing depends on `app`. */
  lemma FilteredDependents(lib: ResolvedTarget, app: ResolvedTarget)
    requires FilteredPair(lib, app)
    ensures var plan := FilteredPlan(lib, app);
      && Dependents(plan.targets, plan.keys, lib.name) == [app.name]
      && Dependents(plan.targets, plan.keys, app.name) == []
  {
    var plan := FilteredPlan(lib, app);
    assert plan.targets[lib.name] == lib && plan.targets[app.name] == app;
    assert plan.keys[1..] == [app.name];
    assert [app.name][1..] == [];
    assert app.deps[1..] == [];
    assert Occurrences(lib.name, lib.deps, lib.name) == [];
    assert Occurrences(lib.name, lib.deps, app.name) == [];
    assert Occurrences(app.name, app.deps, lib.name) == [app.name];
    assert Occurrences(app.name, app.deps, app.name) == [];
    assert Dependents(plan.targets, [app.name], lib.name) == [app.name] + Dependents(plan.targets, [], lib.name);
    assert Dependents(plan.targets, [app.name], app.name) == [] + Dependents(plan.targets, [], app.name);
  }

  /** With `lib` built, the dependents loop queues `app`'s link job. */
  lemma FilteredQueueApp(lib: ResolvedTarget, app: ResolvedTarget, s: Coordinator)
    requires FilteredPair(lib, app)
    requires s.built == map[lib.name := ""] && s.added == [lib.name]
    ensures var r := QueueDependents(FilteredPlan(lib, app), s, [app.name]);
      && r.built == s.built && r.successful == s.successful && r.failed == s.failed
      && r.received == s.received && r.results == s.results
      && r.jobs == s.jobs + [LinkJob(app.name, [], map[], None)] && r.inFlight == s.inFlight + 1
  {
    var plan := FilteredPlan(lib, app);
    assert plan.targets[app.name] == app;
    assert Ready(plan.targets, s.built, app.name);
    assert LinkDepsForTarget(plan.targets, app.name, plan.order) == None;
    assert QueueDependents(plan, s, [app.name]) == QueueDependents(plan, Enqueue(plan, s, app.name), []);
  }

  /** Linking `lib` records it as built and queues `app`, although `app` is not in the order. */
  lemma FilteredLinkLib(lib: ResolvedTarget, app: ResolvedTarget, s: Coordinator)
    requires FilteredPair(lib, app) && FilteredStart(lib, s)
    ensures Valid(FilteredPlan(lib, app), s, LinkDone(0, map[], true, false))
    ensures FilteredLibLinked(lib, app, Handle(FilteredPlan(lib, app), s, LinkDone(0, map[], true, false)))
  {
    var plan := FilteredPlan(lib, app);
    var e := LinkDone(0, map[], true, false);
    assert plan.targets[lib.name] == lib;
    assert Valid(plan, s, e);
    var res := Compile.CompileResult(lib.name, true, "");
    assert LinkResult(plan, s, e) == res;
    var s2 := Recorded(s, 0, res);
    FilteredDependents(lib, app);
    assert Handle(plan, s, e) == QueueDependents(plan, s2, [app.name]);
    FilteredQueueApp(lib, app, s2);
  }

  /** Linking `app` next records it too, and nothing else is queued. */
  lemma FilteredLinkApp(lib: ResolvedTarget, app: ResolvedTarget, s: Coordinator)
    requires FilteredPair(lib, app) && FilteredLibLinked(lib, app, s)
    ensures Valid(FilteredPlan(lib, app), s, LinkDone(1, map[], true, false))
    ensures FilteredBothLinked(lib, app, Handle(FilteredPlan(lib, app), s, LinkDone(1, map[], true, false)))
  {
    var plan := FilteredPlan(lib, app);
    var e := LinkDone(1, map[], true, false);
    assert plan.targets[lib.name] == lib && plan.targets[app.name] == app;
    assert Valid(plan, s, e);
    assert LinkResult(plan, s, e) == Compile.CompileResult(app.name, true, "");
    FilteredDependents(lib, app);
  }

  /** The progress figures once both targets are built against an order listing only `lib`. */
  lemma FilteredFigures(plan: Plan, s: Coordinator, lib: ResolvedTarget, app: ResolvedTarget)
    requires lib.name != app.name && plan.order == [[lib.name]]
    requires FilteredBothLinked(lib, app, s)
    ensures TotalTargets(plan.order) == 1
    ensures ShownProgress(plan, s) == 200
    ensures CorrectedProgress(plan, s) == 100
  {
    assert plan.order[1..] == [];
    assert TotalTargets(plan.order) == 1 by {
      assert TotalLength(plan.order[1..]) == 0;
    }
    assert FinishedTargets(s) == {lib.name, app.name};
    assert Flatten(plan.order) == [lib.name];
    assert FinishedTargets(s) * Elements(Flatten(plan.order)) == {lib.name};
    assert Percent(2, 1) == 200;
    assert Percent(1, 1) == 100;
  }

  /** From `lib` linked, running `app`'s link result links `app` too. */
  lemma FilteredRunApp(lib: ResolvedTarget, app: ResolvedTarget, s: Coordinator)
    requires FilteredPair(lib, app) && FilteredLibLinked(lib, app, s)
    ensures FilteredBothLinked(lib, app, Run(FilteredPlan(lib, app), s, [LinkDone(1, map[], true, false)]))
  {
    var e1 := LinkDone(1, map[], true, false);
    FilteredLinkApp(lib, app, s);
    RunStep(FilteredPlan(lib, app), s, e1, []);
    assert [e1] + [] == [e1];
  }

  /** From the start, the first of the two link results links `lib` and the run goes on from there. */
  lemma FilteredStepLib(lib: ResolvedTarget, app: ResolvedTarget, s: Coordinator)
    requires FilteredPair(lib, app) && FilteredStart(lib, s)
    ensures var plan := FilteredPlan(lib, app);
      var s1 := Handle(plan, s, LinkDone(0, map[], true, false));
      && FilteredLibLinked(lib, app, s1)
      && Run(plan, s, [LinkDone(0, map[], true, false), LinkDone(1, map[], true, false)])
         == Run(plan, s1, [LinkDone(1, map[], true, false)])
  {
    var e0 := LinkDone(0, map[], true, false);
    var e1 := LinkDone(1, map[], true, false);
    FilteredLinkLib(lib, app, s);
    RunStep(FilteredPlan(lib, app), s, e0, [e1]);
    assert [e0] + [e1] == [e0, e1];
  }

  /** From the start, running the two link results links `lib` and then `app`. */
  lemma FilteredRunLib(lib: ResolvedTarget, app: ResolvedTarget, s: Coordinator)
    requires FilteredPair(lib, app) && FilteredStart(lib, s)
    ensures FilteredBothLinked(lib, app,
      Run(FilteredPlan(lib, app), s, [LinkDone(0, map[], true, false), LinkDone(1, map[], true, false)]))
  {
    FilteredStepLib(lib, app, s);
    FilteredRunApp(lib, app, Handle(FilteredPlan(lib, app), s, LinkDone(0, map[], true, false)));
  }

  /** Running the two link results from `Init` links `lib` and then `app`. */
  lemma FilteredRun(lib: ResolvedTarget, app: ResolvedTarget)
    requires FilteredPair(lib, app)
    ensures var plan := FilteredPlan(lib, app);
      FilteredBothLinked(lib, app, Run(plan, Init(plan), [LinkDone(0, map[], true, false), LinkDone(1, map[], true, false)]))
  {
    FilteredInit(lib, app);
    FilteredRunLib(lib, app, Init(FilteredPlan(lib, app)));
  }

  /**
   * As written, the dependents map covers every target, so with the order
   * filtered to `lib` a successful build still queues and links `app`: 2 of
   * 1 targets done, 200%, without any failure.
   */
  lemma FilteredProgressOvercounts(lib: ResolvedTarget, app: ResolvedTarget)
    requires FilteredPair(lib, app)
    ensures var plan := FilteredPlan(lib, app);
      var s := Run(plan, Init(plan), [LinkDone(0, map[], true, false), LinkDone(1, map[], true, false)]);
      && TotalTargets(plan.order) == 1
      && s.successful == 2 && s.failed == 0
      && ShownProgress(plan, s) == 200
      && CorrectedProgress(plan, s) == 100
  {
    var plan := FilteredPlan(lib, app);
    var s := Run(plan, Init(plan), [LinkDone(0, map[], true, false), LinkDone(1, map[], true, false)]);
    FilteredRun(lib, app);
    FilteredFigures(plan, s, lib, app);
  }

  /** A result that can arrive and does not cancel is handled, and the loop goes on with the rest. */
  lemma RunStep(plan: Plan, s: Coordinator, e: Event, rest: seq<Event>)
    requires Valid(plan, s, e) && !e.cancel
    ensures Run(plan, s, [e] + rest) == Run(plan, Handle(plan, s, e), rest)
    ensures rest == [] ==> Run(plan, s, [e] + rest) == Handle(plan, s, e)
  {
    assert ([e] + rest)[0] == e && ([e] + rest)[1..] == rest;
  }

  // ---------------------------------------------------------------------------
  // The level-by-level build
  // ---------------------------------------------------------------------------

  /** The names of a level that are targets of the project, in level order. */
  function Known(targets: Targets, level: seq<string>): seq<string> {
    FilterIn(level, targets.Keys)
  }

  /**
   * One level, every known target built against the same snapshot of the
   * built outputs taken at the start of the level (`build_chunk_parallel`
   * with the whole level as one chunk). `linkOk` are the targets whose link
   * or archive command succeeds.
   */
  function BuildLevel(plan: Plan, level: seq<string>, built: map<string, string>, fs: Compile.Stats,
                      compileFails: set<string>, linkOk: set<string>): (r: seq<Compile.CompileResult>)
    ensures |r| == |Known(plan.targets, level)|
    ensures forall k :: 0 <= k < |r| ==> r[k].targetName == plan.targets[Known(plan.targets, level)[k]].name
  {
    var known := Known(plan.targets, level);
    seq(|known|, k requires 0 <= k < |known| =>
      var n := known[k];
      Compile.BuildTarget(plan.targets[n], fs, built, LinkDepsForTarget(plan.targets, n, plan.order),
                          plan.windows, compileFails, n in linkOk))
  }

  /** The built outputs after recording a level's results: every success inserted, in order. */
  function RecordBuilt(built: map<string, string>, rs: seq<Compile.CompileResult>): (r: map<string, string>)
    ensures built.Keys <= r.Keys
    ensures forall n :: n in r ==>
      || (n in built && r[n] == built[n])
      || exists k :: 0 <= k < |rs| && rs[k].success && rs[k].targetName == n && r[n] == rs[k].outputPath
    decreases |rs|
  {
    if |rs| == 0 then built
    else
      var b := if rs[0].success then built[rs[0].targetName := rs[0].outputPath] else built;
      var r := RecordBuilt(b, rs[1..]);
      assert forall n :: n in r ==>
        || (n in built && r[n] == built[n])
        || exists k :: 0 <= k < |rs| && rs[k].success && rs[k].targetName == n && r[n] == rs[k].outputPath
      by {
        forall n | n in r && !(n in built && r[n] == built[n])
          ensures exists k :: 0 <= k < |rs| && rs[k].success && rs[k].targetName == n && r[n] == rs[k].outputPath
        {
          if n in b && r[n] == b[n] {
            assert rs[0].success && rs[0].targetName == n;
          } else {
            var k :| 0 <= k < |rs[1..]| && rs[1..][k].success && rs[1..][k].targetName == n && r[n] == rs[1..][k].outputPath;
            assert rs[k + 1] == rs[1..][k];
          }
        }
      }
      r
  }

  /** Recording keeps what was built and adds exactly the names of the successful results. */
  lemma {:induction false} RecordBuiltKeys(built: map<string, string>, rs: seq<Compile.CompileResult>, n: string)
    ensures n in RecordBuilt(built, rs) <==> n in built || exists k :: 0 <= k < |rs| && rs[k].success && rs[k].targetName == n
    decreases |rs|
  {
    if |rs| > 0 {
      var b := if rs[0].success then built[rs[0].targetName := rs[0].outputPath] else built;
      RecordBuiltKeys(b, rs[1..], n);
      if exists k :: 1 <= k < |rs| && rs[k].success && rs[k].targetName == n {
        var k :| 1 <= k < |rs| && rs[k].success && rs[k].targetName == n;
        assert rs[1..][k - 1] == rs[k];
      }
      if exists k :: 0 <= k < |rs[1..]| && rs[1..][k].success && rs[1..][k].targetName == n {
        var k :| 0 <= k < |rs[1..]| && rs[1..][k].success && rs[1..][k].targetName == n;
        assert rs[k + 1] == rs[1..][k];
      }
    }
  }

  /** The number of known targets over some levels. */
  function KnownCount(targets: Targets, levels: seq<seq<string>>): nat
    decreases |levels|
  {
    if |levels| == 0 then 0 else |Known(targets, levels[0])| + KnownCount(targets, levels[1..])
  }

  datatype LevelRun = LevelRun(results: seq<Compile.CompileResult>, levelsRun: nat, stopped: bool)

  /**
   * The loop of `build_level_by_level` from some level on: build the level,
   * stop after it when any of its results failed, otherwise record its
   * outputs and go on. Level `k` sees the file system as `fss[k]`, so the
   * outputs written by one level can make the next one relink.
   */
  function RunLevels(plan: Plan, levels: seq<seq<string>>, built: map<string, string>, fss: seq<Compile.Stats>,
                     compileFails: set<string>, linkOk: set<string>): (r: LevelRun)
    requires |fss| == |levels|
    ensures r.levelsRun <= |levels|
    ensures r.stopped ==> r.levelsRun > 0
    decreases |levels|
  {
    if |levels| == 0 then LevelRun([], 0, false)
    else
      var rs := BuildLevel(plan, levels[0], built, fss[0], compileFails, linkOk);
      if FailedCount(rs) > 0 then LevelRun(rs, 1, true)
      else
        var rest := RunLevels(plan, levels[1..], RecordBuilt(built, rs), fss[1..], compileFails, linkOk);
        LevelRun(rs + rest.results, rest.levelsRun + 1, rest.stopped)
  }

  /**
   * What a run over `levels` looks like: it stops exactly when some result
   * failed; it runs every level unless it stops; its results are one per
   * known target of the levels it ran, and every failure is among those of
   * the last level it ran.
   */
  ghost predicate Shaped(targets: Targets, levels: seq<seq<string>>, r: LevelRun) {
    && r.levelsRun <= |levels|
    && |r.results| == KnownCount(targets, levels[..r.levelsRun])
    && (r.stopped <==> FailedCount(r.results) > 0)
    && (!r.stopped ==> r.levelsRun == |levels|)
    && (r.stopped ==> r.levelsRun > 0)
    && (r.stopped ==>
          forall k :: 0 <= k < |r.results| - |Known(targets, levels[r.levelsRun - 1])| ==> r.results[k].success)
  }

  /** A level without failures in front of a run keeps the run's shape. */
  lemma ConsShaped(targets: Targets, level: seq<string>, more: seq<seq<string>>, rs: seq<Compile.CompileResult>, rest: LevelRun)
    requires |rs| == |Known(targets, level)| && FailedCount(rs) == 0
    requires Shaped(targets, more, rest)
    ensures Shaped(targets, [level] + more, LevelRun(rs + rest.results, rest.levelsRun + 1, rest.stopped))
  {
    var levels := [level] + more;
    var r := LevelRun(rs + rest.results, rest.levelsRun + 1, rest.stopped);
    FailedCountConcat(rs, rest.results);
    assert levels[..r.levelsRun][0] == level;
    assert levels[..r.levelsRun][1..] == more[..rest.levelsRun];
    if r.stopped {
      FailedCountZero(rs);
      assert levels[r.levelsRun - 1] == more[rest.levelsRun - 1];
      forall k | 0 <= k < |r.results| - |Known(targets, levels[r.levelsRun - 1])| ensures r.results[k].success {
        if k >= |rs| { assert r.results[k] == rest.results[k - |rs|]; }
      }
    } else {
      assert levels[..|levels|] == levels;
    }
  }

  /** A first level with a failure is a stopped run of one level. */
  lemma StopShaped(targets: Targets, level: seq<string>, more: seq<seq<string>>, rs: seq<Compile.CompileResult>)
    requires |rs| == |Known(targets, level)| && FailedCount(rs) > 0
    ensures Shaped(targets, [level] + more, LevelRun(rs, 1, true))
  {
    var levels := [level] + more;
    assert levels[..1][0] == level;
    assert levels[..1][1..] == [];
  }

  lemma {:induction false} RunLevelsShape(plan: Plan, levels: seq<seq<string>>, built: map<string, string>,
                                          fss: seq<Compile.Stats>, compileFails: set<string>, linkOk: set<string>)
    requires |fss| == |levels|
    ensures Shaped(plan.targets, levels, RunLevels(plan, levels, built, fss, compileFails, linkOk))
    decreases |levels|
  {
    if |levels| == 0 {
      assert levels[..0] == [];
    } else {
      assert levels == [levels[0]] + levels[1..];
      var rs := BuildLevel(plan, levels[0], built, fss[0], compileFails, linkOk);
      if FailedCount(rs) == 0 {
        var b := RecordBuilt(built, rs);
        RunLevelsShape(plan, levels[1..], b, fss[1..], compileFails, linkOk);
        ConsShaped(plan.targets, levels[0], levels[1..], rs, RunLevels(plan, levels[1..], b, fss[1..], compileFails, linkOk));
      } else {
        StopShaped(plan.targets, levels[0], levels[1..], rs);
      }
    }
  }

  /**
   * `build_level_by_level`, with `fss[k]` the file system as level `k` finds
   * it: the counters are the numbers of successful and failed results.
   */
  function BuildLevelByLevel(plan: Plan, fss: seq<Compile.Stats>, compileFails: set<string>, linkOk: set<string>): (r: BuildResult)
    requires |fss| == |plan.order|
    ensures r.totalTargets == TotalTargets(plan.order)
    ensures r.successfulTargets + r.failedTargets == |r.results|
  {
    var run := RunLevels(plan, plan.order, map[], fss, compileFails, linkOk);
    var failed := FailedCount(run.results);
    BuildResult(!run.stopped, run.results, TotalTargets(plan.order), |run.results| - failed, failed)
  }

  /**
   * The level-by-level build succeeds exactly when every result succeeded;
   * it then ran every level, and otherwise stopped at the first level with a
   * failure, every earlier result being a success.
   */
  lemma LevelByLevelOutcome(plan: Plan, fss: seq<Compile.Stats>, compileFails: set<string>, linkOk: set<string>)
    requires |fss| == |plan.order|
    ensures var r := BuildLevelByLevel(plan, fss, compileFails, linkOk);
      var run := RunLevels(plan, plan.order, map[], fss, compileFails, linkOk);
      && r.results == run.results
      && (r.success <==> forall k :: 0 <= k < |r.results| ==> r.results[k].success)
      && (r.success ==> run.levelsRun == |plan.order| && |r.results| == KnownCount(plan.targets, plan.order))
      && (!r.success ==> forall k :: 0 <= k < |r.results| - |Known(plan.targets, plan.order[run.levelsRun - 1])| ==> r.results[k].success)
  {
    var run := RunLevels(plan, plan.order, map[], fss, compileFails, linkOk);
    RunLevelsShape(plan, plan.order, map[], fss, compileFails, linkOk);
    ShapedOutcome(plan.targets, plan.order, run);
  }

  lemma ShapedOutcome(targets: Targets, levels: seq<seq<string>>, run: LevelRun)
    requires Shaped(targets, levels, run)
    ensures !run.stopped <==> forall k :: 0 <= k < |run.results| ==> run.results[k].success
    ensures !run.stopped ==> |run.results| == KnownCount(targets, levels)
  {
    FailedCountZero(run.results);
    if !run.stopped { assert levels[..|levels|] == levels; }
  }

  /** Every known target of a level succeeds when no compilation fails and every link succeeds. */
  lemma BuildLevelSucceeds(plan: Plan, level: seq<string>, built: map<string, string>, fs: Compile.Stats, linkOk: set<string>)
    requires forall n :: n in plan.targets ==> n in linkOk
    ensures FailedCount(BuildLevel(plan, level, built, fs, {}, linkOk)) == 0
  {
    var rs := BuildLevel(plan, level, built, fs, {}, linkOk);
    forall k | 0 <= k < |rs| ensures rs[k].success {
      assert Known(plan.targets, level)[k] in plan.targets;
    }
    FailedCountZero(rs);
  }

  /** With no failing compilation or link, every level runs and nothing fails. */
  lemma {:induction false} RunLevelsAllSucceed(plan: Plan, levels: seq<seq<string>>, built: map<string, string>,
                                               fss: seq<Compile.Stats>, linkOk: set<string>)
    requires |fss| == |levels|
    requires forall n :: n in plan.targets ==> n in linkOk
    ensures !RunLevels(plan, levels, built, fss, {}, linkOk).stopped
    decreases |levels|
  {
    if |levels| > 0 {
      var rs := BuildLevel(plan, levels[0], built, fss[0], {}, linkOk);
      BuildLevelSucceeds(plan, levels[0], built, fss[0], linkOk);
      RunLevelsShape(plan, levels[1..], RecordBuilt(built, rs), fss[1..], {}, linkOk);
      RunLevelsAllSucceed(plan, levels[1..], RecordBuilt(built, rs), fss[1..], linkOk);
    }
  }
}
