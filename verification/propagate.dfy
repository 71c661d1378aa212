/**
 * `propagate_dependency_properties` of `src/config.rs`: every target takes
 * over the include directories, libraries, flags, compiler flags and linker
 * flags of its dependencies, appending each entry it does not have yet, and
 * the sweep over all targets repeats until one sweep changes nothing. A
 * dependency that is not a target of the project contributes a fallback
 * include directory when its name starts with `bsoncxx` or `mongocxx`.
 *
 * The map's iteration order is the parameter `keys`; it does not change
 * between sweeps because no target is inserted or removed.
 */
module Propagation {
  import opened Wrappers
  import opened Seqs
  import Strings
  import Paths
  import opened Config

  /** The five list fields that propagate from a dependency to its dependents. */
  datatype Field = IncludeDirs | Libs | Flags | CompilerFlags | LinkerFlags

  function Get(t: ResolvedTarget, f: Field): seq<string> {
    match f
    case IncludeDirs => t.includeDirs
    case Libs => t.libs
    case Flags => t.flags
    case CompilerFlags => t.compilerFlags
    case LinkerFlags => t.linkerFlags
  }

  lemma GetIgnoresStandard(t: ResolvedTarget, s: Option<u32>, f: Field)
    ensures Get(t.(cxxStandard := s), f) == Get(t, f)
  {
  }

  /** The two fallback include directories, relative to the root file's directory. */
  const BsonInclude: string := "src/bsoncxx/include"
  const MongoInclude: string := "src/mongocxx/include"

  /** The include directories a dependency that is not a target of the project contributes. */
  function ExternalIncludes(dep: string, base: string): (r: seq<string>)
    ensures Strings.StartsWith(dep, "bsoncxx") ==> r == [Paths.Join(base, BsonInclude)]
    ensures Strings.StartsWith(dep, "mongocxx") ==> r == [Paths.Join(base, MongoInclude)]
    ensures !Strings.StartsWith(dep, "bsoncxx") && !Strings.StartsWith(dep, "mongocxx") ==> r == []
  {
    PrefixesExclusive(dep);
    (if Strings.StartsWith(dep, "bsoncxx") then [Paths.Join(base, BsonInclude)] else [])
    + (if Strings.StartsWith(dep, "mongocxx") then [Paths.Join(base, MongoInclude)] else [])
  }

  /** No name starts with both prefixes. */
  lemma PrefixesExclusive(dep: string)
    ensures !(Strings.StartsWith(dep, "bsoncxx") && Strings.StartsWith(dep, "mongocxx"))
  {
    if Strings.StartsWith(dep, "bsoncxx") {
      FirstChar(dep, "bsoncxx");
    }
    if Strings.StartsWith(dep, "mongocxx") {
      FirstChar(dep, "mongocxx");
    }
  }

  lemma FirstChar(s: string, p: string)
    requires Strings.StartsWith(s, p) && |p| > 0
    ensures s[0] == p[0]
  {
    assert s[0] == s[..|p|][0];
  }

  /** What one dependency contributes to one field of its dependent. */
  function Contribution(m: map<string, ResolvedTarget>, dep: string, base: string, f: Field): seq<string> {
    if dep in m then Get(m[dep], f)
    else if f == IncludeDirs then ExternalIncludes(dep, base)
    else []
  }

  /** The new value of one field: every dependency's contribution, in order, appended where missing. */
  function Gather(m: map<string, ResolvedTarget>, deps: seq<string>, base: string, f: Field, acc: seq<string>): (r: seq<string>)
    ensures AppendsOnlyNew(acc, r)
    decreases |deps|
  {
    if |deps| == 0 then
      AppendsOnlyNewReflexive(acc);
      acc
    else
      var next := AppendMissing(acc, Contribution(m, deps[0], base, f));
      var r := Gather(m, deps[1..], base, f, next);
      AppendsOnlyNewTransitive(acc, next, r);
      r
  }

  /** Some dependency in `deps` contributes `x` to field `f`. */
  predicate Contributes(m: map<string, ResolvedTarget>, deps: seq<string>, base: string, f: Field, x: string) {
    exists d :: d in deps && x in Contribution(m, d, base, f)
  }

  lemma ContributesCons(m: map<string, ResolvedTarget>, deps: seq<string>, base: string, f: Field, x: string)
    requires |deps| > 0
    ensures Contributes(m, deps, base, f, x) <==> x in Contribution(m, deps[0], base, f) || Contributes(m, deps[1..], base, f, x)
  {
    if Contributes(m, deps, base, f, x) {
      var d :| d in deps && x in Contribution(m, d, base, f);
      if d != deps[0] {
        var i :| 0 <= i < |deps| && deps[i] == d;
        assert deps[1..][i - 1] == d;
      }
    }
    if Contributes(m, deps[1..], base, f, x) {
      var d :| d in deps[1..] && x in Contribution(m, d, base, f);
      assert d in deps;
    }
  }

  /** An entry ends up in the field exactly when it was there or some dependency contributes it. */
  lemma {:induction false} GatherMembers(m: map<string, ResolvedTarget>, deps: seq<string>, base: string, f: Field, acc: seq<string>, x: string)
    ensures x in Gather(m, deps, base, f, acc) <==> x in acc || Contributes(m, deps, base, f, x)
    decreases |deps|
  {
    if |deps| > 0 {
      var next := AppendMissing(acc, Contribution(m, deps[0], base, f));
      GatherMembers(m, deps[1..], base, f, next, x);
      ContributesCons(m, deps, base, f, x);
    }
  }

  /** A field is left as it is exactly when it already holds every contribution. */
  lemma {:induction false} GatherUnchanged(m: map<string, ResolvedTarget>, deps: seq<string>, base: string, f: Field, acc: seq<string>)
    ensures Gather(m, deps, base, f, acc) == acc <==> Covers(acc, m, deps, base, f)
    decreases |deps|
  {
    if |deps| > 0 {
      var c := Contribution(m, deps[0], base, f);
      var next := AppendMissing(acc, c);
      GatherUnchanged(m, deps[1..], base, f, next);
      var r := Gather(m, deps[1..], base, f, next);
      forall y ensures Contributes(m, deps, base, f, y) <==> y in c || Contributes(m, deps[1..], base, f, y) {
        ContributesCons(m, deps, base, f, y);
      }
      if r == acc {
        assert |next| == |acc|;
        assert next == next[..|acc|] == acc;
      }
      if Covers(acc, m, deps, base, f) {
        assert next == acc;
      }
    }
  }

  /** `acc` holds every entry that some dependency in `deps` contributes to field `f`. */
  ghost predicate Covers(acc: seq<string>, m: map<string, ResolvedTarget>, deps: seq<string>, base: string, f: Field) {
    forall y :: Contributes(m, deps, base, f, y) ==> y in acc
  }

  /** One target after taking over its dependencies' entries, read from the current map. */
  function Propagated(m: map<string, ResolvedTarget>, t: ResolvedTarget, base: string): (r: ResolvedTarget)
    ensures Grows(t, r)
  {
    var r := t.(
      includeDirs := Gather(m, t.deps, base, IncludeDirs, t.includeDirs),
      libs := Gather(m, t.deps, base, Libs, t.libs),
      flags := Gather(m, t.deps, base, Flags, t.flags),
      compilerFlags := Gather(m, t.deps, base, CompilerFlags, t.compilerFlags),
      linkerFlags := Gather(m, t.deps, base, LinkerFlags, t.linkerFlags));
    r
  }

  /** Each propagated field of the new target is that field gathered over the dependencies. */
  lemma PropagatedGet(m: map<string, ResolvedTarget>, t: ResolvedTarget, base: string, f: Field)
    ensures Get(Propagated(m, t, base), f) == Gather(m, t.deps, base, f, Get(t, f))
  {
    match f
    case IncludeDirs =>
    case Libs =>
    case Flags =>
    case CompilerFlags =>
    case LinkerFlags =>
  }

  /** The propagated fields only gain entries that were missing; every other field stays. */
  predicate Grows(t: ResolvedTarget, u: ResolvedTarget) {
    && Blank(t) == Blank(u)
    && forall f :: AppendsOnlyNew(Get(t, f), Get(u, f))
  }

  /** A target with its five propagated fields emptied. */
  function Blank(t: ResolvedTarget): ResolvedTarget {
    t.(includeDirs := [], libs := [], flags := [], compilerFlags := [], linkerFlags := [])
  }

  lemma GrowsTransitive(a: ResolvedTarget, b: ResolvedTarget, c: ResolvedTarget)
    requires Grows(a, b) && Grows(b, c)
    ensures Grows(a, c)
  {
    forall f ensures AppendsOnlyNew(Get(a, f), Get(c, f)) {
      AppendsOnlyNewTransitive(Get(a, f), Get(b, f), Get(c, f));
    }
  }

  /** Two targets that agree outside and inside the propagated fields are equal. */
  lemma SameFields(t: ResolvedTarget, u: ResolvedTarget)
    requires Blank(t) == Blank(u)
    requires forall f :: Get(t, f) == Get(u, f)
    ensures t == u
  {
    assert Get(t, IncludeDirs) == Get(u, IncludeDirs) && Get(t, Libs) == Get(u, Libs);
    assert Get(t, Flags) == Get(u, Flags) && Get(t, CompilerFlags) == Get(u, CompilerFlags);
    assert Get(t, LinkerFlags) == Get(u, LinkerFlags);
  }

  /** Target `name` has nothing left to take over from its dependencies. */
  predicate Stable(m: map<string, ResolvedTarget>, name: string, base: string)
    requires name in m
  {
    Propagated(m, m[name], base) == m[name]
  }

  /**
   * A stable target holds every entry of each of its dependencies in the same
   * field, and the fallback include directory of each dependency that is not
   * a target.
   */
  lemma StableMeans(m: map<string, ResolvedTarget>, name: string, base: string)
    requires name in m
    ensures Stable(m, name, base) <==> forall f :: Covers(Get(m[name], f), m, m[name].deps, base, f)
  {
    var t := m[name];
    forall f ensures Gather(m, t.deps, base, f, Get(t, f)) == Get(t, f) <==> Covers(Get(t, f), m, t.deps, base, f) {
      GatherUnchanged(m, t.deps, base, f, Get(t, f));
    }
    var r := Propagated(m, t, base);
    forall f ensures Get(r, f) == Gather(m, t.deps, base, f, Get(t, f)) {
      PropagatedGet(m, t, base, f);
    }
    if forall f :: Covers(Get(t, f), m, t.deps, base, f) {
      SameFields(r, t);
    }
  }

  /** Every target of `m` only grew into the corresponding target of `m2`. */
  ghost predicate MapGrows(m: map<string, ResolvedTarget>, m2: map<string, ResolvedTarget>) {
    m.Keys == m2.Keys && forall k :: k in m ==> Grows(m[k], m2[k])
  }

  lemma MapGrowsTransitive(a: map<string, ResolvedTarget>, b: map<string, ResolvedTarget>, c: map<string, ResolvedTarget>)
    requires MapGrows(a, b) && MapGrows(b, c)
    ensures MapGrows(a, c)
  {
    forall k | k in a ensures Grows(a[k], c[k]) {
      GrowsTransitive(a[k], b[k], c[k]);
    }
  }

  /** Update one target; the flag says whether anything was appended. */
  function Step(m: map<string, ResolvedTarget>, name: string, base: string): (r: (map<string, ResolvedTarget>, bool))
    requires name in m
    ensures MapGrows(m, r.0)
    ensures r.1 <==> r.0 != m
    ensures r.1 ==> r.0[name] != m[name]
    ensures !r.1 <==> Stable(m, name, base)
  {
    var t := m[name];
    var u := Propagated(m, t, base);
    AppendsOnlyNewReflexiveAll(m);
    if u == t then (m, false)
    else
      assert m[name := u][name] != m[name];
      (m[name := u], true)
  }

  lemma AppendsOnlyNewReflexiveAll(m: map<string, ResolvedTarget>)
    ensures MapGrows(m, m)
  {
    forall k, f | k in m ensures AppendsOnlyNew(Get(m[k], f), Get(m[k], f)) {
      AppendsOnlyNewReflexive(Get(m[k], f));
    }
  }

  /** Once a target differs from where it started, growing it further never brings it back. */
  lemma GrowsStrict(a: ResolvedTarget, b: ResolvedTarget, c: ResolvedTarget)
    requires Grows(a, b) && Grows(b, c) && a != b
    ensures a != c
  {
    if a == c {
      forall f ensures Get(a, f) == Get(b, f) {
        assert |Get(a, f)| <= |Get(b, f)| <= |Get(c, f)|;
        assert Get(b, f) == Get(b, f)[..|Get(a, f)|] == Get(a, f);
      }
      SameFields(a, b);
    }
  }

  /** One sweep: `Step` of each key in order, each reading the map the previous ones left. */
  function Sweep(m: map<string, ResolvedTarget>, keys: seq<string>, base: string): (r: (map<string, ResolvedTarget>, bool))
    requires forall k :: k in keys ==> k in m
    ensures MapGrows(m, r.0)
    ensures r.1 <==> r.0 != m
    ensures !r.1 ==> forall k :: k in keys ==> Stable(m, k, base)
    decreases |keys|
  {
    if |keys| == 0 then
      AppendsOnlyNewReflexiveAll(m);
      (m, false)
    else
      var s := Step(m, keys[0], base);
      var rest := Sweep(s.0, keys[1..], base);
      MapGrowsTransitive(m, s.0, rest.0);
      assert forall k :: k in keys <==> k == keys[0] || k in keys[1..] by {
        assert keys == [keys[0]] + keys[1..];
      }
      if s.1 then
        var k := keys[0];
        GrowsStrict(m[k], s.0[k], rest.0[k]);
        (rest.0, true)
      else
        (rest.0, rest.1)
  }

  // ---------------------------------------------------------------------------
  // Termination: every sweep that changes something adds an entry from a
  // fixed finite universe to some field of some target.
  // ---------------------------------------------------------------------------

  function AllEntries(t: ResolvedTarget): seq<string> {
    t.includeDirs + t.libs + t.flags + t.compilerFlags + t.linkerFlags
  }

  lemma GetInAllEntries(t: ResolvedTarget, f: Field, x: string)
    requires x in Get(t, f)
    ensures x in AllEntries(t)
  {
  }

  /** Every entry the propagation can ever put into a field. */
  ghost function Universe(m: map<string, ResolvedTarget>, base: string): set<string> {
    (set k, x | k in m && x in AllEntries(m[k]) :: x)
    + {Paths.Join(base, BsonInclude), Paths.Join(base, MongoInclude)}
  }

  ghost predicate Bounded(m: map<string, ResolvedTarget>, u: set<string>) {
    forall k, f, x :: k in m && x in Get(m[k], f) ==> x in u
  }

  lemma UniverseBounds(m: map<string, ResolvedTarget>, base: string)
    ensures Bounded(m, Universe(m, base))
  {
    forall k, f, x | k in m && x in Get(m[k], f) ensures x in Universe(m, base) {
      GetInAllEntries(m[k], f, x);
    }
  }

  /** A step takes entries only from fields of targets and the fallback directories. */
  lemma StepBounded(m: map<string, ResolvedTarget>, name: string, base: string, u: set<string>)
    requires name in m && Bounded(m, u)
    requires Paths.Join(base, BsonInclude) in u && Paths.Join(base, MongoInclude) in u
    ensures Bounded(Step(m, name, base).0, u)
  {
    var t := m[name];
    var r := Propagated(m, t, base);
    forall f, x | x in Get(r, f) ensures x in u {
      PropagatedEntry(m, name, base, u, f, x);
    }
    var s := Step(m, name, base).0;
    assert s == m || s == m[name := r];
  }

  lemma PropagatedEntry(m: map<string, ResolvedTarget>, name: string, base: string, u: set<string>, f: Field, x: string)
    requires name in m && Bounded(m, u)
    requires Paths.Join(base, BsonInclude) in u && Paths.Join(base, MongoInclude) in u
    requires x in Get(Propagated(m, m[name], base), f)
    ensures x in u
  {
    var t := m[name];
    PropagatedGet(m, t, base, f);
    GatherMembers(m, t.deps, base, f, Get(t, f), x);
    if x !in Get(t, f) {
      var d :| d in t.deps && x in Contribution(m, d, base, f);
      ContributionBounded(m, d, base, u, f, x);
    }
  }

  /** What a dependency contributes is a field of a target or a fallback directory. */
  lemma ContributionBounded(m: map<string, ResolvedTarget>, d: string, base: string, u: set<string>, f: Field, x: string)
    requires Bounded(m, u)
    requires Paths.Join(base, BsonInclude) in u && Paths.Join(base, MongoInclude) in u
    requires x in Contribution(m, d, base, f)
    ensures x in u
  {
    if d !in m {
      PrefixesExclusive(d);
    }
  }

  lemma SweepBounded(m: map<string, ResolvedTarget>, keys: seq<string>, base: string, u: set<string>)
    requires forall k :: k in keys ==> k in m
    requires Bounded(m, u)
    requires Paths.Join(base, BsonInclude) in u && Paths.Join(base, MongoInclude) in u
    ensures Bounded(Sweep(m, keys, base).0, u)
    decreases |keys|
  {
    if |keys| > 0 {
      StepBounded(m, keys[0], base, u);
      SweepBounded(Step(m, keys[0], base).0, keys[1..], base, u);
    }
  }

  /** How many entries of the universe target `t` still lacks, over its five fields. */
  ghost function Gap(t: ResolvedTarget, u: set<string>): nat {
    |u - Elements(t.includeDirs)| + |u - Elements(t.libs)| + |u - Elements(t.flags)|
    + |u - Elements(t.compilerFlags)| + |u - Elements(t.linkerFlags)|
  }

  ghost function TotalGap(m: map<string, ResolvedTarget>, keys: seq<string>, u: set<string>): nat
    decreases |keys|
  {
    if |keys| == 0 then 0
    else (if keys[0] in m then Gap(m[keys[0]], u) else 0) + TotalGap(m, keys[1..], u)
  }

  /** Growing one field never widens its gap; a field that gained an entry of the universe narrowed it. */
  lemma FieldGap(a: seq<string>, b: seq<string>, u: set<string>)
    requires AppendsOnlyNew(a, b)
    requires forall x :: x in b ==> x in u
    ensures |u - Elements(b)| <= |u - Elements(a)|
    ensures a != b ==> |u - Elements(b)| < |u - Elements(a)|
  {
    assert Elements(a) <= Elements(b) by {
      forall x | x in a ensures x in b {
        var i :| 0 <= i < |a| && a[i] == x;
        assert b[i] == x;
      }
    }
    SubsetCard(u - Elements(b), u - Elements(a));
    if a != b {
      assert |a| < |b|;
      var x := b[|a|];
      assert x !in a by { assert b[..|a|] == a; }
      assert x in u - Elements(a);
    }
  }

  lemma GapDecreases(t: ResolvedTarget, v: ResolvedTarget, u: set<string>)
    requires Grows(t, v)
    requires forall f, x :: x in Get(v, f) ==> x in u
    ensures Gap(v, u) <= Gap(t, u)
    ensures t != v ==> Gap(v, u) < Gap(t, u)
  {
    FieldGapAt(t, v, u, IncludeDirs);
    FieldGapAt(t, v, u, Libs);
    FieldGapAt(t, v, u, Flags);
    FieldGapAt(t, v, u, CompilerFlags);
    FieldGapAt(t, v, u, LinkerFlags);
    FieldsDiffer(t, v);
  }

  lemma FieldGapAt(t: ResolvedTarget, v: ResolvedTarget, u: set<string>, f: Field)
    requires Grows(t, v)
    requires forall f, x :: x in Get(v, f) ==> x in u
    ensures |u - Elements(Get(v, f))| <= |u - Elements(Get(t, f))|
    ensures Get(t, f) != Get(v, f) ==> |u - Elements(Get(v, f))| < |u - Elements(Get(t, f))|
  {
    FieldGap(Get(t, f), Get(v, f), u);
  }

  /** Targets that agree outside the propagated fields but differ, differ in one of them. */
  lemma FieldsDiffer(t: ResolvedTarget, v: ResolvedTarget)
    requires Blank(t) == Blank(v)
    ensures t != v ==>
      (t.includeDirs != v.includeDirs || t.libs != v.libs || t.flags != v.flags
       || t.compilerFlags != v.compilerFlags || t.linkerFlags != v.linkerFlags)
  {
  }

  lemma {:induction false} TotalGapDecreases(m: map<string, ResolvedTarget>, m2: map<string, ResolvedTarget>, keys: seq<string>, u: set<string>)
    requires MapGrows(m, m2) && Bounded(m2, u)
    ensures TotalGap(m2, keys, u) <= TotalGap(m, keys, u)
    ensures (exists k :: k in keys && k in m && m[k] != m2[k]) ==> TotalGap(m2, keys, u) < TotalGap(m, keys, u)
    decreases |keys|
  {
    if |keys| > 0 {
      TotalGapDecreases(m, m2, keys[1..], u);
      var k0 := keys[0];
      if k0 in m {
        GapDecreases(m[k0], m2[k0], u);
      }
      assert forall k :: k in keys <==> k == k0 || k in keys[1..] by {
        assert keys == [k0] + keys[1..];
      }
    }
  }

  /** Sweeps until one changes nothing; `u` bounds every entry and measures the remaining work. */
  function Fixpoint(m: map<string, ResolvedTarget>, keys: seq<string>, base: string, ghost u: set<string>): (r: map<string, ResolvedTarget>)
    requires forall k :: k in keys <==> k in m
    requires Bounded(m, u)
    requires Paths.Join(base, BsonInclude) in u && Paths.Join(base, MongoInclude) in u
    ensures MapGrows(m, r) && Bounded(r, u)
    ensures forall k :: k in r ==> Stable(r, k, base)
    decreases TotalGap(m, keys, u)
  {
    var s := Sweep(m, keys, base);
    SweepBounded(m, keys, base, u);
    if s.1 then
      assert exists k :: k in keys && k in m && m[k] != s.0[k];
      TotalGapDecreases(m, s.0, keys, u);
      var r := Fixpoint(s.0, keys, base, u);
      MapGrowsTransitive(m, s.0, r);
      r
    else
      m
  }

  /**
   * `propagate_dependency_properties`: the same targets, each only gaining
   * entries it lacked, and at the end every target holds every entry of each
   * of its dependencies in the same field (and the fallback include directory
   * of each dependency that is not a target); entries come only from the
   * project's targets and the two fallback directories.
   */
  function PropagateDependencyProperties(m: map<string, ResolvedTarget>, keys: seq<string>, base: string): (r: map<string, ResolvedTarget>)
    requires IsEnumeration(keys, m)
    ensures r.Keys == m.Keys
    ensures forall k :: k in m ==> Grows(m[k], r[k])
    ensures forall k, f :: k in r ==> Covers(Get(r[k], f), r, r[k].deps, base, f)
    ensures Bounded(r, Universe(m, base))
  {
    UniverseBounds(m, base);
    var r := Fixpoint(m, keys, base, Universe(m, base));
    forall k | k in r ensures forall f :: Covers(Get(r[k], f), r, r[k].deps, base, f) {
      StableMeans(r, k, base);
    }
    r
  }

  /** A dependency path `p[0] -> p[1] -> ...` through targets of `m`. */
  ghost predicate DepPath(m: map<string, ResolvedTarget>, p: seq<string>) {
    && (forall i :: 0 <= i < |p| ==> p[i] in m)
    && (forall i :: 0 < i < |p| ==> p[i] in m[p[i - 1]].deps)
  }

  /** Every target holds every contribution of its dependencies: what propagation ends in. */
  ghost predicate Saturated(r: map<string, ResolvedTarget>, base: string) {
    forall k, f :: k in r ==> Covers(Get(r[k], f), r, r[k].deps, base, f)
  }

  /** In a saturated map, entries travel along whole dependency chains. */
  lemma {:induction false} SaturatedAlongPath(r: map<string, ResolvedTarget>, base: string, p: seq<string>, f: Field, x: string)
    requires Saturated(r, base)
    requires |p| > 0 && DepPath(r, p)
    requires x in Get(r[p[|p| - 1]], f)
    ensures x in Get(r[p[0]], f)
    decreases |p|
  {
    if |p| > 1 {
      var q := p[1..];
      assert DepPath(r, q);
      SaturatedAlongPath(r, base, q, f, x);
      assert p[1] in r[p[0]].deps && x in Contribution(r, p[1], base, f);
      assert Contributes(r, r[p[0]].deps, base, f, x);
      assert Covers(Get(r[p[0]], f), r, r[p[0]].deps, base, f);
    }
  }

  /**
   * After propagation a target holds every entry of every target it depends on
   * transitively: properties travel along whole dependency chains.
   */
  lemma TransitivelyPropagated(m: map<string, ResolvedTarget>, keys: seq<string>, base: string, p: seq<string>, f: Field, x: string)
    requires IsEnumeration(keys, m)
    requires |p| > 0
    requires DepPath(PropagateDependencyProperties(m, keys, base), p)
    requires x in Get(PropagateDependencyProperties(m, keys, base)[p[|p| - 1]], f)
    ensures x in Get(PropagateDependencyProperties(m, keys, base)[p[0]], f)
  {
    SaturatedAlongPath(PropagateDependencyProperties(m, keys, base), base, p, f, x);
  }
}
