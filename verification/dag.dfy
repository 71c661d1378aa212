/**
 * The dependency DAG of `src/dag.rs`: Kahn's algorithm grouping targets into
 * build levels, the restriction of an order to requested targets and their
 * transitive dependencies, and the link order of a target's dependencies.
 *
 * A project's targets are a hash map; its iteration order is the `keys`
 * parameter, which lists every target name once.
 */
module Dag {
  import opened Wrappers
  import opened Seqs
  import Ordering
  import Strings

  /** Each target name mapped to its `deps`, in declaration order. */
  type Graph = map<string, seq<string>>

  /** Build levels: the targets of one level can be built in parallel once the earlier levels are built. */
  type Levels = seq<seq<string>>

  datatype DagError =
    | UnknownDependency(target: string, dep: string, defined: seq<string>)
    | Cyclic(stuck: seq<string>)
    | TargetNotFound(name: string, defined: seq<string>)

  /**
   * Rust's `{:?}` of a list of names: each name quoted with `"` and escaped
   * as `Strings.DebugEscapeAll` does, separated by `, `, in brackets.
   */
  function DebugList(names: seq<string>): (r: string)
    ensures |r| >= 2 && r[0] == '[' && r[|r| - 1] == ']'
    ensures names == [] <==> r == "[]"
    ensures |names| == 1 ==> r == "[\"" + Strings.DebugEscapeAll(names[0]) + "\"]"
  {
    var qs := QuoteAll(names);
    var j := Strings.Join(qs, ", ");
    assert |qs| > 0 ==> |j| >= |qs[0]| >= 2 by {
      if |qs| > 1 { assert j == qs[0] + ", " + Strings.Join(qs[1..], ", "); }
    }
    "[" + j + "]"
  }

  /** Each name in `"` quotes, escaped. */
  function QuoteAll(names: seq<string>): (r: seq<string>)
    ensures |r| == |names|
    ensures forall i :: 0 <= i < |names| ==> r[i] == "\"" + Strings.DebugEscapeAll(names[i]) + "\""
    decreases |names|
  {
    if |names| == 0 then [] else ["\"" + Strings.DebugEscapeAll(names[0]) + "\""] + QuoteAll(names[1..])
  }

  const CyclePrefix := "Cyclic" + " dependency detected! The following targets form a cycle: "

  /** The `Err` strings of `build_order` and `filter_order_for_targets`. */
  function Message(e: DagError): (r: string)
    ensures e.Cyclic? <==> Strings.StartsWith(r, CyclePrefix)
    ensures e.UnknownDependency? ==> Strings.StartsWith(r, "Target '" + e.target + "' has unknown dependency '" + e.dep + "'")
    ensures e.TargetNotFound? ==> Strings.StartsWith(r, "Target '" + e.name + "' not found.")
  {
    match e
    case UnknownDependency(target, dep, defined) =>
      var head := "Target '" + target + "' has unknown dependency '" + dep + "'";
      var m := head + ". Defined targets: " + DebugList(defined);
      assert m[..|head|] == head && m[0] == head[0] == 'T';
      assert CyclePrefix[0] == 'C';
      m
    case Cyclic(stuck) =>
      CyclePrefix + DebugList(stuck)
    case TargetNotFound(name, defined) =>
      var head := "Target '" + name + "' not found.";
      var m := head + " Defined targets: " + DebugList(defined);
      assert m[..|head|] == head && m[0] == head[0] == 'T';
      assert CyclePrefix[0] == 'C';
      m
  }

  // ---------------------------------------------------------------------------
  // Levels as sets
  // ---------------------------------------------------------------------------

  ghost predicate InLevel(levels: Levels, x: string) {
    exists i :: 0 <= i < |levels| && x in levels[i]
  }

  /** The names placed in some level. */
  function Placed(levels: Levels): (r: set<string>)
    ensures forall x :: x in r <==> InLevel(levels, x)
    decreases |levels|
  {
    if |levels| == 0 then {}
    else
      var rest := Placed(levels[1..]);
      assert forall x :: InLevel(levels, x) <==> x in levels[0] || InLevel(levels[1..], x) by {
        forall x ensures InLevel(levels, x) <==> x in levels[0] || InLevel(levels[1..], x) {
          if InLevel(levels[1..], x) {
            var i :| 0 <= i < |levels[1..]| && x in levels[1..][i];
            assert x in levels[i + 1];
          }
          if InLevel(levels, x) {
            var i :| 0 <= i < |levels| && x in levels[i];
            if i > 0 { assert x in levels[1..][i - 1]; }
          }
        }
      }
      Elements(levels[0]) + rest
  }

  /** Every target of the graph is in exactly one level, and nothing else is in any level. */
  ghost predicate IsPartition(g: Graph, levels: Levels) {
    && (forall x :: x in g <==> InLevel(levels, x))
    && Disjoint(levels)
  }

  /** No name is in two levels. */
  ghost predicate Disjoint(levels: Levels) {
    forall i, j, x :: 0 <= i < |levels| && 0 <= j < |levels| && x in levels[i] && x in levels[j] ==> i == j
  }

  /** Every placed name is a target that was not already in `done`. */
  ghost predicate Fresh(g: Graph, levels: Levels, done: set<string>) {
    forall i, x :: 0 <= i < |levels| && x in levels[i] ==> x in g && x !in done
  }

  /** Each dependency of a placed target is in `done` or in an earlier level. */
  ghost predicate DepsPlacedBefore(g: Graph, levels: Levels, done: set<string>) {
    forall i, x, d :: 0 <= i < |levels| && x in levels[i] && x in g && d in g[x] ==>
      d in done || exists j :: 0 <= j < i && d in levels[j]
  }

  /** Every level is non-empty and sorted ascending. */
  ghost predicate SortedLevels(levels: Levels) {
    forall i :: 0 <= i < |levels| ==> |levels[i]| > 0 && Ordering.Sorted(levels[i])
  }

  /** No level lists a name twice. */
  ghost predicate LevelsNoDuplicates(levels: Levels) {
    forall i :: 0 <= i < |levels| ==> NoDuplicates(levels[i])
  }

  /** Whenever a target depends on a name placed in some level, that level is an earlier one. */
  ghost predicate DepsInEarlierLevels(g: Graph, levels: Levels) {
    forall i, j, x, d ::
      0 <= i < |levels| && 0 <= j < |levels| && x in levels[i] && x in g && d in g[x] && d in levels[j] ==> j < i
  }

  ghost predicate HasUnknownDependency(g: Graph) {
    exists n, d :: n in g && d in g[n] && d !in g
  }

  /**
   * A non-empty set of targets each of which depends on another member of the set.
   * Following dependencies inside such a set never ends, so it contains a cycle;
   * conversely every cycle is such a set.
   */
  ghost predicate SelfSustaining(g: Graph, s: set<string>) {
    && s != {}
    && s <= g.Keys
    && forall x :: x in s ==> exists d :: d in g[x] && d in s
  }

  // ---------------------------------------------------------------------------
  // build_order
  // ---------------------------------------------------------------------------

  /** The first dependency in `deps` that is not a defined target. */
  function FirstUnknownDep(g: Graph, deps: seq<string>): (r: Option<string>)
    ensures r.Some? ==> r.value in deps && r.value !in g
    ensures r.None? ==> forall d :: d in deps ==> d in g
    decreases |deps|
  {
    if |deps| == 0 then None
    else if deps[0] !in g then Some(deps[0])
    else FirstUnknownDep(g, deps[1..])
  }

  /** The first (target, dependency) pair, in iteration order, whose dependency is undefined. */
  function FirstUnknown(g: Graph, keys: seq<string>): (r: Option<(string, string)>)
    requires forall k :: k in keys ==> k in g
    ensures r.Some? ==> r.value.0 in g && r.value.1 in g[r.value.0] && r.value.1 !in g
    ensures r.None? ==> forall k, d :: k in keys && d in g[k] ==> d in g
    decreases |keys|
  {
    if |keys| == 0 then None
    else
      match FirstUnknownDep(g, g[keys[0]])
      case Some(d) => Some((keys[0], d))
      case None =>
        var r := FirstUnknown(g, keys[1..]);
        assert forall k :: k in keys ==> k == keys[0] || k in keys[1..];
        r
  }

  /** The targets not yet placed all of whose dependencies are placed: the next level's queue. */
  function Ready(g: Graph, done: set<string>): set<string> {
    set n | n in g && n !in done && (forall d :: d in g[n] ==> d in done)
  }

  /**
   * Kahn's algorithm, one level per step. A target's in-degree counts its
   * dependencies, so it reaches zero, and the target joins the queue of the next
   * level, exactly when all of its dependencies have been placed. Each level is sorted.
   */
  function Kahn(g: Graph, keys: seq<string>, done: set<string>): (levels: Levels)
    requires IsEnumeration(keys, g)
    requires done <= g.Keys
    ensures |levels| <= |g.Keys - done|
    decreases |g.Keys - done|
  {
    var ready := Ready(g, done);
    if ready == {} then []
    else
      assert g.Keys - (done + ready) < g.Keys - done by {
        var x :| x in ready;
        assert x in g.Keys - done;
      }
      SubsetCard(g.Keys - (done + ready), g.Keys - done);
      [Ordering.Sort(FilterIn(keys, ready))] + Kahn(g, keys, done + ready)
  }

  /** One step of Kahn's algorithm: the first level holds exactly the ready targets, once each. */
  lemma KahnStep(g: Graph, keys: seq<string>, done: set<string>)
    requires IsEnumeration(keys, g)
    requires done <= g.Keys
    requires Ready(g, done) != {}
    ensures var levels := Kahn(g, keys, done);
      && |levels| > 0
      && Elements(levels[0]) == Ready(g, done)
      && NoDuplicates(levels[0])
      && |levels[0]| == |Ready(g, done)|
      && levels[1..] == Kahn(g, keys, done + Ready(g, done))
    ensures |g.Keys - (done + Ready(g, done))| < |g.Keys - done|
  {
    var ready := Ready(g, done);
    assert g.Keys - (done + ready) < g.Keys - done by {
      var x :| x in ready;
      assert x in g.Keys - done;
    }
    SubsetCard(g.Keys - (done + ready), g.Keys - done);
    ReadyLevel(keys, ready);
  }

  /** Sorting the keys that are ready gives each ready target exactly once. */
  lemma ReadyLevel(keys: seq<string>, ready: set<string>)
    requires NoDuplicates(keys) && ready <= Elements(keys)
    ensures var level := Ordering.Sort(FilterIn(keys, ready));
      Elements(level) == ready && NoDuplicates(level) && |level| == |ready|
  {
    var filtered := FilterIn(keys, ready);
    var level := Ordering.Sort(filtered);
    forall x ensures x in level <==> x in ready {
      assert x in level <==> x in multiset(level);
      assert x in filtered <==> x in multiset(filtered);
    }
    NoDuplicatesPermutation(filtered, level);
    assert |multiset(level)| == |level| && |multiset(filtered)| == |filtered|;
    FilterInLength(keys, ready);
    assert Elements(keys) * ready == ready;
  }

  /** Kahn only places targets that were not placed before. */
  lemma {:induction false} KahnFresh(g: Graph, keys: seq<string>, done: set<string>)
    requires IsEnumeration(keys, g)
    requires done <= g.Keys
    ensures Fresh(g, Kahn(g, keys, done), done)
    decreases |g.Keys - done|
  {
    var ready := Ready(g, done);
    if ready != {} {
      KahnStep(g, keys, done);
      KahnFresh(g, keys, done + ready);
      var levels := Kahn(g, keys, done);
      forall i, x | 0 <= i < |levels| && x in levels[i] ensures x in g && x !in done {
        if i > 0 { assert x in levels[1..][i - 1]; }
      }
    }
  }

  /** No target is placed in two levels. */
  lemma {:induction false} KahnDisjoint(g: Graph, keys: seq<string>, done: set<string>)
    requires IsEnumeration(keys, g)
    requires done <= g.Keys
    ensures Disjoint(Kahn(g, keys, done))
    decreases |g.Keys - done|
  {
    var ready := Ready(g, done);
    if ready != {} {
      KahnStep(g, keys, done);
      KahnFresh(g, keys, done + ready);
      KahnDisjoint(g, keys, done + ready);
      var levels := Kahn(g, keys, done);
      var rest := levels[1..];
      forall j, x | 0 < j < |levels| && x in levels[j] ensures x !in levels[0] {
        assert x in rest[j - 1];
        assert x !in Elements(levels[0]);
      }
      forall i, j, x | 0 <= i < |levels| && 0 <= j < |levels| && x in levels[i] && x in levels[j]
        ensures i == j
      {
        if i > 0 && j > 0 {
          assert x in rest[i - 1] && x in rest[j - 1];
        }
      }
    }
  }

  /** No level lists a target twice. */
  lemma {:induction false} KahnLevelsNoDuplicates(g: Graph, keys: seq<string>, done: set<string>)
    requires IsEnumeration(keys, g)
    requires done <= g.Keys
    ensures LevelsNoDuplicates(Kahn(g, keys, done))
    decreases |g.Keys - done|
  {
    var ready := Ready(g, done);
    if ready != {} {
      KahnStep(g, keys, done);
      KahnLevelsNoDuplicates(g, keys, done + ready);
      var levels := Kahn(g, keys, done);
      forall i | 0 < i < |levels| ensures NoDuplicates(levels[i]) {
        assert levels[i] == levels[1..][i - 1];
      }
    }
  }

  /** Each dependency of a placed target was placed before, or in an earlier level. */
  lemma {:induction false} KahnDepsEarlier(g: Graph, keys: seq<string>, done: set<string>)
    requires IsEnumeration(keys, g)
    requires done <= g.Keys
    ensures DepsPlacedBefore(g, Kahn(g, keys, done), done)
    decreases |g.Keys - done|
  {
    var ready := Ready(g, done);
    if ready != {} {
      KahnStep(g, keys, done);
      KahnDepsEarlier(g, keys, done + ready);
      var levels := Kahn(g, keys, done);
      DepsEarlierCons(g, levels, done, ready);
    }
  }

  /**
   * Prepending the ready targets as a level keeps every dependency placed
   * before its dependent.
   */
  lemma DepsEarlierCons(g: Graph, levels: Levels, done: set<string>, ready: set<string>)
    requires |levels| > 0 && Elements(levels[0]) == ready
    requires forall x, d :: x in ready && x in g && d in g[x] ==> d in done
    requires DepsPlacedBefore(g, levels[1..], done + ready)
    ensures DepsPlacedBefore(g, levels, done)
  {
    var rest := levels[1..];
    forall i, x, d | 0 <= i < |levels| && x in levels[i] && x in g && d in g[x]
      ensures d in done || exists j :: 0 <= j < i && d in levels[j]
    {
      if i == 0 {
        assert x in Elements(levels[0]);
      } else {
        assert x in rest[i - 1];
        assert d in done + ready || exists j :: 0 <= j < i - 1 && d in rest[j];
        if d in ready {
          assert d in Elements(levels[0]);
        } else if d !in done {
          var j :| 0 <= j < i - 1 && d in rest[j];
          assert d in levels[j + 1];
        }
      }
    }
  }

  /** When Kahn stops, no unplaced target is ready. */
  lemma {:induction false} KahnStops(g: Graph, keys: seq<string>, done: set<string>)
    requires IsEnumeration(keys, g)
    requires done <= g.Keys
    ensures Ready(g, done + Placed(Kahn(g, keys, done))) == {}
    decreases |g.Keys - done|
  {
    var ready := Ready(g, done);
    if ready != {} {
      KahnStep(g, keys, done);
      var rest := Kahn(g, keys, done + ready);
      KahnStops(g, keys, done + ready);
      PlacedCons(Kahn(g, keys, done), rest, ready);
      assert done + Placed(Kahn(g, keys, done)) == (done + ready) + Placed(rest);
    }
  }

  /** The names placed by a list of levels are those of its first level and those of the rest. */
  lemma PlacedCons(levels: Levels, rest: Levels, first: set<string>)
    requires |levels| > 0 && levels[1..] == rest && Elements(levels[0]) == first
    ensures Placed(levels) == first + Placed(rest)
    ensures TotalLength(levels) == |levels[0]| + TotalLength(rest)
  {
  }

  /** The processed count of Kahn's algorithm is the number of targets it placed. */
  lemma {:induction false} KahnCount(g: Graph, keys: seq<string>, done: set<string>)
    requires IsEnumeration(keys, g)
    requires done <= g.Keys
    ensures TotalLength(Kahn(g, keys, done)) == |Placed(Kahn(g, keys, done))|
    decreases |g.Keys - done|
  {
    var ready := Ready(g, done);
    if ready != {} {
      KahnStep(g, keys, done);
      var rest := Kahn(g, keys, done + ready);
      KahnFresh(g, keys, done + ready);
      KahnCount(g, keys, done + ready);
      FreshOutside(g, rest, done + ready, ready);
      PlacedCons(Kahn(g, keys, done), rest, ready);
      DisjointUnionCard(ready, Placed(rest));
    }
  }

  /** Levels of fresh names place nothing of `done`. */
  lemma FreshOutside(g: Graph, levels: Levels, done: set<string>, s: set<string>)
    requires Fresh(g, levels, done) && s <= done
    ensures s * Placed(levels) == {}
  {
    forall x | x in Placed(levels) ensures x !in s {
      var i :| 0 <= i < |levels| && x in levels[i];
    }
  }

  lemma DisjointUnionCard(a: set<string>, b: set<string>)
    requires a * b == {}
    ensures |a + b| == |a| + |b|
  {
    assert |a * b| == 0;
  }

  /**
   * `build_order`: reject an undefined dependency first, then run Kahn's
   * algorithm; if fewer targets were processed than defined, report the
   * unprocessed ones as a cycle.
   */
  function BuildOrder(g: Graph, keys: seq<string>): (r: Result<Levels, DagError>)
    requires IsEnumeration(keys, g)
    ensures r.Ok? ==> TotalLength(r.value) == |g|
    ensures r.Err? && r.error.UnknownDependency? ==>
      r.error.target in g && r.error.dep in g[r.error.target] && r.error.dep !in g
  {
    match FirstUnknown(g, keys)
    case Some((name, dep)) => Err(UnknownDependency(name, dep, keys))
    case None =>
      var levels := Kahn(g, keys, {});
      if TotalLength(levels) != |g| then
        Err(Cyclic(FilterIn(keys, g.Keys - Placed(levels))))
      else
        Ok(levels)
  }

  /** Every level of Kahn's algorithm is non-empty and sorted. */
  lemma {:induction false} KahnSorted(g: Graph, keys: seq<string>, done: set<string>)
    requires IsEnumeration(keys, g)
    requires done <= g.Keys
    ensures SortedLevels(Kahn(g, keys, done))
    decreases |g.Keys - done|
  {
    var ready := Ready(g, done);
    if ready != {} {
      KahnStep(g, keys, done);
      KahnSorted(g, keys, done + ready);
      var levels := Kahn(g, keys, done);
      assert Ordering.Sorted(levels[0]);
      forall i | 0 < i < |levels| ensures |levels[i]| > 0 && Ordering.Sorted(levels[i]) {
        assert levels[i] == levels[1..][i - 1];
      }
    }
  }

  /** On success every level is non-empty and sorted ascending. */
  lemma BuildOrderSorted(g: Graph, keys: seq<string>, levels: Levels)
    requires IsEnumeration(keys, g)
    requires BuildOrder(g, keys) == Ok(levels)
    ensures SortedLevels(levels)
  {
    assert levels == Kahn(g, keys, {});
    KahnSorted(g, keys, {});
  }

  /** An undefined dependency is reported before any ordering, and only then. */
  lemma UnknownDependencyFirst(g: Graph, keys: seq<string>)
    requires IsEnumeration(keys, g)
    ensures var r := BuildOrder(g, keys);
      r.Err? && r.error.UnknownDependency? <==> HasUnknownDependency(g)
  {
    var r := BuildOrder(g, keys);
    if HasUnknownDependency(g) {
      var n, d :| n in g && d in g[n] && d !in g;
      assert n in keys;
    }
  }

  /** Processed count equals the target count exactly when Kahn placed every target. */
  lemma AllPlacedIff(g: Graph, keys: seq<string>)
    requires IsEnumeration(keys, g)
    ensures var levels := Kahn(g, keys, {});
      TotalLength(levels) == |g| <==> Placed(levels) == g.Keys
  {
    var levels := Kahn(g, keys, {});
    KahnFresh(g, keys, {});
    KahnCount(g, keys, {});
    FreshPlaced(g, levels, {});
    SubsetCard(Placed(levels), g.Keys);
  }

  /** On success every defined target is in exactly one level, and nothing else appears. */
  lemma BuildOrderPartition(g: Graph, keys: seq<string>, levels: Levels)
    requires IsEnumeration(keys, g)
    requires BuildOrder(g, keys) == Ok(levels)
    ensures IsPartition(g, levels)
  {
    assert levels == Kahn(g, keys, {});
    KahnDisjoint(g, keys, {});
    AllPlacedIff(g, keys);
  }

  /** On success a dependency's level is strictly before its dependent's. */
  lemma BuildOrderEdges(g: Graph, keys: seq<string>, levels: Levels)
    requires IsEnumeration(keys, g)
    requires BuildOrder(g, keys) == Ok(levels)
    ensures DepsInEarlierLevels(g, levels)
  {
    assert levels == Kahn(g, keys, {});
    KahnEdges(g, keys, {});
  }

  /** The levels of a run from nothing have every dependency in an earlier level. */
  lemma KahnEdges(g: Graph, keys: seq<string>, done: set<string>)
    requires IsEnumeration(keys, g)
    requires done == {}
    ensures DepsInEarlierLevels(g, Kahn(g, keys, done))
  {
    KahnDepsEarlier(g, keys, done);
    KahnDisjoint(g, keys, done);
    EarlierOnce(g, Kahn(g, keys, done), done);
  }

  /** A dependency placed in some earlier level, and in one level only, is placed in an earlier level wherever it is found. */
  lemma EarlierOnce(g: Graph, levels: Levels, done: set<string>)
    requires done == {}
    requires DepsPlacedBefore(g, levels, done) && Disjoint(levels)
    ensures DepsInEarlierLevels(g, levels)
  {
    forall i, j, x, d | 0 <= i < |levels| && 0 <= j < |levels| && x in levels[i] && x in g && d in g[x] && d in levels[j]
      ensures j < i
    {
      assert d !in done;
      var j' :| 0 <= j' < i && d in levels[j'];
    }
  }

  /**
   * A cycle is reported with a message naming it, and the reported targets
   * really are stuck: each depends on another reported target.
   */
  lemma BuildOrderCyclic(g: Graph, keys: seq<string>, stuck: seq<string>)
    requires IsEnumeration(keys, g)
    requires BuildOrder(g, keys) == Err(Cyclic(stuck))
    ensures |stuck| > 0 && SelfSustaining(g, Elements(stuck))
    ensures Strings.StartsWith(Message(Cyclic(stuck)), CyclePrefix)
  {
    var levels := Kahn(g, keys, {});
    assert FirstUnknown(g, keys).None?;
    assert stuck == FilterIn(keys, g.Keys - Placed(levels));
    KahnStuck(g, keys, {});
    AllPlacedIff(g, keys);
    StuckSelfSustaining(g, Placed(levels));
    ElementsFilterEnumeration(keys, g, g.Keys - Placed(levels));
    Strings.StartsWithConcat(CyclePrefix, DebugList(stuck));
  }

  /** A run from nothing places only targets, and stops with no target ready. */
  lemma KahnStuck(g: Graph, keys: seq<string>, done: set<string>)
    requires IsEnumeration(keys, g)
    requires done == {}
    ensures Placed(Kahn(g, keys, done)) <= g.Keys
    ensures Ready(g, Placed(Kahn(g, keys, done))) == {}
  {
    var levels := Kahn(g, keys, done);
    KahnFresh(g, keys, done);
    KahnStops(g, keys, done);
    FreshPlaced(g, levels, done);
    assert done + Placed(levels) == Placed(levels);
  }

  lemma FreshPlaced(g: Graph, levels: Levels, done: set<string>)
    requires Fresh(g, levels, done)
    ensures Placed(levels) <= g.Keys
  {
    forall x | x in Placed(levels) ensures x in g {
      var i :| 0 <= i < |levels| && x in levels[i];
    }
  }

  /**
   * When no target is ready, every dependency is defined and some target is
   * unplaced, the unplaced targets form a self-sustaining set.
   */
  lemma StuckSelfSustaining(g: Graph, placed: set<string>)
    requires placed <= g.Keys && placed != g.Keys
    requires Ready(g, placed) == {}
    requires forall k, d :: k in g && d in g[k] ==> d in g
    ensures SelfSustaining(g, g.Keys - placed)
  {
    var left := g.Keys - placed;
    forall x | x in left ensures exists d :: d in g[x] && d in left {
      assert x !in Ready(g, placed);
      var d :| d in g[x] && d !in placed;
      assert d in left;
    }
  }

  /** A successful order leaves no self-sustaining set: every non-empty set of targets has a member depending on nothing in it. */
  lemma BuildOrderAcyclic(g: Graph, keys: seq<string>, levels: Levels, s: set<string>)
    requires IsEnumeration(keys, g)
    requires BuildOrder(g, keys) == Ok(levels)
    ensures !SelfSustaining(g, s)
  {
    if s != {} && s <= g.Keys {
      BuildOrderPartition(g, keys, levels);
      BuildOrderEdges(g, keys, levels);
      var y :| y in s;
      assert InLevel(levels, y);
      var i :| 0 <= i < |levels| && y in levels[i];
      SourceBelow(g, levels, s, y, i);
    }
  }

  /**
   * Following dependencies inside `s` from a member `y` in level `i` reaches, after
   * at most `i` steps, a member of `s` that depends on nothing in `s`.
   */
  lemma {:induction false} SourceBelow(g: Graph, levels: Levels, s: set<string>, y: string, i: nat)
    requires IsPartition(g, levels) && DepsInEarlierLevels(g, levels)
    requires s <= g.Keys
    requires y in s && i < |levels| && y in levels[i]
    ensures exists x :: x in s && forall d :: d in g[x] ==> d !in s
    decreases i
  {
    if exists d :: d in g[y] && d in s {
      var d :| d in g[y] && d in s;
      assert InLevel(levels, d);
      var j :| 0 <= j < |levels| && d in levels[j];
      assert j < i;
      SourceBelow(g, levels, s, d, j);
    } else {
      assert forall d :: d in g[y] ==> d !in s;
    }
  }

  /** `build_order` succeeds exactly when every dependency is defined and there is no cycle. */
  lemma BuildOrderOkIff(g: Graph, keys: seq<string>)
    requires IsEnumeration(keys, g)
    ensures BuildOrder(g, keys).Ok? <==>
      !HasUnknownDependency(g) && forall s :: s <= g.Keys ==> !SelfSustaining(g, s)
  {
    UnknownDependencyFirst(g, keys);
    var r := BuildOrder(g, keys);
    if r.Ok? {
      forall s | s <= g.Keys ensures !SelfSustaining(g, s) {
        BuildOrderAcyclic(g, keys, r.value, s);
      }
    } else if r.error.Cyclic? {
      BuildOrderCyclic(g, keys, r.error.stuck);
    }
  }

  /** Kahn's levels do not depend on the hash map's iteration order. */
  lemma {:induction false} KahnKeyOrderIndependent(g: Graph, keys1: seq<string>, keys2: seq<string>, done: set<string>)
    requires IsEnumeration(keys1, g) && IsEnumeration(keys2, g)
    requires done <= g.Keys
    ensures Kahn(g, keys1, done) == Kahn(g, keys2, done)
    decreases |g.Keys - done|
  {
    var ready := Ready(g, done);
    if ready != {} {
      var f1 := FilterIn(keys1, ready);
      var f2 := FilterIn(keys2, ready);
      NoDuplicatesCard(f1);
      NoDuplicatesCard(f2);
      assert Elements(f1) == Elements(f2);
      Ordering.SortPermutationInvariant(f1, f2);
      assert g.Keys - (done + ready) < g.Keys - done by {
        var x :| x in ready;
        assert x in g.Keys - done;
      }
      SubsetCard(g.Keys - (done + ready), g.Keys - done);
      KahnKeyOrderIndependent(g, keys1, keys2, done + ready);
    }
  }

  /** A successful build order is the same whatever the iteration order of the targets. */
  lemma BuildOrderKeyOrderIndependent(g: Graph, keys1: seq<string>, keys2: seq<string>)
    requires IsEnumeration(keys1, g) && IsEnumeration(keys2, g)
    ensures BuildOrder(g, keys1).Ok? <==> BuildOrder(g, keys2).Ok?
    ensures BuildOrder(g, keys1).Ok? ==> BuildOrder(g, keys1) == BuildOrder(g, keys2)
  {
    KahnKeyOrderIndependent(g, keys1, keys2, {});
    BuildOrderOfKahn(g, keys1);
    BuildOrderOfKahn(g, keys2);
  }

  /** `build_order` succeeds exactly when there is no undefined dependency and Kahn placed every target, and then returns Kahn's levels. */
  lemma BuildOrderOfKahn(g: Graph, keys: seq<string>)
    requires IsEnumeration(keys, g)
    ensures BuildOrder(g, keys).Ok? <==> !HasUnknownDependency(g) && TotalLength(Kahn(g, keys, {})) == |g|
    ensures BuildOrder(g, keys).Ok? ==> BuildOrder(g, keys).value == Kahn(g, keys, {})
  {
    UnknownDependencyFirst(g, keys);
  }

  /** Two targets depending on each other are reported as a cycle. */
  lemma CycleExample(keys: seq<string>)
    requires IsEnumeration(keys, map["A" := ["B"], "B" := ["A"]])
    ensures var r := BuildOrder(map["A" := ["B"], "B" := ["A"]], keys);
      r.Err? && Strings.StartsWith(Message(r.error), CyclePrefix)
  {
    var g := map["A" := ["B"], "B" := ["A"]];
    assert Ready(g, {}) == {};
    assert "A" in keys;
    assert Kahn(g, keys, {}) == [];
    assert TotalLength(Kahn(g, keys, {})) != |g|;
    var r := BuildOrder(g, keys);
    BuildOrderCyclic(g, keys, r.error.stuck);
  }

  // ---------------------------------------------------------------------------
  // Transitive closure of dependencies
  // ---------------------------------------------------------------------------

  /** Every name the graph mentions: its targets and all of their dependencies. */
  function Names(g: Graph): (r: set<string>)
    ensures g.Keys <= r
    ensures forall n, d :: n in g && d in g[n] ==> d in r
  {
    g.Keys + set n, d | n in g && d in g[n] :: d
  }

  /** A set that contains the dependencies of each of its targets. */
  ghost predicate DepClosed(g: Graph, s: set<string>) {
    forall x, d :: x in s && x in g && d in g[x] ==> d in s
  }

  /** Inner loop of the closure search: each dependency not yet seen is inserted and pushed. */
  function PushDeps(seen: set<string>, stack: seq<string>, deps: seq<string>): (r: (set<string>, seq<string>))
    ensures r.0 == seen + Elements(deps)
    ensures |stack| <= |r.1| && r.1[..|stack|] == stack
    ensures forall i :: |stack| <= i < |r.1| ==> r.1[i] in deps && r.1[i] !in seen
    ensures forall x :: x in deps && x !in seen ==> x in r.1
    ensures r.0 == seen ==> r.1 == stack
    decreases |deps|
  {
    if |deps| == 0 then (seen, stack)
    else if deps[0] in seen then
      var r := PushDeps(seen, stack, deps[1..]);
      assert Elements(deps) == {deps[0]} + Elements(deps[1..]);
      r
    else
      var r := PushDeps(seen + {deps[0]}, stack + [deps[0]], deps[1..]);
      assert Elements(deps) == {deps[0]} + Elements(deps[1..]);
      assert r.1[..|stack|] == (r.1[..|stack| + 1])[..|stack|];
      assert r.1[|stack|] == (stack + [deps[0]])[|stack|];
      r
  }

  /**
   * The depth-first closure search: pop a name; if it is a defined target,
   * insert and push each of its dependencies that was not seen before.
   */
  function Explore(g: Graph, seen: set<string>, stack: seq<string>): (r: set<string>)
    requires seen <= Names(g)
    requires Elements(stack) <= seen
    ensures seen <= r <= Names(g)
    decreases |Names(g) - seen|, |stack|
  {
    if |stack| == 0 then seen
    else
      var name := stack[|stack| - 1];
      var rest := stack[..|stack| - 1];
      assert Elements(rest) <= Elements(stack);
      if name in g then
        var pushed := PushDeps(seen, rest, g[name]);
        assert Elements(pushed.1) <= pushed.0 by {
          forall x | x in pushed.1 ensures x in pushed.0 {
            var i :| 0 <= i < |pushed.1| && pushed.1[i] == x;
            if i < |rest| { assert pushed.1[..|rest|][i] == x; }
          }
        }
        if pushed.0 == seen then
          Explore(g, seen, pushed.1)
        else
          SubsetCard(Names(g) - pushed.0, Names(g) - seen);
          Explore(g, pushed.0, pushed.1)
      else
        Explore(g, seen, rest)
  }

  /** The requested names together with all of their transitive dependencies. */
  function Closure(g: Graph, roots: seq<string>): (r: set<string>)
    requires Elements(roots) <= Names(g)
    ensures Elements(roots) <= r
  {
    Explore(g, Elements(roots), roots)
  }

  /** Every name seen but not on the stack has had its dependencies inserted. */
  ghost predicate Expanded(g: Graph, seen: set<string>, stack: seq<string>) {
    forall x, d :: x in seen && x !in stack && x in g && d in g[x] ==> d in seen
  }

  lemma {:induction false} ExploreClosed(g: Graph, seen: set<string>, stack: seq<string>)
    requires seen <= Names(g)
    requires Elements(stack) <= seen
    requires Expanded(g, seen, stack)
    ensures DepClosed(g, Explore(g, seen, stack))
    decreases |Names(g) - seen|, |stack|
  {
    if |stack| > 0 {
      var name := stack[|stack| - 1];
      var rest := stack[..|stack| - 1];
      assert Elements(rest) <= Elements(stack);
      assert forall x :: x in stack <==> x == name || x in rest by {
        assert stack == rest + [name];
      }
      if name in g {
        var pushed := PushDeps(seen, rest, g[name]);
        assert Elements(pushed.1) <= pushed.0 by {
          forall x | x in pushed.1 ensures x in pushed.0 {
            var i :| 0 <= i < |pushed.1| && pushed.1[i] == x;
            if i < |rest| { assert pushed.1[..|rest|][i] == x; }
          }
        }
        assert Expanded(g, pushed.0, pushed.1) by {
          forall x | x in rest ensures x in pushed.1 {
            var i :| 0 <= i < |rest| && rest[i] == x;
            assert pushed.1[..|rest|][i] == x;
          }
          forall x, d | x in pushed.0 && x !in pushed.1 && x in g && d in g[x] ensures d in pushed.0 {
            if x in seen && x != name {
              assert x !in stack;
            }
          }
        }
        if pushed.0 != seen {
          SubsetCard(Names(g) - pushed.0, Names(g) - seen);
        }
        ExploreClosed(g, pushed.0, pushed.1);
      } else {
        ExploreClosed(g, seen, rest);
      }
    }
  }

  lemma {:induction false} ExploreLeast(g: Graph, seen: set<string>, stack: seq<string>, s: set<string>)
    requires seen <= Names(g)
    requires Elements(stack) <= seen
    requires seen <= s && DepClosed(g, s)
    ensures Explore(g, seen, stack) <= s
    decreases |Names(g) - seen|, |stack|
  {
    if |stack| > 0 {
      var name := stack[|stack| - 1];
      var rest := stack[..|stack| - 1];
      assert Elements(rest) <= Elements(stack);
      if name in g {
        var pushed := PushDeps(seen, rest, g[name]);
        assert Elements(pushed.1) <= pushed.0 by {
          forall x | x in pushed.1 ensures x in pushed.0 {
            var i :| 0 <= i < |pushed.1| && pushed.1[i] == x;
            if i < |rest| { assert pushed.1[..|rest|][i] == x; }
          }
        }
        assert name in s by {
          assert name in Elements(stack);
        }
        if pushed.0 != seen {
          SubsetCard(Names(g) - pushed.0, Names(g) - seen);
        }
        ExploreLeast(g, pushed.0, pushed.1, s);
      } else {
        ExploreLeast(g, seen, rest, s);
      }
    }
  }

  /**
   * The closure is the least dependency-closed set containing the roots:
   * it contains them, is closed, and lies inside every closed set that contains them.
   */
  lemma ClosureIsLeast(g: Graph, roots: seq<string>, s: set<string>)
    requires Elements(roots) <= Names(g)
    ensures Elements(roots) <= Closure(g, roots)
    ensures DepClosed(g, Closure(g, roots))
    ensures Elements(roots) <= s && DepClosed(g, s) ==> Closure(g, roots) <= s
  {
    ExploreClosed(g, Elements(roots), roots);
    if Elements(roots) <= s && DepClosed(g, s) {
      ExploreLeast(g, Elements(roots), roots, s);
    }
  }

  // ---------------------------------------------------------------------------
  // filter_order_for_targets
  // ---------------------------------------------------------------------------

  /** Each level restricted to `keep`, empty levels dropped. */
  function FilterLevels(order: Levels, keep: set<string>): (r: Levels)
    ensures |r| <= |order|
    ensures forall i :: 0 <= i < |r| ==> |r[i]| > 0
    ensures Flatten(r) == FilterIn(Flatten(order), keep)
    decreases |order|
  {
    if |order| == 0 then []
    else
      var level := FilterIn(order[0], keep);
      var rest := FilterLevels(order[1..], keep);
      FilterInConcat(order[0], Flatten(order[1..]), keep);
      if |level| == 0 then rest else [level] + rest
  }

  /** Filtering a concatenation of levels filters each part: levels are never merged or split. */
  lemma {:induction false} FilterLevelsConcat(a: Levels, b: Levels, keep: set<string>)
    ensures FilterLevels(a + b, keep) == FilterLevels(a, keep) + FilterLevels(b, keep)
    decreases |a|
  {
    if |a| == 0 {
      assert a + b == b;
    } else {
      assert (a + b)[0] == a[0];
      assert (a + b)[1..] == a[1..] + b;
      FilterLevelsConcat(a[1..], b, keep);
    }
  }

  /**
   * Level `k` of an order contributes exactly one level, its names restricted
   * to `keep` in their order, placed between the levels before and after it;
   * an empty restriction contributes none.
   */
  lemma FilterLevelsAt(order: Levels, keep: set<string>, k: nat)
    requires k < |order|
    ensures var level := FilterIn(order[k], keep);
      FilterLevels(order, keep) ==
        FilterLevels(order[..k], keep) + (if |level| == 0 then [] else [level]) + FilterLevels(order[k + 1..], keep)
  {
    var before, one, after := order[..k], [order[k]], order[k + 1..];
    var level := FilterIn(order[k], keep);
    assert order == before + (one + after);
    FilterLevelsConcat(before, one + after, keep);
    FilterLevelsConcat(one, after, keep);
    assert FilterLevels(one, keep) == if |level| == 0 then [] else [level] by {
      assert one[1..] == [];
      assert FilterLevels(one[1..], keep) == [];
    }
    var fb, fo, fa := FilterLevels(before, keep), FilterLevels(one, keep), FilterLevels(after, keep);
    assert fb + (fo + fa) == fb + fo + fa;
  }

  /** The first requested name that is not a defined target. */
  function FirstMissing(g: Graph, names: seq<string>): (r: Option<string>)
    ensures r.Some? ==> r.value in names && r.value !in g
    ensures r.None? ==> forall n :: n in names ==> n in g
    decreases |names|
  {
    if |names| == 0 then None
    else if names[0] !in g then Some(names[0])
    else FirstMissing(g, names[1..])
  }

  /** `filter_order_for_targets`. */
  function FilterOrder(g: Graph, keys: seq<string>, order: Levels, requested: seq<string>): (r: Result<Levels, DagError>)
    ensures requested == [] ==> r == Ok(order)
    ensures r.Err? <==> requested != [] && exists n :: n in requested && n !in g
    ensures r.Err? ==> r.error.TargetNotFound? && r.error.name in requested && r.error.name !in g
    ensures r.Ok? && requested != [] ==> Flatten(r.value) == FilterIn(Flatten(order), Closure(g, requested))
    ensures r.Ok? ==> forall i :: 0 <= i < |r.value| ==> |r.value[i]| > 0 || requested == []
  {
    if |requested| == 0 then Ok(order)
    else
      match FirstMissing(g, requested)
      case Some(name) => Err(TargetNotFound(name, keys))
      case None => Ok(FilterLevels(order, Closure(g, requested)))
  }

  /** The filtered order holds exactly the requested targets and their transitive dependencies. */
  lemma FilterOrderContents(g: Graph, keys: seq<string>, order: Levels, requested: seq<string>, x: string)
    requires IsEnumeration(keys, g)
    requires BuildOrder(g, keys) == Ok(order)
    requires requested != [] && forall n :: n in requested ==> n in g
    ensures var r := FilterOrder(g, keys, order, requested);
      r.Ok? && (x in Flatten(r.value) <==> x in Closure(g, requested))
  {
    BuildOrderPartition(g, keys, order);
    UnknownDependencyFirst(g, keys);
    FilterPartition(g, keys, order, requested, x);
  }

  /** A successful build order lists every target exactly once. */
  lemma BuildOrderNoDuplicates(g: Graph, keys: seq<string>, order: Levels)
    requires IsEnumeration(keys, g)
    requires BuildOrder(g, keys) == Ok(order)
    ensures NoDuplicates(Flatten(order))
  {
    BuildOrderPartition(g, keys, order);
    PartitionElements(g, order);
    assert |Flatten(order)| == |g.Keys| == |Elements(Flatten(order))|;
    ElementsCard(Flatten(order));
  }

  /** The names listed by levels covering exactly the targets are the targets. */
  lemma PartitionElements(g: Graph, levels: Levels)
    requires forall x :: x in g <==> InLevel(levels, x)
    ensures Elements(Flatten(levels)) == g.Keys
  {
    forall x ensures x in Flatten(levels) <==> x in g {
      InFlatten(levels, x);
    }
  }

  /** The full order and every order filtered from it list each target at most once. */
  lemma FilterOrderNoDuplicates(g: Graph, keys: seq<string>, order: Levels, requested: seq<string>)
    requires IsEnumeration(keys, g)
    requires BuildOrder(g, keys) == Ok(order)
    requires FilterOrder(g, keys, order, requested).Ok?
    ensures NoDuplicates(Flatten(FilterOrder(g, keys, order, requested).value))
  {
    BuildOrderNoDuplicates(g, keys, order);
  }

  /** The filtered order keeps the grouping of the full order: level by level, each restricted to the closure. */
  lemma FilterOrderLevels(g: Graph, keys: seq<string>, order: Levels, requested: seq<string>, k: nat)
    requires requested != [] && forall n :: n in requested ==> n in g
    requires k < |order|
    ensures var keep := Closure(g, requested);
      var level := FilterIn(order[k], keep);
      FilterOrder(g, keys, order, requested) ==
        Ok(FilterLevels(order[..k], keep) + (if |level| == 0 then [] else [level]) + FilterLevels(order[k + 1..], keep))
  {
    assert FirstMissing(g, requested) == None;
    FilterLevelsAt(order, Closure(g, requested), k);
  }

  lemma FilterPartition(g: Graph, keys: seq<string>, order: Levels, requested: seq<string>, x: string)
    requires IsPartition(g, order) && !HasUnknownDependency(g)
    requires requested != [] && forall n :: n in requested ==> n in g
    ensures var r := FilterOrder(g, keys, order, requested);
      r.Ok? && (x in Flatten(r.value) <==> x in Closure(g, requested))
  {
    ClosureIsLeast(g, requested, g.Keys);
    InFlatten(order, x);
  }

  // ---------------------------------------------------------------------------
  // transitive_deps_in_link_order
  // ---------------------------------------------------------------------------

  /** The names of `keep`, levels taken from last to first, each level in its own order. */
  function LinkOrder(levels: Levels, keep: set<string>): (r: seq<string>)
    ensures forall x :: x in r <==> x in keep && InLevel(levels, x)
    ensures forall p :: 0 <= p < |r| ==> exists i :: 0 <= i < |levels| && r[p] in levels[i]
    decreases |levels|
  {
    if |levels| == 0 then []
    else
      var last := |levels| - 1;
      var front := levels[..last];
      var r := FilterIn(levels[last], keep) + LinkOrder(front, keep);
      assert forall x :: InLevel(levels, x) <==> x in levels[last] || InLevel(front, x) by {
        forall x ensures InLevel(levels, x) <==> x in levels[last] || InLevel(front, x) {
          if InLevel(levels, x) {
            var i :| 0 <= i < |levels| && x in levels[i];
            if i < last { assert x in front[i]; }
          }
          if InLevel(front, x) {
            var i :| 0 <= i < |front| && x in front[i];
            assert x in levels[i];
          }
        }
      }
      r
  }

  /** `transitive_deps_in_link_order`: an unknown target has none. */
  function TransitiveDepsInLinkOrder(g: Graph, target: string, order: Levels): (r: seq<string>)
    ensures target !in g ==> r == []
    ensures target in g ==> forall x :: x in r <==> x in Closure(g, g[target]) && InLevel(order, x)
  {
    if target !in g then [] else LinkOrder(order, Closure(g, g[target]))
  }

  /** Every target in `r` comes before each of its own dependencies in `r`. */
  ghost predicate DependentsFirst(g: Graph, r: seq<string>) {
    forall p, q :: 0 <= p < |r| && 0 <= q < |r| && r[p] in g && r[q] in g[r[p]] ==> p < q
  }

  /** Prefixing a dependents-first list with names no listed target depends on keeps it dependents first. */
  lemma DependentsFirstConcat(g: Graph, a: seq<string>, b: seq<string>)
    requires DependentsFirst(g, b)
    requires forall x, d :: x in a && x in g && d in a ==> d !in g[x]
    requires forall x, d :: x in b && x in g && d in a ==> d !in g[x]
    ensures DependentsFirst(g, a + b)
  {
    var r := a + b;
    forall k | 0 <= k < |a| ensures r[k] == a[k] && r[k] in a {
    }
    forall k | |a| <= k < |r| ensures r[k] == b[k - |a|] && r[k] in b {
    }
    forall p, q | 0 <= p < |r| && 0 <= q < |r| && r[p] in g && r[q] in g[r[p]]
      ensures p < q
    {
      if p >= |a| && q >= |a| {
        assert r[p] == b[p - |a|] && r[q] == b[q - |a|];
      }
    }
  }

  /** In link order, a target comes before each of its own dependencies. */
  lemma {:induction false} LinkOrderDependentsFirst(g: Graph, levels: Levels, keep: set<string>)
    requires DepsInEarlierLevels(g, levels)
    ensures DependentsFirst(g, LinkOrder(levels, keep))
    decreases |levels|
  {
    if |levels| > 0 {
      var last := |levels| - 1;
      var front := levels[..last];
      assert DepsInEarlierLevels(g, front) by {
        forall i, j, x, d | 0 <= i < |front| && 0 <= j < |front| && x in front[i] && x in g && d in g[x] && d in front[j]
          ensures j < i
        {
          assert x in levels[i] && d in levels[j];
        }
      }
      LinkOrderDependentsFirst(g, front, keep);
      var a := FilterIn(levels[last], keep);
      var b := LinkOrder(front, keep);
      forall x, d | x in a && x in g && d in a ensures d !in g[x] {
        assert x in levels[last] && d in levels[last];
      }
      forall x, d | x in b && x in g && d in a ensures d !in g[x] {
        assert InLevel(front, x);
        var i :| 0 <= i < |front| && x in front[i];
        assert x in levels[i] && d in levels[last];
      }
      DependentsFirstConcat(g, a, b);
    }
  }

  /** For a successful build order, a target's transitive dependencies are listed dependents first. */
  lemma TransitiveDepsLinkOrder(g: Graph, keys: seq<string>, order: Levels, target: string)
    requires IsEnumeration(keys, g)
    requires BuildOrder(g, keys) == Ok(order)
    requires target in g
    ensures var r := TransitiveDepsInLinkOrder(g, target, order);
      && (forall x :: x in r <==> x in Closure(g, g[target]))
      && DependentsFirst(g, r)
  {
    BuildOrderPartition(g, keys, order);
    BuildOrderEdges(g, keys, order);
    UnknownDependencyFirst(g, keys);
    ClosureIsLeast(g, g[target], g.Keys);
    LinkOrderDependentsFirst(g, order, Closure(g, g[target]));
  }
}
