/**
 * The library API's two derived views of a project (`src/lib.rs`): the node
 * and edge lists of the dependency graph shown by the GUI
 * (`parse_and_graph`), and the output directories removed by a clean
 * (`clean_project_and_stream_output`).
 */
module Graph {
  import opened Wrappers
  import opened Seqs
  import opened Config
  import Ordering
  import Dag
  import Builder

  datatype GraphNode = GraphNode(id: string, nodeLabel: string, targetType: string, level: nat)
  datatype GraphEdge = GraphEdge(from: string, to: string)
  datatype ProjectGraph = ProjectGraph(order: Dag.Levels, nodes: seq<GraphNode>, edges: seq<GraphEdge>)

  function Ids(nodes: seq<GraphNode>): (r: seq<string>)
    ensures |r| == |nodes| && forall k :: 0 <= k < |nodes| ==> r[k] == nodes[k].id
  {
    seq(|nodes|, k requires 0 <= k < |nodes| => nodes[k].id)
  }

  /** The node of a target placed in a level: its name as id and label (`nodeLabel`), its type's name. */
  function Node(t: ResolvedTarget, name: string, level: nat): GraphNode {
    GraphNode(name, name, t.targetType.SerdeName(), level)
  }

  /** The nodes of one level: one per name that is a target, in level order. */
  function LevelNodes(targets: Builder.Targets, level: seq<string>, index: nat): (r: seq<GraphNode>)
    ensures Ids(r) == FilterIn(level, targets.Keys)
    ensures forall k :: 0 <= k < |r| ==> r[k].id in targets && r[k] == Node(targets[r[k].id], r[k].id, index)
    decreases |level|
  {
    if |level| == 0 then []
    else
      var rest := LevelNodes(targets, level[1..], index);
      if level[0] in targets then
        var r := [Node(targets[level[0]], level[0], index)] + rest;
        assert Ids(r) == [level[0]] + Ids(rest);
        Seqs.ConcatEntries([Node(targets[level[0]], level[0], index)], rest,
          (n: GraphNode) => n.id in targets && n == Node(targets[n.id], n.id, index));
        r
      else rest
  }

  /** The nodes of the levels from `index` on, each carrying the index of its level. */
  function OrderNodes(targets: Builder.Targets, levels: Dag.Levels, index: nat): (r: seq<GraphNode>)
    ensures forall k :: 0 <= k < |r| ==>
      && r[k].id in targets
      && index <= r[k].level < index + |levels|
      && r[k].id in levels[r[k].level - index]
      && r[k] == Node(targets[r[k].id], r[k].id, r[k].level)
    decreases |levels|
  {
    if |levels| == 0 then []
    else
      var here := LevelNodes(targets, levels[0], index);
      var rest := OrderNodes(targets, levels[1..], index + 1);
      assert forall k :: 0 <= k < |here| ==> here[k].id in levels[0] by {
        forall k | 0 <= k < |here| ensures here[k].id in levels[0] {
          assert Ids(here)[k] in FilterIn(levels[0], targets.Keys);
        }
      }
      assert forall k :: 0 <= k < |rest| ==> levels[1..][rest[k].level - index - 1] == levels[rest[k].level - index];
      here + rest
  }

  /** One edge `dep -> name` per entry of `deps`, in order. */
  function EdgesTo(name: string, deps: seq<string>): (r: seq<GraphEdge>)
    ensures |r| == |deps|
    ensures forall e :: e in r <==> e.to == name && e.from in deps
    decreases |deps|
  {
    if |deps| == 0 then [] else [GraphEdge(deps[0], name)] + EdgesTo(name, deps[1..])
  }

  /**
   * The edges of the targets named, in order, each target contributing one edge per dependency entry:
   * exactly the pairs `dep -> name` of a named target and one of its declared dependencies.
   */
  function OrderEdges(targets: Builder.Targets, names: seq<string>): (r: seq<GraphEdge>)
    ensures forall e :: e in r <==> e.to in names && e.to in targets && e.from in targets[e.to].deps
    decreases |names|
  {
    if |names| == 0 then []
    else (if names[0] in targets then EdgesTo(names[0], targets[names[0]].deps) else []) + OrderEdges(targets, names[1..])
  }

  /**
   * `parse_and_graph` once the build file is parsed: compute the build
   * order (its error becomes the message), then walk the order level by
   * level, a node and the incoming edges for each target.
   */
  function ParseAndGraph(targets: Builder.Targets, keys: seq<string>): (r: Result<ProjectGraph, string>)
    requires IsEnumeration(keys, Builder.DepGraph(targets))
    ensures r.Ok? <==> Dag.BuildOrder(Builder.DepGraph(targets), keys).Ok?
    ensures r.Ok? ==> r.value.order == Dag.BuildOrder(Builder.DepGraph(targets), keys).value
    ensures r.Err? ==> r.error == Dag.Message(Dag.BuildOrder(Builder.DepGraph(targets), keys).error)
  {
    match Dag.BuildOrder(Builder.DepGraph(targets), keys)
    case Err(e) => Err(Dag.Message(e))
    case Ok(order) => Ok(ProjectGraph(order, OrderNodes(targets, order, 0), OrderEdges(targets, Flatten(order))))
  }

  /** When every placed name is a target, the node ids list the order level after level. */
  lemma {:induction false} OrderNodeIds(targets: Builder.Targets, levels: Dag.Levels, index: nat)
    requires forall i, x :: 0 <= i < |levels| && x in levels[i] ==> x in targets
    ensures Ids(OrderNodes(targets, levels, index)) == Flatten(levels)
    decreases |levels|
  {
    if |levels| > 0 {
      var here := LevelNodes(targets, levels[0], index);
      var rest := OrderNodes(targets, levels[1..], index + 1);
      OrderNodeIds(targets, levels[1..], index + 1);
      FilterInAll(levels[0], targets.Keys);
      IdsConcat(here, rest);
    }
  }

  lemma IdsConcat(a: seq<GraphNode>, b: seq<GraphNode>)
    ensures Ids(a + b) == Ids(a) + Ids(b)
  {
  }

  /** Filtering by a set that holds every element changes nothing. */
  lemma {:induction false} FilterInAll(s: seq<string>, keep: set<string>)
    requires forall x :: x in s ==> x in keep
    ensures FilterIn(s, keep) == s
    decreases |s|
  {
    if |s| > 0 {
      FilterInAll(s[1..], keep);
      assert s == [s[0]] + s[1..];
    }
  }

  /**
   * One node per target: the ids are the order's names level after level,
   * without repetition, exactly the project's targets; each node has its
   * name as id and label, the name of its type, and the index of the one
   * level that holds it.
   */
  lemma GraphNodes(targets: Builder.Targets, keys: seq<string>)
    requires IsEnumeration(keys, Builder.DepGraph(targets))
    requires ParseAndGraph(targets, keys).Ok?
    ensures var g := ParseAndGraph(targets, keys).value;
      && Ids(g.nodes) == Flatten(g.order)
      && NoDuplicates(Ids(g.nodes))
      && |g.nodes| == |targets|
      && (forall n :: n in targets <==> n in Ids(g.nodes))
      && (forall k :: 0 <= k < |g.nodes| ==>
            && g.nodes[k].id == g.nodes[k].nodeLabel
            && g.nodes[k].targetType == targets[g.nodes[k].id].targetType.SerdeName()
            && g.nodes[k].level < |g.order|
            && (forall i :: 0 <= i < |g.order| && g.nodes[k].id in g.order[i] ==> g.nodes[k].level == i))
  {
    var order := Dag.BuildOrder(Builder.DepGraph(targets), keys).value;
    var nodes := OrderNodes(targets, order, 0);
    assert ParseAndGraph(targets, keys).value == ProjectGraph(order, nodes, OrderEdges(targets, Flatten(order)));
    OrderPlacesTargets(targets, keys, order);
    OrderNodeIds(targets, order, 0);
    ElementsCard(Flatten(order));
    forall k, i | 0 <= k < |nodes| && 0 <= i < |order| && nodes[k].id in order[i] ensures nodes[k].level == i {
      assert nodes[k].id in order[nodes[k].level];
    }
  }

  /** A build order places every target, and only targets, as many names as targets. */
  lemma OrderPlacesTargets(targets: Builder.Targets, keys: seq<string>, order: Dag.Levels)
    requires IsEnumeration(keys, Builder.DepGraph(targets))
    requires Dag.BuildOrder(Builder.DepGraph(targets), keys) == Ok(order)
    ensures forall i, x :: 0 <= i < |order| && x in order[i] ==> x in targets
    ensures Elements(Flatten(order)) == targets.Keys
    ensures |Flatten(order)| == |targets|
    ensures Dag.Disjoint(order)
  {
    var dg := Builder.DepGraph(targets);
    Dag.BuildOrderPartition(dg, keys, order);
    OrderNamesTargets(targets, keys, order);
    OrderElements(targets, keys, order);
    assert |targets.Keys| == |dg.Keys| by { assert targets.Keys == dg.Keys; }
  }

  /** The names a build order places are exactly the targets. */
  lemma OrderElements(targets: Builder.Targets, keys: seq<string>, order: Dag.Levels)
    requires IsEnumeration(keys, Builder.DepGraph(targets))
    requires Dag.BuildOrder(Builder.DepGraph(targets), keys) == Ok(order)
    ensures Elements(Flatten(order)) == targets.Keys
  {
    Dag.BuildOrderPartition(Builder.DepGraph(targets), keys, order);
    forall x ensures x in Flatten(order) <==> x in targets {
      InFlatten(order, x);
      if x in targets {
        assert Dag.InLevel(order, x);
      }
    }
  }

  /** Every name a build order places is a target. */
  lemma OrderNamesTargets(targets: Builder.Targets, keys: seq<string>, order: Dag.Levels)
    requires IsEnumeration(keys, Builder.DepGraph(targets))
    requires Dag.BuildOrder(Builder.DepGraph(targets), keys) == Ok(order)
    ensures forall i, x :: 0 <= i < |order| && x in order[i] ==> x in targets
  {
    Dag.BuildOrderPartition(Builder.DepGraph(targets), keys, order);
    forall i, x | 0 <= i < |order| && x in order[i] ensures x in targets {
      assert Dag.InLevel(order, x);
    }
  }

  /** How often `dep -> name` occurs among the edges of some names. */
  lemma {:induction false} EdgeCount(targets: Builder.Targets, names: seq<string>, dep: string, name: string)
    requires NoDuplicates(names)
    ensures multiset(OrderEdges(targets, names))[GraphEdge(dep, name)] ==
      if name in names && name in targets then multiset(targets[name].deps)[dep] else 0
    decreases |names|
  {
    if |names| > 0 {
      EdgeCount(targets, names[1..], dep, name);
      if names[0] in targets {
        EdgesToCount(names[0], targets[names[0]].deps, dep, name);
      }
    }
  }

  lemma {:induction false} EdgesToCount(to: string, deps: seq<string>, dep: string, name: string)
    ensures multiset(EdgesTo(to, deps))[GraphEdge(dep, name)] == if to == name then multiset(deps)[dep] else 0
    decreases |deps|
  {
    if |deps| > 0 {
      EdgesToCount(to, deps[1..], dep, name);
      assert deps == [deps[0]] + deps[1..];
      assert multiset(deps) == multiset{deps[0]} + multiset(deps[1..]);
    }
  }

  /** For every target and each entry of its deps there is exactly one edge from the dependency to the target. */
  lemma GraphEdges(targets: Builder.Targets, keys: seq<string>, dep: string, name: string)
    requires IsEnumeration(keys, Builder.DepGraph(targets))
    requires ParseAndGraph(targets, keys).Ok?
    ensures var g := ParseAndGraph(targets, keys).value;
      multiset(g.edges)[GraphEdge(dep, name)] == if name in targets then multiset(targets[name].deps)[dep] else 0
  {
    var g := ParseAndGraph(targets, keys).value;
    GraphNodes(targets, keys);
    EdgeCount(targets, Flatten(g.order), dep, name);
  }

  /** The node type names are the spellings the build file uses, and read back as the same type. */
  lemma NodeTypeNames(t: ResolvedTarget, name: string, level: nat)
    ensures Node(t, name, level).targetType in {"executable", "static_lib", "shared_lib"}
    ensures ParseTargetType(Node(t, name, level).targetType) == Some(t.targetType)
  {
    TargetTypeRoundTrip(t.targetType);
  }

  // ---------------------------------------------------------------------------
  // Cleaning
  // ---------------------------------------------------------------------------

  /** The output directories of the targets, in the map's iteration order, then sorted and de-duplicated. */
  function CleanDirs(targets: Builder.Targets, keys: seq<string>): (r: seq<string>)
    requires forall k :: k in keys ==> k in targets
    ensures Ordering.StrictlySorted(r)
    ensures forall d :: d in r <==> exists i :: 0 <= i < |keys| && targets[keys[i]].outputDir == d
  {
    var dirs := seq(|keys|, i requires 0 <= i < |keys| => targets[keys[i]].outputDir);
    assert forall d :: d in dirs <==> exists i :: 0 <= i < |keys| && targets[keys[i]].outputDir == d by {
      forall d | exists i :: 0 <= i < |keys| && targets[keys[i]].outputDir == d ensures d in dirs {
        var i :| 0 <= i < |keys| && targets[keys[i]].outputDir == d;
        assert dirs[i] == d;
      }
    }
    Ordering.SortDedup(dirs)
  }

  /** A strictly sorted list is fixed by its elements. */
  lemma StrictlySortedUnique(a: seq<string>, b: seq<string>)
    requires Ordering.StrictlySorted(a) && Ordering.StrictlySorted(b)
    requires forall x :: x in a <==> x in b
    ensures a == b
  {
    StrictlySortedNoDuplicates(a);
    StrictlySortedNoDuplicates(b);
    NoDuplicatesCard(a);
    NoDuplicatesCard(b);
    assert Elements(a) == Elements(b);
    Ordering.SortedUnique(a, b);
  }

  lemma {:induction false} StrictlySortedNoDuplicates(s: seq<string>)
    requires Ordering.StrictlySorted(s)
    ensures NoDuplicates(s)
    decreases |s|
  {
    if |s| > 0 {
      assert forall i, j :: 0 <= i < j < |s[1..]| ==> s[1..][i] == s[i + 1] && s[1..][j] == s[j + 1];
      StrictlySortedNoDuplicates(s[1..]);
      forall j | 0 <= j < |s[1..]| ensures s[1..][j] != s[0] {
        assert s[1..][j] == s[j + 1];
      }
    }
  }

  /**
   * The directories removed by a clean are every target's output directory,
   * each once, in ascending order, whatever order the map iterates in.
   */
  lemma CleanDirsOrderIndependent(targets: Builder.Targets, keys1: seq<string>, keys2: seq<string>)
    requires IsEnumeration(keys1, targets) && IsEnumeration(keys2, targets)
    ensures CleanDirs(targets, keys1) == CleanDirs(targets, keys2)
    ensures forall d :: d in CleanDirs(targets, keys1) <==> exists n :: n in targets && targets[n].outputDir == d
  {
    var r1 := CleanDirs(targets, keys1);
    var r2 := CleanDirs(targets, keys2);
    forall d ensures d in r1 <==> exists n :: n in targets && targets[n].outputDir == d {
      if exists n :: n in targets && targets[n].outputDir == d {
        var n :| n in targets && targets[n].outputDir == d;
        var i :| 0 <= i < |keys1| && keys1[i] == n;
      }
    }
    forall d ensures d in r2 <==> exists n :: n in targets && targets[n].outputDir == d {
      if exists n :: n in targets && targets[n].outputDir == d {
        var n :| n in targets && targets[n].outputDir == d;
        var i :| 0 <= i < |keys2| && keys2[i] == n;
      }
    }
    StrictlySortedUnique(r1, r2);
  }
}
