/**
 * cheng.py: a rule becomes a Cheng-style policy `< action, (u_a, PathSpec ∧ …) >`
 * where each PathSpec `("[t1.t2…]", n)` is one simple path of relationship types
 * from the subject (first head argument) to the object (last head argument).
 */
module Cheng {
  import opened Wrappers
  import opened Text
  import opened TopLevel
  import opened NaiveParser
  import opened Multimap
  import opened Patterns

  /** An adjacency entry `(v, type, negated)`. */
  datatype Edge = Edge(target: string, rel: string, negated: bool)

  /** An element of a returned path: `(type_name, negated)`. */
  datatype Step = Step(rel: string, negated: bool)

  type Graph = map<string, seq<Edge>>

  // ---------------------------------------------------------------------------
  // build_graph

  /** The appends for a fan from u to each of ws: forward `name`, backward `name^{-1}`. */
  function FanOps(u: string, ws: seq<string>, name: string, negated: bool): seq<Op<string, Edge>>
  {
    if ws == [] then []
    else
      var w := ws[|ws| - 1];
      FanOps(u, ws[..|ws| - 1], name, negated) + [Add(u, Edge(w, name, negated)), Add(w, Edge(u, Inverse(name), negated))]
  }

  /** What one body predicate appends: nothing for constraints and unary predicates. */
  function PredOps(p: Pred): seq<Op<string, Edge>>
  {
    if Name(p) == "constraint" || |p.args| < 2 then []
    else FanOps(p.args[0], p.args[1..], p.name, p.negated)
  }

  function GraphOps(body: seq<Pred>): seq<Op<string, Edge>>
  {
    if body == [] then [] else GraphOps(body[..|body| - 1]) + PredOps(body[|body| - 1])
  }

  /** The adjacency list build_graph returns. */
  function GraphOf(body: seq<Pred>): Graph
  {
    Collect(GraphOps(body))
  }

  /** `adj[k]` on the defaultdict, without inserting. */
  function Get(adj: Graph, k: string): seq<Edge>
  {
    if k in adj then adj[k] else []
  }

  method BuildGraph(body: seq<Pred>) returns (adj: Graph)
    ensures adj == GraphOf(body)
  {
    adj := map[];
    var i := 0;
    while i < |body|
      invariant 0 <= i <= |body|
      invariant adj == Collect(GraphOps(body[..i]))
    {
      var p := body[i];
      GraphOpsSnoc(body, i);
      ghost var done := GraphOps(body[..i]);
      if Name(p) != "constraint" && |p.args| >= 2 {
        var name, args, negated := p.name, p.args, p.negated;
        var u := args[0];
        var j := 1;
        FanEmpty(done, u, args, name, negated);
        while j < |args|
          invariant 1 <= j <= |args|
          invariant adj == Collect(done + FanOps(u, args[1..j], name, negated))
        {
          var v := args[j];
          FanStep(done, u, args, j, name, negated);
          adj := adj[u := Get(adj, u) + [Edge(v, name, negated)]];
          adj := adj[v := Get(adj, v) + [Edge(u, Inverse(name), negated)]];
          j := j + 1;
        }
        assert args[1..j] == args[1..];
      } else {
        assert done + PredOps(p) == done;
      }
      i := i + 1;
    }
    assert body[..i] == body;
  }

  lemma GraphOpsSnoc(body: seq<Pred>, i: nat)
    requires i < |body|
    ensures GraphOps(body[..i + 1]) == GraphOps(body[..i]) + PredOps(body[i])
  {
    assert body[..i + 1][..i] == body[..i];
  }

  lemma FanEmpty(done: seq<Op<string, Edge>>, u: string, args: seq<string>, name: string, negated: bool)
    requires |args| >= 1
    ensures Collect(done + FanOps(u, args[1..1], name, negated)) == Collect(done)
  {
    assert args[1..1] == [];
    assert done + FanOps(u, args[1..1], name, negated) == done;
  }

  /** One turn of the inner loop of build_graph: the forward append, then the backward one. */
  lemma FanStep(done: seq<Op<string, Edge>>, u: string, args: seq<string>, j: nat, name: string, negated: bool)
    requires 1 <= j < |args|
    ensures var m := Collect(done + FanOps(u, args[1..j], name, negated));
      var v := args[j];
      var m1 := m[u := Get(m, u) + [Edge(v, name, negated)]];
      Collect(done + FanOps(u, args[1..j + 1], name, negated)) == m1[v := Get(m1, v) + [Edge(u, Inverse(name), negated)]]
  {
    var v := args[j];
    var ws := args[1..j];
    assert args[1..j + 1] == ws + [v];
    assert (ws + [v])[..|ws|] == ws;
    var before := done + FanOps(u, ws, name, negated);
    var e1, e2 := Edge(v, name, negated), Edge(u, Inverse(name), negated);
    assert done + FanOps(u, ws + [v], name, negated) == (before + [Add(u, e1)]) + [Add(v, e2)];
    CollectSnoc(before, Add(u, e1));
    CollectSnoc(before + [Add(u, e1)], Add(v, e2));
  }

  // ---------------------------------------------------------------------------
  // What build_graph appends.

  /** The fan appends, for each target in order, the forward edge then the backward one. */
  lemma {:induction false} FanOpsSpec(u: string, ws: seq<string>, name: string, negated: bool)
    ensures |FanOps(u, ws, name, negated)| == 2 * |ws|
    ensures forall k :: 0 <= k < |ws| ==>
      && FanOps(u, ws, name, negated)[2 * k] == Add(u, Edge(ws[k], name, negated))
      && FanOps(u, ws, name, negated)[2 * k + 1] == Add(ws[k], Edge(u, Inverse(name), negated))
  {
    if ws != [] {
      FanOpsSpec(u, ws[..|ws| - 1], name, negated);
    }
  }

  /**
   * A predicate of arity k >= 2 that is not a constraint adds exactly 2(k-1) edges:
   * args[0] -name-> args[j] and args[j] -name^{-1}-> args[0] for each j >= 1, all
   * carrying its negated flag; every other predicate adds none.
   */
  lemma PredOpsSpec(p: Pred)
    ensures Name(p) == "constraint" || |p.args| < 2 ==> PredOps(p) == []
    ensures Name(p) != "constraint" && |p.args| >= 2 ==>
      && |PredOps(p)| == 2 * (|p.args| - 1)
      && forall j :: 1 <= j < |p.args| ==>
        && PredOps(p)[2 * (j - 1)] == Add(p.args[0], Edge(p.args[j], p.name, p.negated))
        && PredOps(p)[2 * (j - 1) + 1] == Add(p.args[j], Edge(p.args[0], Inverse(p.name), p.negated))
  {
    if Name(p) != "constraint" && |p.args| >= 2 {
      FanOpsSpec(p.args[0], p.args[1..], p.name, p.negated);
    }
  }

  /** Operation i is an Add whose edge has a reverse Add among ops, with the same negated flag. */
  ghost predicate Reversed(ops: seq<Op<string, Edge>>, i: nat)
    requires i < |ops|
  {
    ops[i].Add? ==>
      exists j :: (0 <= j < |ops| && ops[j].Add?
        && ops[j].key == ops[i].item.target && ops[j].item.target == ops[i].key
        && ops[j].item.negated == ops[i].item.negated)
  }

  ghost predicate Paired(ops: seq<Op<string, Edge>>)
  {
    forall i :: 0 <= i < |ops| ==> Reversed(ops, i)
  }

  lemma PairedAppend(a: seq<Op<string, Edge>>, b: seq<Op<string, Edge>>)
    requires Paired(a) && Paired(b)
    ensures Paired(a + b)
  {
    var c := a + b;
    forall i | 0 <= i < |c| ensures Reversed(c, i) {
      if i < |a| {
        assert c[i] == a[i];
        if a[i].Add? {
          assert Reversed(a, i);
          var j :| 0 <= j < |a| && a[j].Add? && a[j].key == a[i].item.target && a[j].item.target == a[i].key
            && a[j].item.negated == a[i].item.negated;
          assert c[j] == a[j];
        }
      } else {
        var i' := i - |a|;
        assert c[i] == b[i'];
        if b[i'].Add? {
          assert Reversed(b, i');
          var j :| 0 <= j < |b| && b[j].Add? && b[j].key == b[i'].item.target && b[j].item.target == b[i'].key
            && b[j].item.negated == b[i'].item.negated;
          assert c[|a| + j] == b[j];
        }
      }
    }
  }

  lemma {:induction false} FanPaired(u: string, ws: seq<string>, name: string, negated: bool)
    ensures Paired(FanOps(u, ws, name, negated))
  {
    if ws != [] {
      var w := ws[|ws| - 1];
      FanPaired(u, ws[..|ws| - 1], name, negated);
      var pair := [Add(u, Edge(w, name, negated)), Add(w, Edge(u, Inverse(name), negated))];
      assert Reversed(pair, 0) by {
        assert pair[1].key == w;
      }
      assert Reversed(pair, 1) by {
        assert pair[0].key == u;
      }
      PairedAppend(FanOps(u, ws[..|ws| - 1], name, negated), pair);
    }
  }

  lemma {:induction false} GraphPaired(body: seq<Pred>)
    ensures Paired(GraphOps(body))
  {
    if body != [] {
      var p := body[|body| - 1];
      GraphPaired(body[..|body| - 1]);
      if Name(p) != "constraint" && |p.args| >= 2 {
        FanPaired(p.args[0], p.args[1..], p.name, p.negated);
      }
      PairedAppend(GraphOps(body[..|body| - 1]), PredOps(p));
    }
  }

  /**
   * Every edge u -> v of the graph has a reverse edge v -> u with the same negated
   * flag; in particular every edge target is itself a key of the adjacency list.
   */
  lemma GraphSymmetric(body: seq<Pred>, u: string, e: Edge)
    requires u in GraphOf(body) && e in GraphOf(body)[u]
    ensures e.target in GraphOf(body)
    ensures exists e' :: e' in GraphOf(body)[e.target] && e'.target == u && e'.negated == e.negated
  {
    var ops := GraphOps(body);
    CollectSpec(ops, u);
    ItemsForAdded(ops, u, e);
    var i :| 0 <= i < |ops| && ops[i] == Add(u, e);
    GraphPaired(body);
    assert Reversed(ops, i);
    var j :| 0 <= j < |ops| && ops[j].Add? && ops[j].key == e.target && ops[j].item.target == u
      && ops[j].item.negated == e.negated;
    CollectSpec(ops, e.target);
    ItemsForHas(ops, j);
  }

  // ---------------------------------------------------------------------------
  // find_all_paths

  function NodesOf(path: seq<string>): set<string>
  {
    set x | x in path
  }

  /** The number of adjacency keys not yet on the path: what the search uses up. */
  function Unvisited(adj: Graph, path: seq<string>): nat
  {
    |adj.Keys - NodesOf(path)|
  }

  lemma UnvisitedStep(adj: Graph, path: seq<string>, start: string)
    ensures start in path ==> Unvisited(adj, path + [start]) == Unvisited(adj, path)
    ensures start in adj && start !in path ==> Unvisited(adj, path + [start]) < Unvisited(adj, path)
  {
    assert NodesOf(path + [start]) == NodesOf(path) + {start};
    if start in path {
      assert start in NodesOf(path);
      assert NodesOf(path + [start]) == NodesOf(path);
    }
    if start in adj && start !in path {
      var before := adj.Keys - NodesOf(path);
      assert start in before;
      assert adj.Keys - NodesOf(path + [start]) == before - {start};
    }
  }

  /** Each path of ps with step st in front. */
  function Prefixed(st: Step, ps: seq<seq<Step>>): (r: seq<seq<Step>>)
    ensures |r| == |ps|
  {
    seq(|ps|, i requires 0 <= i < |ps| => [st] + ps[i])
  }

  /**
   * `find_all_paths(adj, start, end, path)`: the edge-label paths from start to
   * end, in depth-first order, that never revisit a node of the path so far.
   */
  function Paths(adj: Graph, start: string, end: string, path: seq<string>): seq<seq<Step>>
    decreases Unvisited(adj, path), if start in path then 1 else 0, 0
  {
    var p := path + [start];
    if start == end then [[]]
    else if start !in adj then []
    else
      UnvisitedStep(adj, path, start);
      Branches(adj, end, adj[start], p)
  }

  /** The loop over `adj[start]` in find_all_paths, with the path p that already holds start. */
  function Branches(adj: Graph, end: string, es: seq<Edge>, p: seq<string>): seq<seq<Step>>
    decreases Unvisited(adj, p), 0, |es|
  {
    if es == [] then []
    else
      var e := es[|es| - 1];
      Branches(adj, end, es[..|es| - 1], p)
        + (if e.target in p then [] else Prefixed(Step(e.rel, e.negated), Paths(adj, e.target, end, p)))
  }

  method FindAllPaths(adj: Graph, start: string, end: string, path: seq<string>) returns (paths: seq<seq<Step>>)
    ensures paths == Paths(adj, start, end, path)
    decreases Unvisited(adj, path), if start in path then 1 else 0
  {
    var p := path + [start];
    if start == end {
      return [[]];
    }
    if start !in adj {
      return [];
    }
    UnvisitedStep(adj, path, start);
    paths := [];
    var es := adj[start];
    var i := 0;
    while i < |es|
      invariant 0 <= i <= |es|
      invariant paths == Branches(adj, end, es[..i], p)
    {
      var e := es[i];
      assert es[..i + 1][..i] == es[..i];
      if e.target !in p {
        var sub := FindAllPaths(adj, e.target, end, p);
        paths := AppendPrefixed(paths, Step(e.rel, e.negated), sub);
      }
      i := i + 1;
    }
    assert es[..i] == es;
  }

  /** The inner loop of find_all_paths: `for p in new_paths: paths.append([step] + p)`. */
  method AppendPrefixed(paths0: seq<seq<Step>>, st: Step, sub: seq<seq<Step>>) returns (paths: seq<seq<Step>>)
    ensures paths == paths0 + Prefixed(st, sub)
  {
    paths := paths0;
    var j := 0;
    while j < |sub|
      invariant 0 <= j <= |sub|
      invariant paths == paths0 + Prefixed(st, sub[..j])
    {
      assert Prefixed(st, sub[..j + 1]) == Prefixed(st, sub[..j]) + [[st] + sub[j]];
      paths := paths + [[st] + sub[j]];
      j := j + 1;
    }
    assert sub[..j] == sub;
  }

  // ---------------------------------------------------------------------------
  // What find_all_paths returns: exactly the simple walks from start to end.

  /** The `(type_name, negated)` pairs along a walk. */
  function StepsOf(es: seq<Edge>): (r: seq<Step>)
    ensures |r| == |es|
  {
    seq(|es|, k requires 0 <= k < |es| => Step(es[k].rel, es[k].negated))
  }

  /**
   * es is a walk from start to end along adjacency entries that stops at its
   * first arrival at end and never steps onto a node of V or one it has left.
   */
  ghost predicate Walk(adj: Graph, start: string, end: string, es: seq<Edge>, V: set<string>)
    decreases |es|
  {
    if es == [] then start == end
    else
      && start != end && start in adj && es[0] in adj[start]
      && es[0].target !in V && es[0].target != start
      && Walk(adj, es[0].target, end, es[1..], V + {start})
  }

  lemma {:induction false} BranchesSound(adj: Graph, end: string, es: seq<Edge>, p: seq<string>, r: seq<Step>)
    requires r in Branches(adj, end, es, p)
    ensures exists e, x :: (e in es && e.target !in p && x in Paths(adj, e.target, end, p)
      && r == [Step(e.rel, e.negated)] + x)
    decreases |es|
  {
    var init, e := es[..|es| - 1], es[|es| - 1];
    if r in Branches(adj, end, init, p) {
      BranchesSound(adj, end, init, p, r);
      var e', x :| e' in init && e'.target !in p && x in Paths(adj, e'.target, end, p)
        && r == [Step(e'.rel, e'.negated)] + x;
      assert e' in es;
    } else {
      var sub := Paths(adj, e.target, end, p);
      assert e.target !in p && r in Prefixed(Step(e.rel, e.negated), sub);
      var k :| 0 <= k < |sub| && r == [Step(e.rel, e.negated)] + sub[k];
      assert sub[k] in sub;
    }
  }

  lemma {:induction false} BranchesComplete(adj: Graph, end: string, es: seq<Edge>, p: seq<string>, e: Edge, x: seq<Step>)
    requires e in es && e.target !in p && x in Paths(adj, e.target, end, p)
    ensures [Step(e.rel, e.negated)] + x in Branches(adj, end, es, p)
    decreases |es|
  {
    var init, last := es[..|es| - 1], es[|es| - 1];
    if e in init {
      BranchesComplete(adj, end, init, p, e, x);
    } else {
      assert e == last;
      var sub := Paths(adj, e.target, end, p);
      var k :| 0 <= k < |sub| && sub[k] == x;
      assert Prefixed(Step(e.rel, e.negated), sub)[k] == [Step(e.rel, e.negated)] + x;
    }
  }

  /** Every path found is the step list of a simple walk from start to end. */
  lemma {:induction false} PathsSound(adj: Graph, start: string, end: string, path: seq<string>, r: seq<Step>)
    requires r in Paths(adj, start, end, path)
    ensures exists es :: Walk(adj, start, end, es, NodesOf(path)) && StepsOf(es) == r
    decreases Unvisited(adj, path), if start in path then 1 else 0
  {
    if start == end {
      assert Walk(adj, start, end, [], NodesOf(path)) && StepsOf([]) == r;
    } else {
      var p := path + [start];
      PathsStep(adj, start, end, path, r);
      UnvisitedStep(adj, path, start);
      var e, x :| e in adj[start] && e.target !in p && x in Paths(adj, e.target, end, p)
        && r == [Step(e.rel, e.negated)] + x;
      PathsSound(adj, e.target, end, p, x);
      var es' :| Walk(adj, e.target, end, es', NodesOf(p)) && StepsOf(es') == x;
      assert NodesOf(p) == NodesOf(path) + {start};
      WalkCons(adj, start, end, e, es', NodesOf(path));
    }
  }

  /** A path found away from end starts with an edge out of start to a node not on the path. */
  lemma PathsStep(adj: Graph, start: string, end: string, path: seq<string>, r: seq<Step>)
    requires r in Paths(adj, start, end, path) && start != end
    ensures start in adj
    ensures exists e, x :: (e in adj[start] && e.target !in path + [start]
      && x in Paths(adj, e.target, end, path + [start]) && r == [Step(e.rel, e.negated)] + x)
  {
    BranchesSound(adj, end, adj[start], path + [start], r);
  }

  /** One more edge in front of a walk that avoids start and V. */
  lemma WalkCons(adj: Graph, start: string, end: string, e: Edge, es: seq<Edge>, V: set<string>)
    requires start != end && start in adj && e in adj[start] && e.target !in V && e.target != start
    requires Walk(adj, e.target, end, es, V + {start})
    ensures Walk(adj, start, end, [e] + es, V)
    ensures StepsOf([e] + es) == [Step(e.rel, e.negated)] + StepsOf(es)
  {
    var w := [e] + es;
    assert w[0] == e && w[1..] == es;
  }

  /** The step list of every simple walk from start to end is among the paths found. */
  lemma {:induction false} PathsComplete(adj: Graph, start: string, end: string, path: seq<string>, es: seq<Edge>)
    requires Walk(adj, start, end, es, NodesOf(path))
    ensures StepsOf(es) in Paths(adj, start, end, path)
    decreases |es|
  {
    if es != [] {
      var p := path + [start];
      var e := es[0];
      WalkUncons(adj, start, end, es, path);
      PathsComplete(adj, e.target, end, p, es[1..]);
      BranchesComplete(adj, end, adj[start], p, e, StepsOf(es[1..]));
      PathsAway(adj, start, end, path);
    }
  }

  /** The first edge of a simple walk, and the walk after it from a path one node longer. */
  lemma WalkUncons(adj: Graph, start: string, end: string, es: seq<Edge>, path: seq<string>)
    requires Walk(adj, start, end, es, NodesOf(path)) && es != []
    ensures start != end && start in adj && es[0] in adj[start] && es[0].target !in path + [start]
    ensures Walk(adj, es[0].target, end, es[1..], NodesOf(path + [start]))
    ensures StepsOf(es) == [Step(es[0].rel, es[0].negated)] + StepsOf(es[1..])
  {
    assert NodesOf(path + [start]) == NodesOf(path) + {start};
  }

  /** Away from end, the paths from start are the branches over its edges. */
  lemma PathsAway(adj: Graph, start: string, end: string, path: seq<string>)
    requires start != end && start in adj
    ensures Paths(adj, start, end, path) == Branches(adj, end, adj[start], path + [start])
  {
  }

  /**
   * `find_all_paths(adj, s, t)` (with the default empty path) returns exactly the
   * step lists of the simple walks from s to t.
   */
  lemma PathsIff(adj: Graph, s: string, t: string, r: seq<Step>)
    ensures r in Paths(adj, s, t, []) <==> exists es :: Walk(adj, s, t, es, {}) && StepsOf(es) == r
  {
    assert NodesOf([]) == {};
    if r in Paths(adj, s, t, []) {
      PathsSound(adj, s, t, [], r);
    }
    if exists es :: Walk(adj, s, t, es, {}) && StepsOf(es) == r {
      var es: seq<Edge> :| Walk(adj, s, t, es, {}) && StepsOf(es) == r;
      PathsComplete(adj, s, t, [], es);
    }
  }

  // ---------------------------------------------------------------------------
  // format_path_spec

  /** The prefix that marks a negated path spec: "¬ ". */
  const NotMark: string := "\U{AC} "

  function Labels(steps: seq<Step>): (r: seq<string>)
    ensures |r| == |steps|
  {
    seq(|steps|, k requires 0 <= k < |steps| => steps[k].rel)
  }

  predicate AnyNegated(steps: seq<Step>)
  {
    exists k :: 0 <= k < |steps| && steps[k].negated
  }

  /** `("[t1.t2…]", n)` for the labels and the hop count, behind "¬ " when any step is negated. */
  function PathSpec(steps: seq<Step>): string
  {
    var spec := SpecText(Join(Labels(steps), "."), |steps|);
    if AnyNegated(steps) then NotMark + spec else spec
  }

  method FormatPathSpec(edgePath: seq<Step>) returns (spec: string)
    ensures spec == PathSpec(edgePath)
  {
    var types: seq<string> := [];
    var hopCount := |edgePath|;
    var isNegatedPath := false;
    var i := 0;
    while i < |edgePath|
      invariant 0 <= i <= |edgePath|
      invariant types == Labels(edgePath[..i])
      invariant isNegatedPath <==> AnyNegated(edgePath[..i])
    {
      var step := edgePath[i];
      assert edgePath[..i + 1][..i] == edgePath[..i];
      types := types + [step.rel];
      if step.negated {
        isNegatedPath := true;
        assert edgePath[..i + 1][i].negated;
      }
      i := i + 1;
    }
    assert edgePath[..i] == edgePath;
    var pathStr := Join(types, ".");
    spec := "(\"[" + pathStr + "]\", " + NatToString(hopCount) + ")";
    assert spec == SpecText(pathStr, hopCount);
    if isNegatedPath {
      spec := NotMark + spec;
    }
  }

  /** A label the path text can carry unambiguously: no "." and no "]". */
  predicate CleanLabel(l: string)
  {
    '.' !in l && ']' !in l
  }

  /** The bracketed labels and the hop count of an unmarked path spec. */
  function ReadSpecText(t: string): Option<(string, nat)>
  {
    if !(|t| >= 4 && StartsWith(t, "(\"[") && t[|t| - 1] == ')') then None
    else
      var m := t[3..|t| - 1];
      match FindChar(m, ']')
      case None => None
      case Some(i) =>
        var rest := m[i..];
        if !StartsWith(rest, "]\", ") || !IsDigits(rest[4..]) then None
        else Some((m[..i], DigitsValue(rest[4..])))
  }

  /** Reads a path spec back: whether it is negated, its labels and its hop count. */
  function ReadPathSpec(s: string): Option<(bool, seq<string>, nat)>
  {
    var negated := StartsWith(s, NotMark);
    match ReadSpecText(if negated then s[|NotMark|..] else s)
    case None => None
    case Some((content, n)) => Some((negated, if n == 0 then [] else SplitOn(content, '.'), n))
  }

  /** The path text for already joined labels j and hop count n. */
  function SpecText(j: string, n: nat): string
  {
    "(\"[" + j + "]\", " + NatToString(n) + ")"
  }

  lemma ReadSpecTextOf(j: string, n: nat)
    requires ']' !in j
    ensures ReadSpecText(SpecText(j, n)) == Some((j, n))
  {
    var d := NatToString(n);
    var t := SpecText(j, n);
    SpecTextShape(j, n);
    var m := t[3..|t| - 1];
    MiddleParts(j, d, m);
    NatToStringValue(n);
  }

  /** The middle of a path text: the labels up to the first "]", then `", ` and the digits. */
  lemma MiddleParts(j: string, d: string, m: string)
    requires ']' !in j && m == j + "]\", " + d
    ensures FindChar(m, ']') == Some(|j|) && m[..|j|] == j
    ensures StartsWith(m[|j|..], "]\", ") && m[|j|..][4..] == d
  {
    FindCharIs(m, ']', |j|);
    var rest := m[|j|..];
    assert rest == "]\", " + d;
    assert rest[..4] == "]\", " && rest[4..] == d;
  }

  /** The frame of a path text around its labels and hop count. */
  lemma SpecTextShape(j: string, n: nat)
    ensures var t := SpecText(j, n);
      && |t| >= 4 && StartsWith(t, "(\"[") && t[|t| - 1] == ')'
      && t[3..|t| - 1] == j + "]\", " + NatToString(n)
  {
    var t := SpecText(j, n);
    assert t[..3] == "(\"[";
  }

  /** The spec carries the negation mark exactly when some step is negated; behind it is the path text. */
  lemma PathSpecMark(steps: seq<Step>)
    ensures StartsWith(PathSpec(steps), NotMark) <==> AnyNegated(steps)
    ensures (if AnyNegated(steps) then PathSpec(steps)[|NotMark|..] else PathSpec(steps))
      == SpecText(Join(Labels(steps), "."), |steps|)
  {
    var spec := SpecText(Join(Labels(steps), "."), |steps|);
    if AnyNegated(steps) {
      assert PathSpec(steps) == NotMark + spec;
      assert (NotMark + spec)[..|NotMark|] == NotMark;
      assert (NotMark + spec)[|NotMark|..] == spec;
    } else {
      assert PathSpec(steps) == spec;
      assert spec[0] == '(';
    }
  }

  /**
   * A path spec gives back its negation mark, its labels and its hop count,
   * provided no label holds "." or "]".
   */
  lemma PathSpecRoundTrip(steps: seq<Step>)
    requires forall k :: 0 <= k < |steps| ==> CleanLabel(steps[k].rel)
    ensures ReadPathSpec(PathSpec(steps)) == Some((AnyNegated(steps), Labels(steps), |steps|))
  {
    var ls := Labels(steps);
    PathSpecMark(steps);
    JoinNoChar(ls, ".", ']');
    ReadSpecTextOf(Join(ls, "."), |steps|);
    if steps != [] {
      SplitOnJoin(ls, '.');
    }
  }

  // ---------------------------------------------------------------------------
  // Where the labels come from.

  /** Every append of build_graph carries a body atom's name or that name with "^{-1}". */
  lemma {:induction false} GraphOpsLabels(body: seq<Pred>, i: nat)
    requires i < |GraphOps(body)| && GraphOps(body)[i].Add?
    ensures exists p :: (p in body && p.Atom?
      && (GraphOps(body)[i].item.rel == p.name || GraphOps(body)[i].item.rel == Inverse(p.name)))
  {
    var init, last := body[..|body| - 1], body[|body| - 1];
    var a := GraphOps(init);
    if i < |a| {
      GraphOpsLabels(init, i);
      var p :| p in init && p.Atom? && (a[i].item.rel == p.name || a[i].item.rel == Inverse(p.name));
      assert p in body;
    } else {
      assert GraphOps(body) == a + PredOps(last);
      assert GraphOps(body)[i] == PredOps(last)[i - |a|];
      PredOpLabel(last, i - |a|);
      assert last in body;
    }
  }

  lemma PredOpLabel(p: Pred, k: nat)
    requires k < |PredOps(p)|
    ensures p.Atom? && PredOps(p)[k].Add?
    ensures PredOps(p)[k].item.rel == p.name || PredOps(p)[k].item.rel == Inverse(p.name)
  {
    var ws := p.args[1..];
    FanOpsSpec(p.args[0], ws, p.name, p.negated);
    var j := k / 2;
    assert k == 2 * j || k == 2 * j + 1;
    var fan := FanOps(p.args[0], ws, p.name, p.negated);
    assert fan[2 * j] == Add(p.args[0], Edge(ws[j], p.name, p.negated));
    assert fan[2 * j + 1] == Add(ws[j], Edge(p.args[0], Inverse(p.name), p.negated));
  }

  /** Every edge label of the graph is a body atom's name or its inverse. */
  lemma GraphLabels(body: seq<Pred>, u: string, e: Edge)
    requires u in GraphOf(body) && e in GraphOf(body)[u]
    ensures exists p :: p in body && p.Atom? && (e.rel == p.name || e.rel == Inverse(p.name))
  {
    var ops := GraphOps(body);
    CollectSpec(ops, u);
    ItemsForAdded(ops, u, e);
    var i :| 0 <= i < |ops| && ops[i] == Add(u, e);
    GraphOpsLabels(body, i);
  }

  /** Every step of a walk is an entry of the adjacency list. */
  lemma {:induction false} WalkEdges(adj: Graph, start: string, end: string, es: seq<Edge>, V: set<string>, k: nat)
    requires Walk(adj, start, end, es, V) && k < |es|
    ensures exists u :: u in adj && es[k] in adj[u]
    decreases |es|
  {
    if k > 0 {
      WalkEdges(adj, es[0].target, end, es[1..], V + {start}, k - 1);
      assert es[1..][k - 1] == es[k];
    }
  }

  lemma WordLabelClean(name: string)
    requires AllWord(name)
    ensures CleanLabel(name) && CleanLabel(Inverse(name))
  {
    assert Inverse(name)[|name|..] == "^{-1}";
    forall k | 0 <= k < |Inverse(name)| ensures Inverse(name)[k] != '.' && Inverse(name)[k] != ']' {
      if k >= |name| {
        assert Inverse(name)[k] == "^{-1}"[k - |name|];
      }
    }
  }

  /**
   * Over a body whose atoms have word-character names, every path found between
   * two nodes reads back from its spec: the labels and the hop count survive.
   */
  lemma FoundPathRoundTrip(body: seq<Pred>, s: string, t: string, r: seq<Step>)
    requires forall p :: p in body && p.Atom? ==> AllWord(p.name)
    requires r in Paths(GraphOf(body), s, t, [])
    ensures ReadPathSpec(PathSpec(r)) == Some((AnyNegated(r), Labels(r), |r|))
  {
    var adj := GraphOf(body);
    PathsIff(adj, s, t, r);
    var es: seq<Edge> :| Walk(adj, s, t, es, {}) && StepsOf(es) == r;
    forall k | 0 <= k < |r| ensures CleanLabel(r[k].rel) {
      WalkEdges(adj, s, t, es, {}, k);
      var u :| u in adj && es[k] in adj[u];
      GraphLabels(body, u, es[k]);
      var p: Pred :| p in body && p.Atom? && (es[k].rel == p.name || es[k].rel == Inverse(p.name));
      WordLabelClean(p.name);
    }
    PathSpecRoundTrip(r);
  }

  // ---------------------------------------------------------------------------
  // translate_rule

  const And: string := " \U{2227} "

  function PathSpecs(paths: seq<seq<Step>>): (r: seq<string>)
    ensures |r| == |paths|
  {
    seq(|paths|, k requires 0 <= k < |paths| => PathSpec(paths[k]))
  }

  /** `< action, (u_a, spec ∧ spec …) >` */
  function Policy(action: string, specs: seq<string>): string
  {
    "< " + action + ", (u_a, " + Join(specs, And) + ") >"
  }

  /**
   * What translate_rule returns: "" for a text that is not a rule, a rule without
   * a head or with fewer than two head arguments; KeyError when the head is a
   * constraint (it has no "args"); "No Path Found" when no path joins the first
   * head argument to the last; otherwise the policy over all the paths.
   */
  function Translation(rule: string): Result<string>
  {
    Translate(ParseRule(rule, ChengOps))
  }

  /** translate_rule after parse_datalog_rule. */
  function Translate(parsed: Option<(Option<Pred>, seq<Pred>)>): Result<string>
  {
    match parsed
    case None => Ok("")
    case Some((head, body)) =>
      match head
      case None => Ok("")
      case Some(Constraint(_)) => Raised(KeyError("args"))
      case Some(Atom(action, args, _)) =>
        if |args| < 2 then Ok("")
        else
          var paths := Paths(GraphOf(body), args[0], args[|args| - 1], []);
          if paths == [] then Ok("No Path Found") else Ok(Policy(action, PathSpecs(paths)))
  }

  method TranslateRule(ruleStr: string) returns (r: Result<string>)
    ensures r == Translation(ruleStr)
  {
    var parsed := ParseDatalogRule(ruleStr, ChengOps);
    r := TranslateParsed(parsed);
  }

  /** The body of translate_rule after parse_datalog_rule. */
  method TranslateParsed(parsed: Option<(Option<Pred>, seq<Pred>)>) returns (r: Result<string>)
    ensures r == Translate(parsed)
  {
    if parsed.None? {
      return Ok("");
    }
    var (head, body) := parsed.value;
    if head.None? {
      return Ok("");
    }
    if head.value.Constraint? {
      return Raised(KeyError("args"));
    }
    var args := head.value.args;
    if |args| < 2 {
      return Ok("");
    }
    var subjectVar, objectVar, action := args[0], args[|args| - 1], head.value.name;
    var adj := BuildGraph(body);
    var pathsUa := FindAllPaths(adj, subjectVar, objectVar, []);
    if pathsUa == [] {
      return Ok("No Path Found");
    }
    var pathSpecs := FormatPathSpecs(pathsUa);
    return Ok(Policy(action, pathSpecs));
  }

  /** `[format_path_spec(p) for p in paths_ua]` */
  method FormatPathSpecs(paths: seq<seq<Step>>) returns (pathSpecs: seq<string>)
    ensures pathSpecs == PathSpecs(paths)
  {
    pathSpecs := [];
    for i := 0 to |paths|
      invariant |pathSpecs| == i
      invariant forall k :: 0 <= k < i ==> pathSpecs[k] == PathSpec(paths[k])
    {
      var spec := FormatPathSpec(paths[i]);
      pathSpecs := pathSpecs + [spec];
    }
  }

  /** Some simple walk joins s to t. */
  ghost predicate Connected(adj: Graph, s: string, t: string)
  {
    exists es :: Walk(adj, s, t, es, {})
  }

  lemma PathsNonEmptyIff(adj: Graph, s: string, t: string)
    ensures Paths(adj, s, t, []) != [] <==> Connected(adj, s, t)
  {
    var ps := Paths(adj, s, t, []);
    if ps != [] {
      PathsIff(adj, s, t, ps[0]);
    }
    if Connected(adj, s, t) {
      var es :| Walk(adj, s, t, es, {});
      PathsIff(adj, s, t, StepsOf(es));
    }
  }

  lemma PolicyShape(action: string, specs: seq<string>)
    ensures Policy(action, specs) != "" && Policy(action, specs) != "No Path Found"
  {
    assert Policy(action, specs)[0] == '<';
  }

  /**
   * The empty result is exactly the text that is not a rule, has no head or has a
   * head of fewer than two arguments; the error is exactly the constraint head.
   */
  lemma TranslationEmpty(rule: string)
    ensures var parsed := ParseRule(rule, ChengOps);
      Translation(rule) == Ok("") <==>
        parsed.None? || parsed.value.0.None? || (parsed.value.0.value.Atom? && |parsed.value.0.value.args| < 2)
    ensures var parsed := ParseRule(rule, ChengOps);
      Translation(rule).Raised? <==> parsed.Some? && parsed.value.0.Some? && parsed.value.0.value.Constraint?
  {
    match ParseRule(rule, ChengOps)
    case None =>
    case Some((head, body)) =>
      if head.Some? && head.value.Atom? && |head.value.args| >= 2 {
        var args := head.value.args;
        PolicyShape(head.value.name, PathSpecs(Paths(GraphOf(body), args[0], args[|args| - 1], [])));
      }
  }

  /**
   * For a head of at least two arguments: "No Path Found" exactly when no simple
   * walk of the body's graph joins the subject (first argument) to the object
   * (last argument).
   */
  lemma TranslationNoPath(rule: string, action: string, args: seq<string>, negated: bool, body: seq<Pred>)
    requires ParseRule(rule, ChengOps) == Some((Some(Atom(action, args, negated)), body)) && |args| >= 2
    ensures Translation(rule) == Ok("No Path Found") <==> !Connected(GraphOf(body), args[0], args[|args| - 1])
  {
    TranslateNoPath(action, args, negated, body);
  }

  lemma TranslateNoPath(action: string, args: seq<string>, negated: bool, body: seq<Pred>)
    requires |args| >= 2
    ensures Translate(Some((Some(Atom(action, args, negated)), body))) == Ok("No Path Found")
      <==> !Connected(GraphOf(body), args[0], args[|args| - 1])
  {
    var adj, s, t := GraphOf(body), args[0], args[|args| - 1];
    PathsNonEmptyIff(adj, s, t);
    PolicyShape(action, PathSpecs(Paths(adj, s, t, [])));
  }

  /** spec reads back to the labels, negation and hop count of a simple walk from s to t. */
  ghost predicate SpecOfWalk(adj: Graph, s: string, t: string, spec: string)
  {
    exists es :: Walk(adj, s, t, es, {}) && ReadPathSpec(spec) == Some((AnyNegated(StepsOf(es)), Labels(StepsOf(es)), |es|))
  }

  /**
   * When a simple walk joins the subject to the object, the result is the policy
   * over a non-empty list of specs, each of which reads back to the labels,
   * negation and hop count of a simple walk from subject to object.
   */
  lemma TranslationSound(rule: string, action: string, args: seq<string>, negated: bool, body: seq<Pred>)
    requires ParseRule(rule, ChengOps) == Some((Some(Atom(action, args, negated)), body)) && |args| >= 2
    requires Connected(GraphOf(body), args[0], args[|args| - 1])
    ensures exists specs :: (Translation(rule) == Ok(Policy(action, specs)) && |specs| > 0
      && forall k :: 0 <= k < |specs| ==> SpecOfWalk(GraphOf(body), args[0], args[|args| - 1], specs[k]))
  {
    ParseRuleWordNames(rule, ChengOps);
    TranslateSound(action, args, negated, body);
  }

  lemma TranslateSound(action: string, args: seq<string>, negated: bool, body: seq<Pred>)
    requires |args| >= 2 && forall p :: p in body && p.Atom? ==> AllWord(p.name)
    requires Connected(GraphOf(body), args[0], args[|args| - 1])
    ensures exists specs :: (Translate(Some((Some(Atom(action, args, negated)), body))) == Ok(Policy(action, specs))
      && |specs| > 0
      && forall k :: 0 <= k < |specs| ==> SpecOfWalk(GraphOf(body), args[0], args[|args| - 1], specs[k]))
  {
    var adj, s, t := GraphOf(body), args[0], args[|args| - 1];
    PathsNonEmptyIff(adj, s, t);
    SpecsSound(body, s, t);
    var specs := PathSpecs(Paths(adj, s, t, []));
    assert Translate(Some((Some(Atom(action, args, negated)), body))) == Ok(Policy(action, specs));
    assert |specs| > 0 && forall k :: 0 <= k < |specs| ==> SpecOfWalk(adj, s, t, specs[k]);
  }

  /** Every simple walk from the subject to the object has its spec in the policy. */
  lemma TranslationComplete(rule: string, action: string, args: seq<string>, negated: bool, body: seq<Pred>, es: seq<Edge>)
    requires ParseRule(rule, ChengOps) == Some((Some(Atom(action, args, negated)), body)) && |args| >= 2
    requires Walk(GraphOf(body), args[0], args[|args| - 1], es, {})
    ensures exists specs :: Translation(rule) == Ok(Policy(action, specs)) && PathSpec(StepsOf(es)) in specs
  {
    TranslateComplete(action, args, negated, body, es);
  }

  lemma TranslateComplete(action: string, args: seq<string>, negated: bool, body: seq<Pred>, es: seq<Edge>)
    requires |args| >= 2
    requires Walk(GraphOf(body), args[0], args[|args| - 1], es, {})
    ensures exists specs :: (Translate(Some((Some(Atom(action, args, negated)), body))) == Ok(Policy(action, specs))
      && PathSpec(StepsOf(es)) in specs)
  {
    var adj, s, t := GraphOf(body), args[0], args[|args| - 1];
    var paths := Paths(adj, s, t, []);
    PathsIff(adj, s, t, StepsOf(es));
    var k :| 0 <= k < |paths| && paths[k] == StepsOf(es);
    var specs := PathSpecs(paths);
    assert specs[k] == PathSpec(StepsOf(es));
    assert Translate(Some((Some(Atom(action, args, negated)), body))) == Ok(Policy(action, specs));
  }

  /** Each spec of the policy reads back to a simple walk from s to t. */
  lemma SpecsSound(body: seq<Pred>, s: string, t: string)
    requires forall p :: p in body && p.Atom? ==> AllWord(p.name)
    ensures var adj := GraphOf(body); var specs := PathSpecs(Paths(adj, s, t, []));
      forall k :: 0 <= k < |specs| ==> SpecOfWalk(adj, s, t, specs[k])
  {
    var adj := GraphOf(body);
    var paths := Paths(adj, s, t, []);
    var specs := PathSpecs(paths);
    forall k | 0 <= k < |specs| ensures SpecOfWalk(adj, s, t, specs[k]) {
      var r := paths[k];
      FoundPathRoundTrip(body, s, t, r);
      PathsIff(adj, s, t, r);
      var es: seq<Edge> :| Walk(adj, s, t, es, {}) && StepsOf(es) == r;
      assert specs[k] == PathSpec(r);
    }
  }

  // ---------------------------------------------------------------------------
  // One cell of the datalog_actions column in process_csv.

  /** Only rules that start (after stripping) with "can_" or "authorized" are translated. */
  predicate Selected(rule: string)
  {
    StartsWith(Strip(rule), "can_") || StartsWith(Strip(rule), "authorized")
  }

  /**
   * The non-empty translations of the selected lines, in order, or the first
   * error, which ends the run.
   */
  function Kept(lines: seq<string>, select: string -> bool, translate: string -> Result<string>): Result<seq<string>>
  {
    if lines == [] then Ok([])
    else
      match Kept(lines[..|lines| - 1], select, translate)
      case Raised(e) => Raised(e)
      case Ok(ps) =>
        var line := lines[|lines| - 1];
        if !select(line) then Ok(ps)
        else
          match translate(line)
          case Raised(e) => Raised(e)
          case Ok(p) => Ok(if p == "" then ps else ps + [p])
  }

  /**
   * The value a cell gets from a per-rule translator: None when no line gave a
   * policy (the row is not written), else the policies joined by newlines.
   */
  function CellOutput(cell: string, select: string -> bool, translate: string -> Result<string>): Result<Option<string>>
  {
    match Kept(SplitOn(cell, '\n'), select, translate)
    case Raised(e) => Raised(e)
    case Ok(ps) => Ok(if ps == [] then None else Some(Join(ps, "\n")))
  }

  /** The `cheng_policy` value of a cell of the datalog_actions column. */
  function CellPolicy(cell: string): Result<Option<string>>
  {
    CellOutput(cell, Selected, Translation)
  }

  /** The body of the row loop of process_csv. */
  method ConvertCell(datalogAction: string) returns (r: Result<Option<string>>)
    ensures r == CellPolicy(datalogAction)
  {
    var rules := SplitOn(datalogAction, '\n');
    var converted := ConvertRules(rules);
    CellKept(datalogAction, Selected, Translation);
    if converted.Raised? {
      return Raised(converted.error);
    }
    var convertedPolicies := converted.value;
    if convertedPolicies != [] {
      r := Ok(Some(Join(convertedPolicies, "\n")));
    } else {
      r := Ok(None);
    }
  }

  /** The loop over the lines of a cell: translate the selected ones, keep what is not "". */
  method ConvertRules(rules: seq<string>) returns (r: Result<seq<string>>)
    ensures r == Kept(rules, Selected, Translation)
  {
    var convertedPolicies: seq<string> := [];
    for i := 0 to |rules|
      invariant Kept(rules[..i], Selected, Translation) == Ok(convertedPolicies)
    {
      KeptSnoc(rules, i, Selected, Translation);
      var rule := rules[i];
      if Strip(rule) == "" {
        BlankNotSelected(rule);
      } else if Selected(rule) {
        var policy := TranslateRule(rule);
        if policy.Raised? {
          KeptRaisedStays(rules, i + 1, Selected, Translation);
          assert rules[..|rules|] == rules;
          return Raised(policy.error);
        }
        if policy.value != "" {
          convertedPolicies := convertedPolicies + [policy.value];
        }
      }
    }
    assert rules[..|rules|] == rules;
    return Ok(convertedPolicies);
  }

  /** A line that is blank once stripped is never selected. */
  lemma BlankNotSelected(rule: string)
    requires Strip(rule) == ""
    ensures !Selected(rule)
  {
  }

  lemma KeptSnoc(lines: seq<string>, i: nat, select: string -> bool, translate: string -> Result<string>)
    requires i < |lines|
    ensures Kept(lines[..i + 1], select, translate) == match Kept(lines[..i], select, translate)
      case Raised(e) => Raised(e)
      case Ok(ps) =>
        if !select(lines[i]) then Ok(ps)
        else
          match translate(lines[i])
          case Raised(e) => Raised(e)
          case Ok(p) => Ok(if p == "" then ps else ps + [p])
  {
    assert lines[..i + 1][..i] == lines[..i];
  }

  /** Once a line has raised, later lines change nothing. */
  lemma {:induction false} KeptRaisedStays(lines: seq<string>, i: nat, select: string -> bool, translate: string -> Result<string>)
    requires i <= |lines| && Kept(lines[..i], select, translate).Raised?
    ensures Kept(lines, select, translate) == Kept(lines[..i], select, translate)
    decreases |lines| - i
  {
    if i < |lines| {
      KeptSnoc(lines, i, select, translate);
      KeptRaisedStays(lines, i + 1, select, translate);
    } else {
      assert lines[..i] == lines;
    }
  }

  /** A cell fails exactly when one of its selected lines fails. */
  lemma {:induction false} KeptRaised(lines: seq<string>, select: string -> bool, translate: string -> Result<string>)
    ensures Kept(lines, select, translate).Raised? <==>
      exists k :: 0 <= k < |lines| && select(lines[k]) && translate(lines[k]).Raised?
  {
    if lines != [] {
      var init := lines[..|lines| - 1];
      KeptRaised(init, select, translate);
      if exists k :: 0 <= k < |init| && select(init[k]) && translate(init[k]).Raised? {
        var k :| 0 <= k < |init| && select(init[k]) && translate(init[k]).Raised?;
        assert lines[k] == init[k];
      }
      if exists k :: 0 <= k < |lines| && select(lines[k]) && translate(lines[k]).Raised? {
        var k :| 0 <= k < |lines| && select(lines[k]) && translate(lines[k]).Raised?;
        if k < |init| {
          assert init[k] == lines[k];
        }
      }
    }
  }

  /** Otherwise the policies kept are exactly the non-empty translations of selected lines. */
  lemma {:induction false} KeptOk(lines: seq<string>, select: string -> bool, translate: string -> Result<string>, p: string)
    requires Kept(lines, select, translate).Ok?
    ensures p in Kept(lines, select, translate).value <==>
      p != "" && exists k :: 0 <= k < |lines| && select(lines[k]) && translate(lines[k]) == Ok(p)
  {
    if lines != [] {
      var init := lines[..|lines| - 1];
      KeptOk(init, select, translate, p);
      if exists k :: 0 <= k < |init| && select(init[k]) && translate(init[k]) == Ok(p) {
        var k :| 0 <= k < |init| && select(init[k]) && translate(init[k]) == Ok(p);
        assert lines[k] == init[k];
      }
      if exists k :: 0 <= k < |lines| && select(lines[k]) && translate(lines[k]) == Ok(p) {
        var k :| 0 <= k < |lines| && select(lines[k]) && translate(lines[k]) == Ok(p);
        if k < |init| {
          assert init[k] == lines[k];
        }
      }
    }
  }

  lemma CellKept(cell: string, select: string -> bool, translate: string -> Result<string>)
    ensures CellOutput(cell, select, translate).Raised? <==> Kept(SplitOn(cell, '\n'), select, translate).Raised?
    ensures CellOutput(cell, select, translate) == Ok(None) <==> Kept(SplitOn(cell, '\n'), select, translate) == Ok([])
    ensures CellOutput(cell, select, translate).Ok? && CellOutput(cell, select, translate).value.Some? ==>
      var ps := Kept(SplitOn(cell, '\n'), select, translate).value;
      ps != [] && CellOutput(cell, select, translate).value.value == Join(ps, "\n")
  {
  }

  /** For any line filter and translator, a cell fails exactly when one of its selected lines fails. */
  lemma CellOutputRaised(cell: string, select: string -> bool, translate: string -> Result<string>)
    ensures var lines := SplitOn(cell, '\n');
      CellOutput(cell, select, translate).Raised? <==> exists k :: 0 <= k < |lines| && select(lines[k]) && translate(lines[k]).Raised?
  {
    CellKept(cell, select, translate);
    KeptRaised(SplitOn(cell, '\n'), select, translate);
  }

  /**
   * A cell gives no row exactly when every selected line translates to "" (blank
   * lines and lines not selected are skipped).
   */
  lemma CellOutputNone(cell: string, select: string -> bool, translate: string -> Result<string>)
    ensures var lines := SplitOn(cell, '\n');
      CellOutput(cell, select, translate) == Ok(None) <==> forall k :: 0 <= k < |lines| && select(lines[k]) ==> translate(lines[k]) == Ok("")
  {
    CellKept(cell, select, translate);
    KeptNone(SplitOn(cell, '\n'), select, translate);
  }

  /** No policy is kept, and nothing fails, exactly when every selected line translates to "". */
  lemma KeptNone(lines: seq<string>, select: string -> bool, translate: string -> Result<string>)
    ensures Kept(lines, select, translate) == Ok([]) <==> forall k :: 0 <= k < |lines| && select(lines[k]) ==> translate(lines[k]) == Ok("")
  {
    KeptRaised(lines, select, translate);
    if Kept(lines, select, translate).Ok? {
      var ps := Kept(lines, select, translate).value;
      if ps == [] {
        forall k | 0 <= k < |lines| && select(lines[k]) ensures translate(lines[k]) == Ok("") {
          KeptOk(lines, select, translate, translate(lines[k]).value);
        }
      } else {
        KeptOk(lines, select, translate, ps[0]);
      }
    } else {
      var k :| 0 <= k < |lines| && select(lines[k]) && translate(lines[k]).Raised?;
    }
  }

  /** Otherwise the cell's value joins exactly the non-empty translations of its selected lines. */
  lemma CellOutputSome(cell: string, select: string -> bool, translate: string -> Result<string>)
    requires CellOutput(cell, select, translate).Ok? && CellOutput(cell, select, translate).value.Some?
    ensures var lines := SplitOn(cell, '\n');
      exists ps :: (CellOutput(cell, select, translate).value.value == Join(ps, "\n") && ps != []
        && forall p :: p in ps <==> p != "" && exists k :: 0 <= k < |lines| && select(lines[k]) && translate(lines[k]) == Ok(p))
  {
    var lines := SplitOn(cell, '\n');
    CellKept(cell, select, translate);
    var ps := Kept(lines, select, translate).value;
    forall p ensures p in ps <==> p != "" && exists k :: 0 <= k < |lines| && select(lines[k]) && translate(lines[k]) == Ok(p) {
      KeptOk(lines, select, translate, p);
    }
  }
}
