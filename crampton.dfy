/**
 * crampton.py: a rule becomes a Crampton-style path condition, the labels of a
 * shortest walk from the subject (first head argument) to the object (last head
 * argument) joined with ".", over a graph of the body's positive predicates.
 */
module Crampton {
  import opened Wrappers
  import opened Text
  import opened TopLevel
  import opened NaiveParser
  import opened Multimap
  import opened Patterns

  /** An adjacency entry `(neighbor, label)`. */
  datatype Arc = Arc(target: string, rel: string)

  type Graph = map<string, seq<Arc>>

  // ---------------------------------------------------------------------------
  // build_dependency_graph

  /** The predicates build_dependency_graph looks at: not named "constraint", not negated. */
  predicate Counted(p: Pred)
  {
    Name(p) != "constraint" && !IsNegated(p)
  }

  /** For each target w in order: register w, then u -name-> w and w -name^{-1}-> u. */
  function FanOps(u: string, ws: seq<string>, name: string): seq<Op<string, Arc>>
  {
    if ws == [] then []
    else
      var w := ws[|ws| - 1];
      FanOps(u, ws[..|ws| - 1], name) + [Touch(w), Add(u, Arc(w, name)), Add(w, Arc(u, Inverse(name)))]
  }

  /**
   * What one body predicate does to adj: nothing for a skipped one; otherwise it
   * registers args[0] and fans out from it to the other arguments (for one
   * argument that is the registration alone, for two it is the arity-2 branch).
   */
  function PredOps(p: Pred): seq<Op<string, Arc>>
  {
    if !Counted(p) || p.args == [] then []
    else [Touch(p.args[0])] + FanOps(p.args[0], p.args[1..], p.name)
  }

  function GraphOps(body: seq<Pred>): seq<Op<string, Arc>>
  {
    if body == [] then [] else GraphOps(body[..|body| - 1]) + PredOps(body[|body| - 1])
  }

  /** The dictionary build_dependency_graph returns. */
  function GraphOf(body: seq<Pred>): Graph
  {
    Collect(GraphOps(body))
  }

  method BuildDependencyGraph(bodyPreds: seq<Pred>) returns (adj: Graph)
    ensures adj == GraphOf(bodyPreds)
  {
    adj := map[];
    for i := 0 to |bodyPreds|
      invariant adj == Collect(GraphOps(bodyPreds[..i]))
    {
      assert bodyPreds[..i + 1][..i] == bodyPreds[..i];
      adj := AddPredicate(adj, bodyPreds[i], GraphOps(bodyPreds[..i]));
    }
    assert bodyPreds[..|bodyPreds|] == bodyPreds;
  }

  /** One turn of the loop of build_dependency_graph, on the dictionary built from done. */
  method AddPredicate(adj0: Graph, pred: Pred, ghost done: seq<Op<string, Arc>>) returns (adj: Graph)
    requires adj0 == Collect(done)
    ensures adj == Collect(done + PredOps(pred))
  {
    adj := adj0;
    if Name(pred) == "constraint" || IsNegated(pred) {
      assert done + PredOps(pred) == done;
    } else if |pred.args| == 1 {
      var u := pred.args[0];
      UnaryStep(done, pred);
      if u !in adj {
        adj := adj[u := []];
      }
    } else if |pred.args| == 2 {
      var u, v := pred.args[0], pred.args[1];
      BinaryStep(done, pred);
      if u !in adj {
        adj := adj[u := []];
      }
      if v !in adj {
        adj := adj[v := []];
      }
      adj := adj[u := adj[u] + [Arc(v, pred.name)]];
      adj := adj[v := adj[v] + [Arc(u, Inverse(pred.name))]];
    } else if |pred.args| > 2 {
      var u := pred.args[0];
      CollectSnoc(done, Touch(u));
      if u !in adj {
        adj := adj[u := []];
      }
      adj := AddFan(adj, u, pred.args, pred.name, done + [Touch(u)]);
      assert done + [Touch(u)] + FanOps(u, pred.args[1..], pred.name) == done + PredOps(pred);
    } else {
      assert done + PredOps(pred) == done;
    }
  }

  /** The loop over args[1..] of a predicate of more than two arguments, fanning out from u. */
  method AddFan(adj0: Graph, u: string, args: seq<string>, name: string, ghost pre: seq<Op<string, Arc>>) returns (adj: Graph)
    requires |args| >= 1 && u in adj0 && adj0 == Collect(pre)
    ensures adj == Collect(pre + FanOps(u, args[1..], name))
  {
    adj := adj0;
    assert args[1..1] == [];
    assert pre + FanOps(u, args[1..1], name) == pre;
    for j := 1 to |args|
      invariant u in adj
      invariant adj == Collect(pre + FanOps(u, args[1..j], name))
    {
      var v := args[j];
      FanStep(pre, u, args, j, name);
      if v !in adj {
        adj := adj[v := []];
      }
      adj := adj[u := adj[u] + [Arc(v, name)]];
      adj := adj[v := adj[v] + [Arc(u, Inverse(name))]];
    }
    assert args[1..|args|] == args[1..];
  }

  lemma UnaryStep(done: seq<Op<string, Arc>>, p: Pred)
    requires Counted(p) && |p.args| == 1
    ensures Collect(done + PredOps(p)) == Insert(Collect(done), Touch(p.args[0]))
  {
    assert p.args[1..] == [];
    assert done + PredOps(p) == done + [Touch(p.args[0])];
    CollectSnoc(done, Touch(p.args[0]));
  }

  lemma BinaryStep(done: seq<Op<string, Arc>>, p: Pred)
    requires Counted(p) && |p.args| == 2
    ensures var u, v := p.args[0], p.args[1];
      Collect(done + PredOps(p))
        == Insert(Insert(Insert(Insert(Collect(done), Touch(u)), Touch(v)), Add(u, Arc(v, p.name))), Add(v, Arc(u, Inverse(p.name))))
  {
    var u, v := p.args[0], p.args[1];
    assert p.args[1..] == [v];
    assert [v][..0] == [];
    var o1, o2, o3, o4 := Touch(u), Touch(v), Add(u, Arc(v, p.name)), Add(v, Arc(u, Inverse(p.name)));
    assert FanOps(u, [v], p.name) == [o2, o3, o4];
    assert PredOps(p) == [o1, o2, o3, o4];
    assert done + PredOps(p) == done + [o1] + [o2] + [o3] + [o4];
    CollectSnoc(done, o1);
    CollectSnoc(done + [o1], o2);
    CollectSnoc(done + [o1] + [o2], o3);
    CollectSnoc(done + [o1] + [o2] + [o3], o4);
  }

  /** One turn of the loop over args[1..]: register v, then the forward and the backward append. */
  lemma FanStep(pre: seq<Op<string, Arc>>, u: string, args: seq<string>, j: nat, name: string)
    requires 1 <= j < |args|
    ensures var v := args[j];
      Collect(pre + FanOps(u, args[1..j + 1], name))
        == Insert(Insert(Insert(Collect(pre + FanOps(u, args[1..j], name)), Touch(v)), Add(u, Arc(v, name))), Add(v, Arc(u, Inverse(name))))
  {
    var v := args[j];
    var ws := args[1..j];
    assert args[1..j + 1] == ws + [v];
    assert (ws + [v])[..|ws|] == ws;
    var fan := FanOps(u, ws, name);
    var o1, o2, o3 := Touch(v), Add(u, Arc(v, name)), Add(v, Arc(u, Inverse(name)));
    assert FanOps(u, ws + [v], name) == fan + [o1, o2, o3];
    assert pre + FanOps(u, args[1..j + 1], name) == (pre + fan) + [o1, o2, o3];
    CollectSnoc3(pre + fan, o1, o2, o3);
  }

  lemma CollectSnoc3(ops: seq<Op<string, Arc>>, o1: Op<string, Arc>, o2: Op<string, Arc>, o3: Op<string, Arc>)
    ensures Collect(ops + [o1, o2, o3]) == Insert(Insert(Insert(Collect(ops), o1), o2), o3)
  {
    assert ops + [o1, o2, o3] == ops + [o1] + [o2] + [o3];
    CollectSnoc(ops, o1);
    CollectSnoc(ops + [o1], o2);
    CollectSnoc(ops + [o1] + [o2], o3);
  }

  // ---------------------------------------------------------------------------
  // What build_dependency_graph builds.

  lemma {:induction false} FanOpsSpec(u: string, ws: seq<string>, name: string)
    ensures |FanOps(u, ws, name)| == 3 * |ws|
    ensures forall k :: 0 <= k < |ws| ==>
      && FanOps(u, ws, name)[3 * k] == Touch(ws[k])
      && FanOps(u, ws, name)[3 * k + 1] == Add(u, Arc(ws[k], name))
      && FanOps(u, ws, name)[3 * k + 2] == Add(ws[k], Arc(u, Inverse(name)))
  {
    if ws != [] {
      FanOpsSpec(u, ws[..|ws| - 1], name);
    }
  }

  /**
   * A constraint or a negated predicate changes nothing; a unary one registers
   * its argument and adds no edge; one of two arguments u, v registers u and v
   * and adds u -name-> v and v -name^{-1}-> u; one of more arguments registers
   * args[0] and, for each later argument in turn, registers it and adds the same
   * pair of edges between it and args[0].
   */
  lemma PredOpsSpec(p: Pred)
    ensures !Counted(p) ==> PredOps(p) == []
    ensures Counted(p) && |p.args| == 1 ==> PredOps(p) == [Touch(p.args[0])]
    ensures Counted(p) && |p.args| == 2 ==>
      PredOps(p) == [Touch(p.args[0]), Touch(p.args[1]), Add(p.args[0], Arc(p.args[1], p.name)), Add(p.args[1], Arc(p.args[0], Inverse(p.name)))]
    ensures Counted(p) && |p.args| >= 1 ==>
      && |PredOps(p)| == 3 * |p.args| - 2
      && PredOps(p)[0] == Touch(p.args[0])
      && forall j :: 1 <= j < |p.args| ==>
        && PredOps(p)[3 * j - 2] == Touch(p.args[j])
        && PredOps(p)[3 * j - 1] == Add(p.args[0], Arc(p.args[j], p.name))
        && PredOps(p)[3 * j] == Add(p.args[j], Arc(p.args[0], Inverse(p.name)))
  {
    if Counted(p) && |p.args| >= 1 {
      PredOpsFanned(p);
      var ops := PredOps(p);
      if |p.args| == 1 {
        assert ops == [ops[0]];
      }
      if |p.args| == 2 {
        assert ops == [ops[0], ops[1], ops[2], ops[3]];
      }
    }
  }

  /** The operations of a counted predicate, position by position. */
  lemma PredOpsFanned(p: Pred)
    requires Counted(p) && |p.args| >= 1
    ensures |PredOps(p)| == 3 * |p.args| - 2
    ensures PredOps(p)[0] == Touch(p.args[0])
    ensures forall j :: 1 <= j < |p.args| ==>
      && PredOps(p)[3 * j - 2] == Touch(p.args[j])
      && PredOps(p)[3 * j - 1] == Add(p.args[0], Arc(p.args[j], p.name))
      && PredOps(p)[3 * j] == Add(p.args[j], Arc(p.args[0], Inverse(p.name)))
  {
    var u, ws := p.args[0], p.args[1..];
    var fan := FanOps(u, ws, p.name);
    FanOpsSpec(u, ws, p.name);
    assert PredOps(p) == [Touch(u)] + fan;
    forall j | 1 <= j < |p.args|
      ensures PredOps(p)[3 * j - 2] == Touch(p.args[j])
      ensures PredOps(p)[3 * j - 1] == Add(u, Arc(p.args[j], p.name))
      ensures PredOps(p)[3 * j] == Add(p.args[j], Arc(u, Inverse(p.name)))
    {
      var k := j - 1;
      assert ws[k] == p.args[j];
      assert 3 * j - 2 == 1 + 3 * k;
    }
  }

  /** How an operation of PredOps(p) relates to p: its key and its edge's target are arguments, its label p's name or its inverse. */
  predicate FromPred(op: Op<string, Arc>, p: Pred)
  {
    && p.Atom? && op.key in p.args
    && (op.Add? ==> op.item.target in p.args && (op.item.rel == p.name || op.item.rel == Inverse(p.name)))
  }

  lemma PredOpFrom(p: Pred, k: nat)
    requires k < |PredOps(p)|
    ensures FromPred(PredOps(p)[k], p)
  {
    assert Counted(p) && |p.args| >= 1;
    if k == 0 {
      PredOpsFanned(p);
      assert p.args[0] in p.args;
    } else {
      var j := Thirds(k);
      FanOpFrom(p, k, j);
    }
  }

  lemma FanOpFrom(p: Pred, k: nat, j: nat)
    requires Counted(p) && k < |PredOps(p)| && j >= 1 && 3 * j - 2 <= k <= 3 * j
    ensures FromPred(PredOps(p)[k], p)
  {
    PredOpsAt(p, j);
    var u, v := p.args[0], p.args[j];
    assert u in p.args && v in p.args;
    if k == 3 * j - 2 {
      assert PredOps(p)[k] == Touch(v);
    } else if k == 3 * j - 1 {
      assert PredOps(p)[k] == Add(u, Arc(v, p.name));
    } else {
      assert PredOps(p)[k] == Add(v, Arc(u, Inverse(p.name)));
    }
  }

  /** The three operations of argument j > 0 of a counted predicate. */
  lemma PredOpsAt(p: Pred, j: nat)
    requires Counted(p) && j >= 1 && 3 * j - 2 < |PredOps(p)|
    ensures j < |p.args|
    ensures |PredOps(p)| == 3 * |p.args| - 2
    ensures PredOps(p)[3 * j - 2] == Touch(p.args[j])
    ensures PredOps(p)[3 * j - 1] == Add(p.args[0], Arc(p.args[j], p.name))
    ensures PredOps(p)[3 * j] == Add(p.args[j], Arc(p.args[0], Inverse(p.name)))
  {
    PredOpsFanned(p);
  }

  /** The argument whose operations hold position k > 0. */
  lemma Thirds(k: nat) returns (j: nat)
    requires k > 0
    ensures j >= 1 && 3 * j - 2 <= k <= 3 * j
  {
    j := (k + 2) / 3;
  }

  /** Each argument of a counted predicate is named by one of its operations. */
  lemma PredOpsMention(p: Pred, x: string)
    requires Counted(p) && x in p.args
    ensures Mentions(PredOps(p), x)
  {
    PredOpsFanned(p);
    var j :| 0 <= j < |p.args| && p.args[j] == x;
    if j > 0 {
      assert PredOps(p)[3 * j - 2].key == x;
    } else {
      assert PredOps(p)[0].key == x;
    }
  }

  lemma {:induction false} GraphOpsFrom(body: seq<Pred>, i: nat)
    requires i < |GraphOps(body)|
    ensures exists p :: p in body && Counted(p) && FromPred(GraphOps(body)[i], p)
  {
    var init, last := body[..|body| - 1], body[|body| - 1];
    var a := GraphOps(init);
    if i < |a| {
      GraphOpsFrom(init, i);
      var p :| p in init && Counted(p) && FromPred(a[i], p);
      assert p in body;
      assert GraphOps(body)[i] == a[i];
    } else {
      assert GraphOps(body)[i] == PredOps(last)[i - |a|];
      PredOpFrom(last, i - |a|);
      assert last in body;
    }
  }

  lemma {:induction false} GraphOpsMention(body: seq<Pred>, p: Pred, x: string)
    requires p in body && Counted(p) && x in p.args
    ensures Mentions(GraphOps(body), x)
  {
    var init, last := body[..|body| - 1], body[|body| - 1];
    var a := GraphOps(init);
    assert GraphOps(body) == a + PredOps(last);
    if p == last {
      PredOpsMention(p, x);
      var k :| 0 <= k < |PredOps(p)| && PredOps(p)[k].key == x;
      assert GraphOps(body)[|a| + k] == PredOps(p)[k];
    } else {
      assert p in init;
      GraphOpsMention(init, p, x);
      var k :| 0 <= k < |a| && a[k].key == x;
      assert GraphOps(body)[k] == a[k];
    }
  }

  /** The keys of adj are exactly the arguments of the counted predicates (unary ones included). */
  lemma GraphKeys(body: seq<Pred>, x: string)
    ensures x in GraphOf(body) <==> exists p :: p in body && Counted(p) && x in p.args
  {
    var ops := GraphOps(body);
    CollectSpec(ops, x);
    if x in GraphOf(body) {
      var i :| 0 <= i < |ops| && ops[i].key == x;
      GraphOpsFrom(body, i);
    }
    if exists p :: p in body && Counted(p) && x in p.args {
      var p :| p in body && Counted(p) && x in p.args;
      GraphOpsMention(body, p, x);
    }
  }

  /**
   * Every edge joins two keys of adj and is labelled with the name, or the
   * inverse of the name, of a counted predicate holding both ends as arguments.
   */
  lemma GraphArc(body: seq<Pred>, u: string, a: Arc)
    requires u in GraphOf(body) && a in GraphOf(body)[u]
    ensures a.target in GraphOf(body)
    ensures exists p :: (p in body && Counted(p) && u in p.args && a.target in p.args
      && (a.rel == p.name || a.rel == Inverse(p.name)))
  {
    var ops := GraphOps(body);
    CollectSpec(ops, u);
    ItemsForAdded(ops, u, a);
    var i :| 0 <= i < |ops| && ops[i] == Add(u, a);
    GraphOpsFrom(body, i);
    var p :| p in body && Counted(p) && FromPred(ops[i], p);
    GraphKeys(body, a.target);
  }

  // ---------------------------------------------------------------------------
  // find_path: a breadth-first search.

  /** A queue entry `(node, path)`: a node and the labels of the edges that reached it. */
  datatype Entry = Entry(node: string, path: seq<string>)

  /** Every node adj knows of, as a key or as a neighbour. */
  ghost function Nodes(adj: Graph): set<string>
  {
    adj.Keys + set u, a | u in adj && a in adj[u] :: a.target
  }

  function Queued(q: seq<Entry>): set<string>
  {
    set k | 0 <= k < |q| :: q[k].node
  }

  /** No node has two entries in q. */
  predicate OnceEach(q: seq<Entry>)
  {
    forall i, j :: 0 <= i < j < |q| ==> q[i].node != q[j].node
  }

  /**
   * The loop over the neighbours of a node reached by path: each neighbour not
   * yet visited is marked visited and queued with the path extended by its label.
   */
  function Expand(arcs: seq<Arc>, path: seq<string>, visited: set<string>): (seq<Entry>, set<string>)
  {
    if arcs == [] then ([], visited)
    else
      var (queued, seen) := Expand(arcs[..|arcs| - 1], path, visited);
      var a := arcs[|arcs| - 1];
      if a.target in seen then (queued, seen)
      else (queued + [Entry(a.target, path + [a.rel])], seen + {a.target})
  }

  /**
   * The BFS loop from a queue and a visited set: the path of the first entry
   * popped for goal, or None once the queue runs dry.
   */
  function Search(adj: Graph, goal: string, queue: seq<Entry>, visited: set<string>): Option<seq<string>>
    decreases |Nodes(adj) - visited|, |queue|
  {
    if queue == [] then None
    else
      var e := queue[0];
      if e.node == goal then Some(e.path)
      else if e.node in adj then
        var (queued, seen) := Expand(adj[e.node], e.path, visited);
        ExpandGrows(adj, e.node, e.path, visited);
        Search(adj, goal, queue[1..] + queued, seen)
      else Search(adj, goal, queue[1..], visited)
  }

  /**
   * The entries the BFS loop appends to its queue from a state on, in order,
   * until it pops goal or the queue runs dry.
   */
  function Enqueued(adj: Graph, goal: string, queue: seq<Entry>, visited: set<string>): seq<Entry>
    decreases |Nodes(adj) - visited|, |queue|
  {
    if queue == [] || queue[0].node == goal then []
    else if queue[0].node in adj then
      var r := Expand(adj[queue[0].node], queue[0].path, visited);
      ExpandGrows(adj, queue[0].node, queue[0].path, visited);
      r.0 + Enqueued(adj, goal, queue[1..] + r.0, r.1)
    else Enqueued(adj, goal, queue[1..], visited)
  }

  /** Every entry find_path puts on its queue, the initial one first. */
  function EnqueuedBy(adj: Graph, start: string, end: string): seq<Entry>
  {
    if start !in adj || end !in adj then []
    else [Entry(start, [])] + Enqueued(adj, end, [Entry(start, [])], {start})
  }

  /** find_path: None unless both ends are nodes, else the search from `[(start, [])]`. */
  function FoundPath(adj: Graph, start: string, end: string): Option<seq<string>>
  {
    if start !in adj || end !in adj then None
    else Search(adj, end, [Entry(start, [])], {start})
  }

  /**
   * find_path, together with the entries it appended to its queue (ghost): no
   * node is queued twice over the whole run.
   */
  method FindPath(adj: Graph, start: string, end: string) returns (r: Option<seq<string>>, ghost pushed: seq<Entry>)
    ensures r == FoundPath(adj, start, end)
    ensures pushed == EnqueuedBy(adj, start, end) && OnceEach(pushed)
  {
    pushed := [];
    if start !in adj || end !in adj {
      r := None;
      return;
    }
    var queue := [Entry(start, [])];
    var visited := {start};
    pushed := queue;
    while queue != []
      invariant Search(adj, end, queue, visited) == FoundPath(adj, start, end)
      invariant pushed + Enqueued(adj, end, queue, visited) == EnqueuedBy(adj, start, end)
      decreases |Nodes(adj) - visited|, |queue|
    {
      ghost var q0 := queue;
      var curr, path := queue[0].node, queue[0].path;
      queue := queue[1..];
      if curr == end {
        assert pushed + [] == pushed;
        FindPathEnqueuesOnce(adj, start, end);
        r := Some(path);
        return;
      }
      if curr in adj {
        ghost var visited0, pushed0 := visited, pushed;
        ExpandGrows(adj, curr, path, visited0);
        queue, visited := VisitNeighbours(adj[curr], path, queue, visited);
        pushed := pushed + Expand(adj[curr], path, visited0).0;
        PushedStep(adj, end, q0, visited0, pushed0);
      }
    }
    assert pushed + [] == pushed;
    FindPathEnqueuesOnce(adj, start, end);
    r := None;
  }

  /** The loop over the neighbours of the popped node: the unvisited ones are marked and queued. */
  method VisitNeighbours(arcs: seq<Arc>, path: seq<string>, queue0: seq<Entry>, visited0: set<string>)
      returns (queue: seq<Entry>, visited: set<string>)
    ensures queue == queue0 + Expand(arcs, path, visited0).0
    ensures visited == Expand(arcs, path, visited0).1
  {
    queue, visited := queue0, visited0;
    for j := 0 to |arcs|
      invariant queue == queue0 + Expand(arcs[..j], path, visited0).0
      invariant visited == Expand(arcs[..j], path, visited0).1
    {
      var neighbor, rel := arcs[j].target, arcs[j].rel;
      ExpandSnoc(arcs, j, path, visited0);
      if neighbor !in visited {
        visited := visited + {neighbor};
        var newPath := path + [rel];
        queue := queue + [Entry(neighbor, newPath)];
      }
    }
    assert arcs[..|arcs|] == arcs;
  }

  lemma ExpandSnoc(arcs: seq<Arc>, j: nat, path: seq<string>, visited: set<string>)
    requires j < |arcs|
    ensures var (queued, seen) := Expand(arcs[..j], path, visited);
      var a := arcs[j];
      Expand(arcs[..j + 1], path, visited)
        == if a.target in seen then (queued, seen) else (queued + [Entry(a.target, path + [a.rel])], seen + {a.target})
  {
    assert arcs[..j + 1][..j] == arcs[..j];
  }

  /**
   * A neighbour is queued only if it was not visited, and is visited from then
   * on, so no node is queued twice; every neighbour ends up visited, and each
   * queued entry extends path by the label of an edge to its node.
   */
  lemma {:induction false} ExpandSpec(arcs: seq<Arc>, path: seq<string>, visited: set<string>)
    ensures var (queued, seen) := Expand(arcs, path, visited);
      && seen == visited + Queued(queued)
      && (forall k :: 0 <= k < |arcs| ==> arcs[k].target in seen)
      && (forall k :: 0 <= k < |queued| ==>
            queued[k].node !in visited && exists a :: a in arcs && queued[k] == Entry(a.target, path + [a.rel]))
      && OnceEach(queued)
  {
    if arcs != [] {
      var init := arcs[..|arcs| - 1];
      var a := arcs[|arcs| - 1];
      ExpandSpec(init, path, visited);
      var (q, seen) := Expand(init, path, visited);
      forall k | 0 <= k < |arcs| ensures arcs[k].target in Expand(arcs, path, visited).1 {
        if k < |init| {
          assert arcs[k] == init[k];
        }
      }
      forall k | 0 <= k < |q| ensures exists b :: b in arcs && q[k] == Entry(b.target, path + [b.rel]) {
        var b :| b in init && q[k] == Entry(b.target, path + [b.rel]);
        assert b in arcs;
      }
      if a.target !in seen {
        var q' := q + [Entry(a.target, path + [a.rel])];
        assert Queued(q') == Queued(q) + {a.target} by {
          forall x ensures x in Queued(q') <==> x in Queued(q) + {x} && (x in Queued(q) || x == a.target) {
            if x in Queued(q') {
              var k :| 0 <= k < |q'| && q'[k].node == x;
              if k < |q| {
                assert q[k] == q'[k];
              }
            }
            if x in Queued(q) {
              var k :| 0 <= k < |q| && q[k].node == x;
              assert q'[k] == q[k];
            }
            if x == a.target {
              assert q'[|q|].node == x;
            }
          }
        }
        forall i, j | 0 <= i < j < |q'| ensures q'[i].node != q'[j].node {
          if j == |q| {
            assert q'[i] == q[i];
            assert q[i].node in Queued(q);
          }
        }
      }
    }
  }

  /** Expanding a node either queues nothing or visits a node of adj that was not visited. */
  lemma ExpandGrows(adj: Graph, u: string, path: seq<string>, visited: set<string>)
    requires u in adj
    ensures var (queued, seen) := Expand(adj[u], path, visited);
      && visited <= seen
      && (queued == [] ==> seen == visited)
      && (queued != [] ==> |Nodes(adj) - seen| < |Nodes(adj) - visited|)
  {
    var (queued, seen) := Expand(adj[u], path, visited);
    ExpandSpec(adj[u], path, visited);
    if queued == [] {
      assert Queued(queued) == {};
    } else {
      var x := queued[0].node;
      var a :| a in adj[u] && queued[0] == Entry(a.target, path + [a.rel]);
      assert x in Nodes(adj);
      assert x in Queued(queued);
      assert Queued(queued) <= Nodes(adj) by {
        forall y | y in Queued(queued) ensures y in Nodes(adj) {
          var k :| 0 <= k < |queued| && queued[k].node == y;
          var b :| b in adj[u] && queued[k] == Entry(b.target, path + [b.rel]);
        }
      }
      SubsetSmaller(Nodes(adj) - seen, Nodes(adj) - visited, x);
    }
  }

  lemma SubsetSmaller<T>(a: set<T>, b: set<T>, x: T)
    requires a <= b && x in b && x !in a
    ensures |a| < |b|
  {
    var c := a + {x};
    assert |c| == |a| + 1;
    assert b == c + (b - c);
    assert c * (b - c) == {};
  }

  // ---------------------------------------------------------------------------
  // What find_path finds.

  /** One step of a walk: from a node along its adjacency entry `(to, rel)`. */
  datatype Hop = Hop(from: string, rel: string, to: string)

  /** hs is a walk of adj from s to t: each hop follows an adjacency entry. */
  ghost predicate IsWalk(adj: Graph, s: string, hs: seq<Hop>, t: string)
    decreases |hs|
  {
    if hs == [] then s == t
    else
      var h := hs[|hs| - 1];
      && h.to == t && h.from in adj && Arc(h.to, h.rel) in adj[h.from]
      && IsWalk(adj, s, hs[..|hs| - 1], h.from)
  }

  function LabelsOf(hs: seq<Hop>): (r: seq<string>)
    ensures |r| == |hs|
  {
    if hs == [] then [] else LabelsOf(hs[..|hs| - 1]) + [hs[|hs| - 1].rel]
  }

  /** Some walk joins s to t. */
  ghost predicate Connected(adj: Graph, s: string, t: string)
  {
    exists hs :: IsWalk(adj, s, hs, t)
  }

  /** Some walk from s to t carries exactly the labels p. */
  ghost predicate Reaches(adj: Graph, s: string, p: seq<string>, t: string)
  {
    exists hs :: IsWalk(adj, s, hs, t) && LabelsOf(hs) == p
  }

  /** No walk from s to t has fewer than n hops. */
  ghost predicate Shortest(adj: Graph, s: string, t: string, n: nat)
  {
    forall hs :: IsWalk(adj, s, hs, t) ==> n <= |hs|
  }

  /** Every neighbour of x, if x has an entry, is visited. */
  ghost predicate Expanded(adj: Graph, x: string, visited: set<string>)
  {
    x in adj ==> forall a :: a in adj[x] ==> a.target in visited
  }

  /** Path lengths along the queue never decrease and differ by at most one. */
  predicate Levelled(q: seq<Entry>)
  {
    forall i, j :: 0 <= i <= j < |q| ==> |q[i].path| <= |q[j].path| <= |q[i].path| + 1
  }

  ghost predicate Sound(adj: Graph, s: string, q: seq<Entry>)
  {
    forall k :: 0 <= k < |q| ==> Reaches(adj, s, q[k].path, q[k].node) && Shortest(adj, s, q[k].node, |q[k].path|)
  }

  /**
   * The state of the BFS from s looking for goal: every queued entry holds the
   * labels of a shortest walk to its node; the queue is levelled; a visited node
   * that is no longer queued has all its neighbours visited; goal, if visited,
   * is still queued.
   */
  ghost predicate Inv(adj: Graph, s: string, goal: string, q: seq<Entry>, visited: set<string>)
  {
    && s in visited
    && Queued(q) <= visited
    && Sound(adj, s, q)
    && Levelled(q)
    && (forall x :: x in visited && x !in Queued(q) ==> Expanded(adj, x, visited))
    && (goal in visited ==> goal in Queued(q))
  }

  lemma InvInit(adj: Graph, s: string, goal: string)
    ensures Inv(adj, s, goal, [Entry(s, [])], {s})
  {
    var q := [Entry(s, [])];
    assert IsWalk(adj, s, [], s) && LabelsOf([]) == [];
    assert Queued(q) == {s} by {
      assert q[0].node == s;
    }
  }

  /** A walk shorter than the front of the queue ends at a node visited and already expanded. */
  lemma {:induction false} FrontDone(adj: Graph, s: string, goal: string, q: seq<Entry>, visited: set<string>, hs: seq<Hop>, v: string)
    requires Inv(adj, s, goal, q, visited) && q != []
    requires IsWalk(adj, s, hs, v)
    ensures |hs| < |q[0].path| ==> v in visited && v !in Queued(q)
    decreases |hs|
  {
    if |hs| < |q[0].path| {
      forall k | 0 <= k < |q| ensures q[k].node != v {
        assert Shortest(adj, s, q[k].node, |q[k].path|);
        assert |q[0].path| <= |q[k].path|;
      }
      if hs != [] {
        var h := hs[|hs| - 1];
        FrontDone(adj, s, goal, q, visited, hs[..|hs| - 1], h.from);
        assert Expanded(adj, h.from, visited);
      }
    }
  }

  /** Once the queue is empty, every node a walk from s reaches is visited. */
  lemma {:induction false} DrainedReach(adj: Graph, s: string, goal: string, visited: set<string>, hs: seq<Hop>, v: string)
    requires Inv(adj, s, goal, [], visited)
    ensures IsWalk(adj, s, hs, v) ==> v in visited
    decreases |hs|
  {
    if IsWalk(adj, s, hs, v) && hs != [] {
      var h := hs[|hs| - 1];
      DrainedReach(adj, s, goal, visited, hs[..|hs| - 1], h.from);
      assert h.from !in Queued([]);
      assert Expanded(adj, h.from, visited);
    }
  }

  lemma WalkSnoc(adj: Graph, s: string, hs: seq<Hop>, u: string, a: Arc)
    requires IsWalk(adj, s, hs, u) && u in adj && a in adj[u]
    ensures IsWalk(adj, s, hs + [Hop(u, a.rel, a.target)], a.target)
    ensures LabelsOf(hs + [Hop(u, a.rel, a.target)]) == LabelsOf(hs) + [a.rel]
  {
    var hs' := hs + [Hop(u, a.rel, a.target)];
    assert hs'[..|hs|] == hs;
  }

  /** A neighbour of the front node not yet visited is reached, by the front path and one more label, and no sooner. */
  lemma NewEntrySound(adj: Graph, s: string, goal: string, q: seq<Entry>, visited: set<string>, a: Arc)
    requires Inv(adj, s, goal, q, visited) && q != []
    requires q[0].node in adj && a in adj[q[0].node] && a.target !in visited
    ensures Reaches(adj, s, q[0].path + [a.rel], a.target)
    ensures Shortest(adj, s, a.target, |q[0].path| + 1)
  {
    var e := q[0];
    assert Reaches(adj, s, e.path, e.node);
    var hs :| IsWalk(adj, s, hs, e.node) && LabelsOf(hs) == e.path;
    WalkSnoc(adj, s, hs, e.node, a);
    forall hs2: seq<Hop> | IsWalk(adj, s, hs2, a.target) ensures |e.path| + 1 <= |hs2| {
      assert hs2 != [];
      var h := hs2[|hs2| - 1];
      FrontDone(adj, s, goal, q, visited, hs2[..|hs2| - 1], h.from);
      assert Arc(h.to, h.rel) in adj[h.from];
      assert !Expanded(adj, h.from, visited);
    }
  }

  lemma LevelledStep(q: seq<Entry>, more: seq<Entry>)
    requires Levelled(q) && q != []
    requires forall k :: 0 <= k < |more| ==> |more[k].path| == |q[0].path| + 1
    ensures Levelled(q[1..] + more)
  {
    var q' := q[1..] + more;
    forall i, j | 0 <= i <= j < |q'| ensures |q'[i].path| <= |q'[j].path| <= |q'[i].path| + 1 {
      if j < |q| - 1 {
        assert q'[i] == q[i + 1] && q'[j] == q[j + 1];
      } else if i < |q| - 1 {
        assert q'[i] == q[i + 1];
        assert |q[0].path| <= |q[i + 1].path|;
      }
    }
  }

  /** Popping the front entry, which is not goal, and expanding it keeps the invariant. */
  lemma InvStep(adj: Graph, s: string, goal: string, q: seq<Entry>, visited: set<string>)
    requires Inv(adj, s, goal, q, visited) && q != [] && q[0].node != goal
    ensures var e := q[0];
      var (more, seen) := if e.node in adj then Expand(adj[e.node], e.path, visited) else ([], visited);
      Inv(adj, s, goal, q[1..] + more, seen)
  {
    var e := q[0];
    var arcs := if e.node in adj then adj[e.node] else [];
    var r := Expand(arcs, e.path, visited);
    assert r == if e.node in adj then Expand(adj[e.node], e.path, visited) else ([], visited);
    InvAfter(adj, s, goal, q, visited, arcs, r.0, r.1);
  }

  lemma InvAfter(adj: Graph, s: string, goal: string, q: seq<Entry>, visited: set<string>, arcs: seq<Arc>, more: seq<Entry>, seen: set<string>)
    requires Inv(adj, s, goal, q, visited) && q != [] && q[0].node != goal
    requires arcs == (if q[0].node in adj then adj[q[0].node] else [])
    requires (more, seen) == Expand(arcs, q[0].path, visited)
    ensures Inv(adj, s, goal, q[1..] + more, seen)
  {
    ExpandSpec(arcs, q[0].path, visited);
    QueuedCons(q);
    QueuedAppend(q[1..], more);
    SoundStep(adj, s, goal, q, visited, arcs, more);
    ExpandLonger(arcs, q[0].path, more);
    LevelledStep(q, more);
    ExpandedStep(adj, s, goal, q, visited, arcs, more, seen);
  }

  /**
   * Popping the front and appending what its expansion queues keeps every queued
   * node visited and no node queued twice; the new entries were not visited before.
   */
  lemma FrontierStep(q: seq<Entry>, visited: set<string>, arcs: seq<Arc>, path: seq<string>)
    requires q != [] && Queued(q) <= visited && OnceEach(q)
    ensures var r := Expand(arcs, path, visited);
      && visited <= r.1 && Queued(q[1..] + r.0) <= r.1 && OnceEach(q[1..] + r.0)
      && Queued(r.0) * visited == {}
  {
    var r := Expand(arcs, path, visited);
    ExpandSpec(arcs, path, visited);
    QueuedCons(q);
    QueuedAppend(q[1..], r.0);
    var q' := q[1..] + r.0;
    forall i, j | 0 <= i < j < |q'| ensures q'[i].node != q'[j].node {
      if j < |q| - 1 {
        assert q'[i] == q[i + 1] && q'[j] == q[j + 1];
      } else if i < |q| - 1 {
        assert q'[i] == q[i + 1] && q'[j] == r.0[j - (|q| - 1)];
        assert q[i + 1].node in Queued(q);
      } else {
        assert q'[i] == r.0[i - (|q| - 1)] && q'[j] == r.0[j - (|q| - 1)];
      }
    }
    forall x | x in Queued(r.0) ensures x !in visited {
      var k :| 0 <= k < |r.0| && r.0[k].node == x;
    }
  }

  lemma OnceEachCons(e: Entry, w: seq<Entry>)
    requires OnceEach(w) && e.node !in Queued(w)
    ensures OnceEach([e] + w)
  {
    var q := [e] + w;
    forall i, j | 0 <= i < j < |q| ensures q[i].node != q[j].node {
      assert q[j] == w[j - 1];
      assert w[j - 1].node in Queued(w);
      if i > 0 {
        assert q[i] == w[i - 1];
      }
    }
  }

  lemma OnceEachTail(q: seq<Entry>)
    requires q != [] && OnceEach(q)
    ensures q[0].node !in Queued(q[1..])
  {
  }

  /** One turn of the loop: what it appends, then what the loop appends afterwards. */
  lemma EnqueuedFront(adj: Graph, goal: string, q: seq<Entry>, visited: set<string>)
    requires q != [] && q[0].node != goal
    ensures var r := Expand(if q[0].node in adj then adj[q[0].node] else [], q[0].path, visited);
      Enqueued(adj, goal, q, visited) == r.0 + Enqueued(adj, goal, q[1..] + r.0, r.1)
  {
    if q[0].node !in adj {
      assert q[1..] + [] == q[1..];
    }
  }

  /** The ghost bookkeeping of FindPath across one turn that expands the popped node. */
  lemma PushedStep(adj: Graph, goal: string, q: seq<Entry>, visited: set<string>, pushed: seq<Entry>)
    requires q != [] && q[0].node != goal && q[0].node in adj
    ensures var r := Expand(adj[q[0].node], q[0].path, visited);
      (pushed + r.0) + Enqueued(adj, goal, q[1..] + r.0, r.1) == pushed + Enqueued(adj, goal, q, visited)
  {
    EnqueuedFront(adj, goal, q, visited);
  }

  /**
   * From a state whose queued nodes are visited and distinct, the queue together
   * with everything the loop appends later holds no node twice, and nothing
   * appended later was visited in this state.
   */
  lemma {:induction false} EnqueuedOnce(adj: Graph, goal: string, q: seq<Entry>, visited: set<string>)
    requires Queued(q) <= visited && OnceEach(q)
    ensures var t := Enqueued(adj, goal, q, visited);
      OnceEach(q + t) && Queued(t) * visited == {}
    decreases |Nodes(adj) - visited|, |q|
  {
    if q == [] || q[0].node == goal {
      assert q + [] == q;
    } else {
      var e := q[0];
      var arcs := if e.node in adj then adj[e.node] else [];
      var r := Expand(arcs, e.path, visited);
      FrontierStep(q, visited, arcs, e.path);
      var next := q[1..] + r.0;
      if e.node in adj {
        ExpandGrows(adj, e.node, e.path, visited);
      } else {
        assert next == q[1..];
      }
      EnqueuedOnce(adj, goal, next, r.1);
      var t' := Enqueued(adj, goal, next, r.1);
      EnqueuedFront(adj, goal, q, visited);
      EnqueuedOnceStep(q, r.0, t', visited, r.1);
    }
  }

  /** The step of EnqueuedOnce: the popped node is visited, and nothing queued after it was. */
  lemma EnqueuedOnceStep(q: seq<Entry>, more: seq<Entry>, later: seq<Entry>, visited: set<string>, seen: set<string>)
    requires q != [] && Queued(q) <= visited && OnceEach(q) && visited <= seen
    requires Queued(more) * visited == {}
    requires OnceEach((q[1..] + more) + later) && Queued(later) * seen == {}
    ensures OnceEach(q + (more + later)) && Queued(more + later) * visited == {}
  {
    var e := q[0];
    QueuedCons(q);
    OnceEachTail(q);
    QueuedAppend(q[1..] + more, later);
    QueuedAppend(q[1..], more);
    QueuedAppend(more, later);
    assert e.node in visited;
    assert e.node in Queued(more) ==> e.node in Queued(more) * visited;
    assert e.node in Queued(later) ==> e.node in Queued(later) * seen;
    OnceEachCons(e, (q[1..] + more) + later);
    assert q + (more + later) == [e] + ((q[1..] + more) + later);
  }

  /** find_path puts no node on its queue twice over its whole run. */
  lemma FindPathEnqueuesOnce(adj: Graph, start: string, end: string)
    ensures OnceEach(EnqueuedBy(adj, start, end))
  {
    if start in adj && end in adj {
      var q := [Entry(start, [])];
      assert Queued(q) == {start} by {
        assert q[0].node == start;
      }
      EnqueuedOnce(adj, end, q, {start});
    }
  }

  /** Entries queued from a node have paths one label longer than its own. */
  lemma ExpandLonger(arcs: seq<Arc>, path: seq<string>, more: seq<Entry>)
    requires forall k :: 0 <= k < |more| ==> exists a :: a in arcs && more[k] == Entry(a.target, path + [a.rel])
    ensures forall k :: 0 <= k < |more| ==> |more[k].path| == |path| + 1
  {
    forall k | 0 <= k < |more| ensures |more[k].path| == |path| + 1 {
      var a :| a in arcs && more[k] == Entry(a.target, path + [a.rel]);
    }
  }

  lemma QueuedCons(q: seq<Entry>)
    requires q != []
    ensures Queued(q) == {q[0].node} + Queued(q[1..])
  {
    forall x ensures x in Queued(q) <==> x == q[0].node || x in Queued(q[1..]) {
      if x in Queued(q) {
        var k :| 0 <= k < |q| && q[k].node == x;
        if k > 0 {
          assert q[1..][k - 1] == q[k];
        }
      }
      if x in Queued(q[1..]) {
        var k :| 0 <= k < |q[1..]| && q[1..][k].node == x;
        assert q[k + 1] == q[1..][k];
      }
    }
  }

  lemma QueuedAppend(a: seq<Entry>, b: seq<Entry>)
    ensures Queued(a + b) == Queued(a) + Queued(b)
  {
    var c := a + b;
    forall x ensures x in Queued(c) <==> x in Queued(a) || x in Queued(b) {
      if x in Queued(c) {
        var k :| 0 <= k < |c| && c[k].node == x;
        if k < |a| {
          assert c[k] == a[k];
        } else {
          assert c[k] == b[k - |a|];
        }
      }
      if x in Queued(a) {
        var k :| 0 <= k < |a| && a[k].node == x;
        assert c[k] == a[k];
      }
      if x in Queued(b) {
        var k :| 0 <= k < |b| && b[k].node == x;
        assert c[|a| + k] == b[k];
      }
    }
  }

  /** The entries left behind the front keep their shortest walks, and the new ones get theirs. */
  lemma SoundStep(adj: Graph, s: string, goal: string, q: seq<Entry>, visited: set<string>, arcs: seq<Arc>, more: seq<Entry>)
    requires Inv(adj, s, goal, q, visited) && q != []
    requires arcs == if q[0].node in adj then adj[q[0].node] else []
    requires forall k :: 0 <= k < |more| ==>
      more[k].node !in visited && exists a :: a in arcs && more[k] == Entry(a.target, q[0].path + [a.rel])
    ensures Sound(adj, s, q[1..] + more)
  {
    var q' := q[1..] + more;
    forall k | 0 <= k < |q'| ensures Reaches(adj, s, q'[k].path, q'[k].node) && Shortest(adj, s, q'[k].node, |q'[k].path|) {
      if k < |q| - 1 {
        assert q'[k] == q[k + 1];
      } else {
        var m := more[k - (|q| - 1)];
        assert q'[k] == m;
        var a :| a in arcs && m == Entry(a.target, q[0].path + [a.rel]);
        NewEntrySound(adj, s, goal, q, visited, a);
      }
    }
  }

  /** After the pop, the popped node joins the expanded ones: all its neighbours are now visited. */
  lemma ExpandedStep(adj: Graph, s: string, goal: string, q: seq<Entry>, visited: set<string>, arcs: seq<Arc>, more: seq<Entry>, seen: set<string>)
    requires Inv(adj, s, goal, q, visited) && q != []
    requires arcs == if q[0].node in adj then adj[q[0].node] else []
    requires seen == visited + Queued(more) && forall k :: 0 <= k < |arcs| ==> arcs[k].target in seen
    requires Queued(q) == {q[0].node} + Queued(q[1..])
    requires Queued(q[1..] + more) == Queued(q[1..]) + Queued(more)
    ensures forall x :: x in seen && x !in Queued(q[1..] + more) ==> Expanded(adj, x, seen)
  {
    forall x | x in seen && x !in Queued(q[1..] + more) ensures Expanded(adj, x, seen) {
      if x == q[0].node {
        if x in adj {
          forall b | b in adj[x] ensures b.target in seen {
            var k :| 0 <= k < |arcs| && arcs[k] == b;
          }
        }
      } else {
        assert Expanded(adj, x, visited);
      }
    }
  }

  /** What the search from a state satisfying Inv returns. */
  lemma {:induction false} SearchCorrect(adj: Graph, s: string, goal: string, q: seq<Entry>, visited: set<string>)
    requires Inv(adj, s, goal, q, visited)
    ensures var r := Search(adj, goal, q, visited);
      && (r.Some? ==> Reaches(adj, s, r.value, goal) && Shortest(adj, s, goal, |r.value|))
      && (r.None? ==> !Connected(adj, s, goal))
    decreases |Nodes(adj) - visited|, |q|
  {
    if q == [] {
      forall hs: seq<Hop> ensures !IsWalk(adj, s, hs, goal) {
        DrainedReach(adj, s, goal, visited, hs, goal);
      }
    } else if q[0].node != goal {
      var e := q[0];
      InvStep(adj, s, goal, q, visited);
      if e.node in adj {
        var (more, seen) := Expand(adj[e.node], e.path, visited);
        ExpandGrows(adj, e.node, e.path, visited);
        SearchCorrect(adj, s, goal, q[1..] + more, seen);
      } else {
        assert q[1..] + [] == q[1..];
        SearchCorrect(adj, s, goal, q[1..], visited);
      }
    }
  }

  /** The search find_path starts, from `[(start, [])]` with start visited. */
  lemma SearchFromStart(adj: Graph, start: string, end: string)
    ensures var r := Search(adj, end, [Entry(start, [])], {start});
      && (r.Some? ==> Reaches(adj, start, r.value, end) && Shortest(adj, start, end, |r.value|))
      && (r.None? ==> !Connected(adj, start, end))
  {
    InvInit(adj, start, end);
    SearchCorrect(adj, start, end, [Entry(start, [])], {start});
  }

  /**
   * find_path returns None exactly when start or end is not a node or no walk
   * joins them; otherwise it returns the labels of a walk from start to end with
   * no fewer hops than any other; the empty list exactly when start == end.
   */
  lemma FindPathSpec(adj: Graph, start: string, end: string)
    ensures var r := FoundPath(adj, start, end);
      && (r.None? <==> start !in adj || end !in adj || !Connected(adj, start, end))
      && (r.Some? ==> Reaches(adj, start, r.value, end) && Shortest(adj, start, end, |r.value|))
      && (r == Some([]) <==> start in adj && start == end)
  {
    var r := FoundPath(adj, start, end);
    if start in adj && end in adj {
      SearchFromStart(adj, start, end);
      if r.Some? {
        var hs :| IsWalk(adj, start, hs, end) && LabelsOf(hs) == r.value;
        assert |hs| == |r.value|;
      }
    }
  }

  // ---------------------------------------------------------------------------
  // translate_rule

  /**
   * What translate_rule returns: None for a text that is not a rule or a rule
   * without a head; KeyError when the head is a constraint (it has no "args");
   * "" for a head of fewer than two arguments or when find_path returns None or
   * the empty list; otherwise the labels joined with ".".
   */
  function Translation(rule: string): Result<Option<string>>
  {
    Translate(ParseRule(rule, CramptonOps))
  }

  /** translate_rule after parse_datalog_rule. */
  function Translate(parsed: Option<(Option<Pred>, seq<Pred>)>): Result<Option<string>>
  {
    match parsed
    case None => Ok(None)
    case Some((head, body)) =>
      match head
      case None => Ok(None)
      case Some(Constraint(_)) => Raised(KeyError("args"))
      case Some(Atom(_, args, _)) =>
        if |args| < 2 then Ok(Some(""))
        else
          match FoundPath(GraphOf(body), args[0], args[|args| - 1])
          case None => Ok(Some(""))
          case Some(path) => if path == [] then Ok(Some("")) else Ok(Some(Join(path, ".")))
  }

  method TranslateRule(ruleStr: string) returns (r: Result<Option<string>>)
    ensures r == Translation(ruleStr)
  {
    var parsed := ParseDatalogRule(ruleStr, CramptonOps);
    r := TranslateParsed(parsed);
  }

  /** The body of translate_rule after parse_datalog_rule. */
  method TranslateParsed(parsed: Option<(Option<Pred>, seq<Pred>)>) returns (r: Result<Option<string>>)
    ensures r == Translate(parsed)
  {
    if parsed.None? {
      return Ok(None);
    }
    var (head, body) := parsed.value;
    if head.None? {
      return Ok(None);
    }
    if head.value.Constraint? {
      return Raised(KeyError("args"));
    }
    var args := head.value.args;
    if |args| < 2 {
      return Ok(Some(""));
    }
    var subjectVar, objectVar := args[0], args[|args| - 1];
    var adj := BuildDependencyGraph(body);
    var path, pushed := FindPath(adj, subjectVar, objectVar);
    if path.None? {
      if subjectVar == objectVar {
        return Ok(Some(""));
      }
      return Ok(Some(""));
    }
    if |path.value| == 0 {
      return Ok(Some(""));
    }
    return Ok(Some(Join(path.value, ".")));
  }

  /**
   * None exactly for a text that is not a rule or a rule without a head; KeyError
   * exactly for a constraint head; "" for an atom head of fewer than two arguments.
   */
  lemma TranslationNone(rule: string)
    ensures var parsed := ParseRule(rule, CramptonOps);
      Translation(rule) == Ok(None) <==> parsed.None? || parsed.value.0.None?
    ensures var parsed := ParseRule(rule, CramptonOps);
      Translation(rule).Raised? <==> parsed.Some? && parsed.value.0.Some? && parsed.value.0.value.Constraint?
    ensures var parsed := ParseRule(rule, CramptonOps);
      (parsed.Some? && parsed.value.0.Some? && parsed.value.0.value.Atom? && |parsed.value.0.value.args| < 2)
        ==> Translation(rule) == Ok(Some(""))
  {
    TranslateShape(ParseRule(rule, CramptonOps));
  }

  lemma TranslateShape(parsed: Option<(Option<Pred>, seq<Pred>)>)
    ensures Translate(parsed) == Ok(None) <==> parsed.None? || parsed.value.0.None?
    ensures Translate(parsed).Raised? <==> parsed.Some? && parsed.value.0.Some? && parsed.value.0.value.Constraint?
    ensures (parsed.Some? && parsed.value.0.Some? && parsed.value.0.value.Atom? && |parsed.value.0.value.args| < 2)
      ==> Translate(parsed) == Ok(Some(""))
  {
  }

  /** A graph label of a body of named atoms is non-empty and holds no ".". */
  lemma GraphLabelClean(body: seq<Pred>, u: string, a: Arc)
    requires forall p :: p in body && p.Atom? ==> |p.name| > 0 && AllWord(p.name)
    requires u in GraphOf(body) && a in GraphOf(body)[u]
    ensures a.rel != [] && '.' !in a.rel
  {
    GraphArc(body, u, a);
    var p :| p in body && Counted(p) && u in p.args && a.target in p.args && (a.rel == p.name || a.rel == Inverse(p.name));
    LabelsClean(p.name);
  }

  /** A word-character name and its inverse are non-empty labels without ".". */
  lemma LabelsClean(name: string)
    requires |name| > 0 && AllWord(name)
    ensures '.' !in name && Inverse(name) != [] && '.' !in Inverse(name)
  {
    forall k | 0 <= k < |name| ensures name[k] != '.' {
      assert IsWordChar(name[k]);
    }
    var inv := Inverse(name);
    forall k | 0 <= k < |inv| ensures inv[k] != '.' {
      if k >= |name| {
        assert inv[k] == "^{-1}"[k - |name|];
      } else {
        assert inv[k] == name[k];
      }
    }
  }

  /** Every label of a walk of the graph is non-empty and holds no ".". */
  lemma {:induction false} WalkLabelsClean(body: seq<Pred>, s: string, hs: seq<Hop>, t: string)
    requires forall p :: p in body && p.Atom? ==> |p.name| > 0 && AllWord(p.name)
    requires IsWalk(GraphOf(body), s, hs, t)
    ensures forall k :: 0 <= k < |hs| ==> LabelsOf(hs)[k] != [] && '.' !in LabelsOf(hs)[k]
    decreases |hs|
  {
    if hs != [] {
      var h := hs[|hs| - 1];
      WalkLabelsClean(body, s, hs[..|hs| - 1], h.from);
      GraphLabelClean(body, h.from, Arc(h.to, h.rel));
    }
  }

  /** A walk of the graph that has a hop starts and ends at keys of adj. */
  lemma WalkEnds(body: seq<Pred>, s: string, hs: seq<Hop>, t: string)
    requires IsWalk(GraphOf(body), s, hs, t) && hs != []
    ensures s in GraphOf(body) && t in GraphOf(body)
    decreases |hs|
  {
    var h := hs[|hs| - 1];
    GraphArc(body, h.from, Arc(h.to, h.rel));
    if |hs| > 1 {
      WalkEnds(body, s, hs[..|hs| - 1], h.from);
    } else {
      assert hs[..0] == [];
    }
  }

  /**
   * For an atom head of at least two arguments over a body of named atoms: ""
   * exactly when the subject is the object or no walk of the graph joins them.
   */
  lemma TranslateEmpty(action: string, args: seq<string>, negated: bool, body: seq<Pred>)
    requires |args| >= 2 && forall p :: p in body && p.Atom? ==> |p.name| > 0 && AllWord(p.name)
    ensures var adj, s, o := GraphOf(body), args[0], args[|args| - 1];
      (Translate(Some((Some(Atom(action, args, negated)), body))) == Ok(Some("")))
        <==> s == o || !Connected(adj, s, o)
  {
    var adj, s, o := GraphOf(body), args[0], args[|args| - 1];
    FindPathSpec(adj, s, o);
    var r := FoundPath(adj, s, o);
    TranslateFound(action, args, negated, body);
    if r.Some? && r.value != [] {
      var hs :| IsWalk(adj, s, hs, o) && LabelsOf(hs) == r.value;
      WalkLabelsClean(body, s, hs, o);
      JoinNonEmpty(r.value);
    }
    if s != o {
      ConnectedKeys(body, s, o);
    }
  }

  /** With an atom head of two or more arguments, the result is the joined path found, "" for none. */
  lemma TranslateFound(action: string, args: seq<string>, negated: bool, body: seq<Pred>)
    requires |args| >= 2
    ensures var r := FoundPath(GraphOf(body), args[0], args[|args| - 1]);
      Translate(Some((Some(Atom(action, args, negated)), body)))
        == if r.None? || r.value == [] then Ok(Some("")) else Ok(Some(Join(r.value, ".")))
  {
  }

  lemma JoinNonEmpty(parts: seq<string>)
    requires parts != [] && parts[0] != []
    ensures Join(parts, ".") != []
  {
    if |parts| > 1 {
      assert parts == [parts[0]] + parts[1..];
      JoinCons(parts[0], parts[1..], ".");
    }
  }

  /** Distinct nodes joined by a walk of the graph are both keys of it. */
  lemma ConnectedKeys(body: seq<Pred>, s: string, o: string)
    requires s != o
    ensures Connected(GraphOf(body), s, o) ==> s in GraphOf(body) && o in GraphOf(body)
  {
    if Connected(GraphOf(body), s, o) {
      var hs :| IsWalk(GraphOf(body), s, hs, o);
      if hs != [] {
        WalkEnds(body, s, hs, o);
      }
    }
  }

  /**
   * Otherwise the result is the labels of a shortest walk of the graph from the
   * subject to the object, joined with "."; splitting it at "." gives them back.
   */
  lemma TranslatePath(action: string, args: seq<string>, negated: bool, body: seq<Pred>, x: string)
    requires |args| >= 2 && forall p :: p in body && p.Atom? ==> |p.name| > 0 && AllWord(p.name)
    requires Translate(Some((Some(Atom(action, args, negated)), body))) == Ok(Some(x)) && x != ""
    ensures var adj, s, o := GraphOf(body), args[0], args[|args| - 1];
      exists hs :: (IsWalk(adj, s, hs, o) && hs != []
        && x == Join(LabelsOf(hs), ".") && SplitOn(x, '.') == LabelsOf(hs)
        && Shortest(adj, s, o, |hs|))
  {
    var adj, s, o := GraphOf(body), args[0], args[|args| - 1];
    FindPathSpec(adj, s, o);
    var p := FoundPath(adj, s, o).value;
    var hs :| IsWalk(adj, s, hs, o) && LabelsOf(hs) == p;
    WalkLabelsClean(body, s, hs, o);
    SplitOnJoin(p, '.');
    assert hs != [] && x == Join(LabelsOf(hs), ".") && SplitOn(x, '.') == LabelsOf(hs) && Shortest(adj, s, o, |hs|);
  }

  /**
   * translate_rule on a rule with an atom head of at least two arguments: "" exactly
   * when the subject is the object or no walk of the graph joins them; any other
   * text splits at "." into the labels of a shortest walk from subject to object.
   */
  lemma TranslationPath(rule: string, action: string, args: seq<string>, negated: bool, body: seq<Pred>)
    requires ParseRule(rule, CramptonOps) == Some((Some(Atom(action, args, negated)), body)) && |args| >= 2
    ensures var adj, s, o := GraphOf(body), args[0], args[|args| - 1];
      && Translation(rule).Ok? && Translation(rule).value.Some?
      && (Translation(rule) == Ok(Some("")) <==> s == o || !Connected(adj, s, o))
      && (Translation(rule).value.value != "" ==>
            exists hs :: (IsWalk(adj, s, hs, o) && hs != [] && SplitOn(Translation(rule).value.value, '.') == LabelsOf(hs)
              && Shortest(adj, s, o, |hs|)))
  {
    ParseRuleWordNames(rule, CramptonOps);
    TranslateCases(action, args, negated, body);
  }

  lemma TranslateCases(action: string, args: seq<string>, negated: bool, body: seq<Pred>)
    requires |args| >= 2 && forall p :: p in body && p.Atom? ==> |p.name| > 0 && AllWord(p.name)
    ensures var adj, s, o := GraphOf(body), args[0], args[|args| - 1];
      var r := Translate(Some((Some(Atom(action, args, negated)), body)));
      && r.Ok? && r.value.Some?
      && (r == Ok(Some("")) <==> s == o || !Connected(adj, s, o))
      && (r.value.value != "" ==>
            exists hs :: (IsWalk(adj, s, hs, o) && hs != [] && SplitOn(r.value.value, '.') == LabelsOf(hs)
              && Shortest(adj, s, o, |hs|)))
  {
    TranslateEmpty(action, args, negated, body);
    var r := Translate(Some((Some(Atom(action, args, negated)), body)));
    if r.value.value != "" {
      TranslatePath(action, args, negated, body, r.value.value);
    }
  }
}
