/**
 * fong.py: a Datalog rule becomes a formula of Fong's modal ReBAC logic. The
 * body's binary relations form a graph over the rule's variables; the formula is
 * read off by a depth-first walk from the subject, where each edge `rel` to a
 * neighbour contributes `<rel>(formula of the neighbour)`.
 */
module Fong {
  import opened Wrappers
  import opened Text
  import opened Patterns
  import opened TopLevel
  import opened Multimap
  import opened Rows

  /** `parse_term`: every branch returns the stripped text. */
  function ParseTerm(term: string): (r: string)
    ensures r == Strip(term)
  {
    var t := Strip(term);
    if t == "" then t
    else if StartsWith(t, "'") && EndsWith(t, "'") then t
    else if StartsWith(t, "\"") && EndsWith(t, "\"") then t
    else if IsDigits(RemoveFirst(t, '.')) then t
    else t
  }

  /** `[parse_term(arg) for arg in args]` */
  function ParseTerms(args: seq<string>): (r: seq<string>)
    ensures |r| == |args|
    ensures forall k :: 0 <= k < |args| ==> r[k] == Strip(args[k])
  {
    if args == [] then [] else ParseTerms(args[..|args| - 1]) + [ParseTerm(args[|args| - 1])]
  }

  /**
   * The three dictionaries `parse_predicate` returns: the call form
   * `{"name", "args", "negated", "raw"}`, the infix form
   * `{"infix": True, "left", "op", "right", "negated", "raw"}` and the fallback
   * `{"raw", "negated"}`. `raw` is the text after the "not " prefix was removed.
   */
  datatype FongPred =
    | Call(name: string, args: seq<string>, negated: bool, raw: string)
    | Infix(left: string, op: string, right: string, negated: bool, raw: string)
    | Bare(raw: string, negated: bool)

  /** What `parse_predicate` returns for s. */
  function PredicateOf(s: string): FongPred
  {
    var (neg, u) := Unnegate(s);
    match MatchCall(u)
    case Some((name, argsText)) => Call(name, ParseTerms(StripAll(Parts(argsText))), neg, u)
    case None =>
      match MatchInfix(u)
      case Some((left, op, right)) => Infix(left, op, right, neg, u)
      case None => Bare(u, neg)
  }

  /** `parse_predicate`: the argument list is split by the depth-aware character loop. */
  method ParsePredicate(predStr: string) returns (p: FongPred)
    ensures p == PredicateOf(predStr)
  {
    var negated := false;
    var s := Strip(predStr);
    if StartsWith(s, "not ") {
      negated := true;
      s := Strip(s[4..]);
    }
    var m := MatchCall(s);
    if m.Some? {
      var (name, argsStr) := m.value;
      var args := SplitStripped(argsStr);
      var parsedArgs := ParseTerms(args);
      return Call(name, parsedArgs, negated, s);
    }
    var im := MatchInfix(s);
    if im.Some? {
      var (left, op, right) := im.value;
      return Infix(left, op, right, negated, s);
    }
    return Bare(s, negated);
  }

  // ---------------------------------------------------------------------------
  // The dictionaries `datalog_to_fong_formula` fills from the body.

  /** An adjacency entry `(rel, neighbour)`. */
  type Edge = (string, string)

  /** `adj[u].append((name, v))` and `adj[v].append((f"-{name}", u))` for a positive binary atom. */
  function EdgeOps(p: FongPred): seq<Op<string, Edge>>
  {
    if p.Call? && |p.args| == 2 && !p.negated then
      [Add(p.args[0], (p.name, p.args[1])), Add(p.args[1], ("-" + p.name, p.args[0]))]
    else []
  }

  /** `props[v].append(name)`, or `"¬" + name` if negated, for a unary atom. */
  function PropOps(p: FongPred): seq<Op<string, string>>
  {
    if p.Call? && |p.args| == 1 then
      [Add(p.args[0], if p.negated then "¬" + p.name else p.name)]
    else []
  }

  /** The raw text of a comparison on its stripped left operand; `¬<name>T` on the first argument of a negated binary atom. */
  function ConstraintOps(p: FongPred): seq<Op<string, string>>
  {
    if p.Infix? then [Add(Strip(p.left), p.raw)]
    else if p.Call? && |p.args| == 2 && p.negated then [Add(p.args[0], "¬<" + p.name + ">T")]
    else []
  }

  /** The operations of a whole body on one dictionary, predicate by predicate. */
  function AllOps<T>(body: seq<FongPred>, f: FongPred -> seq<T>): seq<T>
  {
    if body == [] then [] else AllOps(body[..|body| - 1], f) + f(body[|body| - 1])
  }

  /** What `generate` closes over: the three dictionaries and the object variable. */
  datatype Closure = Closure(
    adj: map<string, seq<Edge>>,
    props: map<string, seq<string>>,
    constraints: map<string, seq<string>>,
    objectVar: Option<string>)

  /** The closure built from a rule body. */
  function ClosureOf(body: seq<FongPred>, objectVar: Option<string>): Closure
  {
    Closure(Collect(AllOps(body, EdgeOps)), Collect(AllOps(body, PropOps)), Collect(AllOps(body, ConstraintOps)), objectVar)
  }

  /** The loop of `datalog_to_fong_formula` over the body. */
  method BuildGraph(bodyPreds: seq<FongPred>, objectVar: Option<string>) returns (c: Closure)
    ensures c == ClosureOf(bodyPreds, objectVar)
  {
    var adj: map<string, seq<Edge>> := map[];
    var props: map<string, seq<string>> := map[];
    var constraints: map<string, seq<string>> := map[];
    for i := 0 to |bodyPreds|
      invariant adj == Collect(AllOps(bodyPreds[..i], EdgeOps))
      invariant props == Collect(AllOps(bodyPreds[..i], PropOps))
      invariant constraints == Collect(AllOps(bodyPreds[..i], ConstraintOps))
    {
      AllOpsSnoc(bodyPreds, i);
      adj, props, constraints := AddPredicate(adj, props, constraints, bodyPreds[i],
        AllOps(bodyPreds[..i], EdgeOps), AllOps(bodyPreds[..i], PropOps), AllOps(bodyPreds[..i], ConstraintOps));
    }
    assert bodyPreds[..|bodyPreds|] == bodyPreds;
    c := Closure(adj, props, constraints, objectVar);
  }

  /** One iteration of that loop: the dictionary updates one body predicate makes. */
  method AddPredicate(adj0: map<string, seq<Edge>>, props0: map<string, seq<string>>,
                      constraints0: map<string, seq<string>>, pred: FongPred,
                      ghost edgeOps: seq<Op<string, Edge>>, ghost propOps: seq<Op<string, string>>,
                      ghost constraintOps: seq<Op<string, string>>)
    returns (adj: map<string, seq<Edge>>, props: map<string, seq<string>>, constraints: map<string, seq<string>>)
    requires adj0 == Collect(edgeOps) && props0 == Collect(propOps) && constraints0 == Collect(constraintOps)
    ensures adj == Collect(edgeOps + EdgeOps(pred))
    ensures props == Collect(propOps + PropOps(pred))
    ensures constraints == Collect(constraintOps + ConstraintOps(pred))
  {
    adj, props, constraints := adj0, props0, constraints0;
    assert edgeOps + [] == edgeOps && propOps + [] == propOps && constraintOps + [] == constraintOps;
    if pred.Infix? {
      var leftVar := Strip(pred.left);
      constraints := Append(constraints, leftVar, pred.raw, constraintOps);
      return;
    }
    if !pred.Call? || pred.args == [] {
      return;
    }
    var name, args, negated := pred.name, pred.args, pred.negated;
    if |args| == 1 {
      var v := args[0];
      var p := if negated then "¬" + name else name;
      props := Append(props, v, p, propOps);
    } else if |args| == 2 {
      var u, v := args[0], args[1];
      if negated {
        constraints := Append(constraints, u, "¬<" + name + ">T", constraintOps);
      } else {
        adj := Append(adj, u, (name, v), edgeOps);
        adj := Append(adj, v, ("-" + name, u), edgeOps + [Add(u, (name, v))]);
        assert edgeOps + EdgeOps(pred) == edgeOps + [Add(u, (name, v))] + [Add(v, ("-" + name, u))];
      }
    }
  }

  /** `if k not in d: d[k] = []` followed by `d[k].append(x)`. */
  method Append<V>(d0: map<string, seq<V>>, k: string, x: V, ghost ops: seq<Op<string, V>>)
    returns (d: map<string, seq<V>>)
    requires d0 == Collect(ops)
    ensures d == Collect(ops + [Add(k, x)])
  {
    CollectSnoc(ops, Add(k, x));
    d := d0;
    if k !in d {
      d := d[k := []];
    }
    d := d[k := d[k] + [x]];
  }

  lemma AllOpsSnoc(body: seq<FongPred>, i: nat)
    requires i < |body|
    ensures AllOps(body[..i + 1], EdgeOps) == AllOps(body[..i], EdgeOps) + EdgeOps(body[i])
    ensures AllOps(body[..i + 1], PropOps) == AllOps(body[..i], PropOps) + PropOps(body[i])
    ensures AllOps(body[..i + 1], ConstraintOps) == AllOps(body[..i], ConstraintOps) + ConstraintOps(body[i])
  {
    assert body[..i + 1][..i] == body[..i];
  }

  // ---------------------------------------------------------------------------
  // `generate`.

  /** `d[k]` if present, else nothing (the `if k in d` tests of `generate`). */
  function Get<V>(d: map<string, seq<V>>, k: string): seq<V>
  {
    if k in d then d[k] else []
  }

  /** Every variable the adjacency lists mention. */
  ghost function Nodes(adj: map<string, seq<Edge>>): set<string>
  {
    adj.Keys + set u, e | u in adj && e in adj[u] :: e.1
  }

  /** The parts a node contributes before its edges: tags, "owner" on the object, constraints. */
  function Own(c: Closure, u: string): seq<string>
  {
    Get(c.props, u) + (if c.objectVar == Some(u) then ["owner"] else []) + Get(c.constraints, u)
  }

  /** The tail of `generate`: "T" for no parts, the sole part, or a parenthesised " ∧ " join. */
  function Render(parts: seq<string>): string
  {
    if parts == [] then "T"
    else if |parts| == 1 then parts[0]
    else "(" + Join(parts, " ∧ ") + ")"
  }

  /**
   * `generate(u)` with `visited` as found on entry: "cycle" for a node already on
   * the current branch, otherwise the node's own parts followed by one part per
   * edge to a neighbour not on the branch.
   */
  function Gen(c: Closure, u: string, visited: set<string>): string
    decreases |(Nodes(c.adj) + {u}) - visited|, 0, 0
  {
    if u in visited then "cycle"
    else
      EdgesInNodes(c.adj, u);
      EnterSmaller(Nodes(c.adj), u, visited);
      Render(Own(c, u) + Subs(c, Get(c.adj, u), visited + {u}))
  }

  /** The loop of `generate` over the edges, with u already on the branch `visited`. */
  function Subs(c: Closure, edges: seq<Edge>, visited: set<string>): seq<string>
    requires forall e :: e in edges ==> e.1 in Nodes(c.adj)
    decreases |Nodes(c.adj) - visited|, 1, |edges|
  {
    if edges == [] then []
    else
      var (rel, v) := edges[|edges| - 1];
      var rest := Subs(c, edges[..|edges| - 1], visited);
      if v in visited then rest
      else
        assert Nodes(c.adj) + {v} == Nodes(c.adj);
        var sub := Gen(c, v, visited);
        if sub != "" && sub != "cycle" then rest + ["<" + rel + ">(" + sub + ")"] else rest
  }

  /** One more edge: its part, if it yields one, comes after those of the edges before it. */
  lemma SubsLast(c: Closure, edges: seq<Edge>, i: nat, visited: set<string>)
    requires forall e :: e in edges ==> e.1 in Nodes(c.adj)
    requires i < |edges|
    ensures var (rel, v) := edges[i]; var rest := Subs(c, edges[..i], visited);
      Subs(c, edges[..i + 1], visited) ==
        if v in visited || Gen(c, v, visited) in {"", "cycle"} then rest
        else rest + ["<" + rel + ">(" + Gen(c, v, visited) + ")"]
  {
    assert edges[..i + 1][..i] == edges[..i];
  }

  lemma EdgesInNodes(adj: map<string, seq<Edge>>, u: string)
    ensures forall e :: e in Get(adj, u) ==> e.1 in Nodes(adj)
  {
  }

  /** Entering an unvisited node shrinks the set of nodes still open. */
  lemma EnterSmaller(nodes: set<string>, u: string, visited: set<string>)
    requires u !in visited
    ensures |nodes - (visited + {u})| < |(nodes + {u}) - visited|
  {
    var a, b := nodes - (visited + {u}), (nodes + {u}) - visited;
    assert b == a + {u};
    assert u !in a;
  }

  /** The formula `datalog_to_fong_formula` returns. */
  function Formula(head: FongPred, body: seq<FongPred>): string
  {
    if !head.Call? || head.args == [] then "Error: Head has no args"
    else
      var objectVar := if |head.args| > 1 then Some(head.args[1]) else None;
      Gen(ClosureOf(body, objectVar), head.args[0], {})
  }

  /** The closure of `generate`, with the shared set `visited` as a field. */
  class Generator {
    const c: Closure
    var visited: set<string>

    constructor(c: Closure)
      ensures this.c == c && visited == {}
    {
      this.c := c;
      visited := {};
    }

    /** `generate(u)`: adds u to `visited` on entry and removes it before returning. */
    method Generate(u: string) returns (r: string)
      modifies this
      ensures visited == old(visited)
      ensures r == Gen(c, u, old(visited))
      decreases |(Nodes(c.adj) + {u}) - visited|, 0
    {
      if u in visited {
        return "cycle";
      }
      ghost var v0 := visited;
      EnterSmaller(Nodes(c.adj), u, v0);
      visited := visited + {u};
      var parts := OwnParts(u);
      EdgesInNodes(c.adj, u);
      var subs := VisitEdges(Get(c.adj, u));
      parts := parts + subs;
      visited := visited - {u};
      assert visited == v0;
      if parts == [] {
        return "T";
      }
      if |parts| == 1 {
        return parts[0];
      }
      return "(" + Join(parts, " ∧ ") + ")";
    }

    /** The tags of u, "owner" when u is the object, then the constraints on u. */
    method OwnParts(u: string) returns (parts: seq<string>)
      ensures parts == Own(c, u)
    {
      parts := [];
      if u in c.props {
        parts := parts + c.props[u];
      }
      if Some(u) == c.objectVar {
        parts := parts + ["owner"];
      }
      if u in c.constraints {
        parts := parts + c.constraints[u];
      }
    }

    /** The loop of `generate` over the edges of the node just added to `visited`. */
    method VisitEdges(edges: seq<Edge>) returns (subs: seq<string>)
      requires forall e :: e in edges ==> e.1 in Nodes(c.adj)
      modifies this
      ensures visited == old(visited)
      ensures subs == Subs(c, edges, old(visited))
      decreases |Nodes(c.adj) - visited|, 1
    {
      subs := [];
      for i := 0 to |edges|
        invariant visited == old(visited)
        invariant subs == Subs(c, edges[..i], visited)
      {
        var rel, v := edges[i].0, edges[i].1;
        SubsLast(c, edges, i, visited);
        if v in visited {
          continue;
        }
        assert Nodes(c.adj) + {v} == Nodes(c.adj);
        var sub := Generate(v);
        if sub != "" && sub != "cycle" {
          subs := subs + ["<" + rel + ">(" + sub + ")"];
        }
      }
      assert edges[..|edges|] == edges;
    }
  }

  /** `datalog_to_fong_formula` */
  method DatalogToFongFormula(head: FongPred, bodyPreds: seq<FongPred>) returns (formula: string)
    ensures formula == Formula(head, bodyPreds)
  {
    if !head.Call? || head.args == [] {
      return "Error: Head has no args";
    }
    var subjectVar := head.args[0];
    var objectVar := if |head.args| > 1 then Some(head.args[1]) else None;
    var c := BuildGraph(bodyPreds, objectVar);
    var g := new Generator(c);
    formula := g.Generate(subjectVar);
  }

  // ---------------------------------------------------------------------------
  // One row of `convert_datalog_to_fong`.

  /** `[parse_predicate(p.strip()) for p in pieces]` */
  function PredicatesOf(pieces: seq<string>): (r: seq<FongPred>)
    ensures |r| == |pieces|
  {
    if pieces == [] then [] else PredicatesOf(pieces[..|pieces| - 1]) + [PredicateOf(Strip(pieces[|pieces| - 1]))]
  }

  /**
   * The output one `datalog_actions` cell contributes: nothing for an empty cell,
   * "" for a cell without ":-", else the formula of the rule's head and body.
   */
  function Row(action: string): Option<string>
  {
    if action == "" then None
    else if !Contains(Cell(action), ":-") then Some("")
    else
      var (headStr, bodyStr) := HeadBody(Cell(action));
      Some(Formula(PredicateOf(headStr), PredicatesOf(Parts(bodyStr))))
  }

  /** The body of the row loop of `convert_datalog_to_fong`. */
  method ConvertRow(action: string) returns (r: Option<string>)
    ensures r == Row(action)
  {
    if action == "" {
      return None;
    }
    var a := ReplaceChar(action, '\n', ' ');
    if !Contains(a, ":-") {
      return Some("");
    }
    var headStr, bodyStr := SplitAction(a);
    var headPred := ParsePredicate(headStr);
    var bodyPreds := ParseBody(bodyStr);
    var formula := DatalogToFongFormula(headPred, bodyPreds);
    return Some(formula);
  }

  /** The character loop over the body: each depth-0 piece is stripped and parsed. */
  method ParseBody(bodyStr: string) returns (bodyPreds: seq<FongPred>)
    ensures bodyPreds == PredicatesOf(Parts(bodyStr))
  {
    bodyPreds := [];
    var current := "";
    var depth := 0;
    ghost var raw: seq<string> := [];
    assert current + bodyStr[0..] == bodyStr;
    for i := 0 to |bodyStr|
      invariant NoCut(current) && depth == Depth(current)
      invariant raw + Parts(current + bodyStr[i..]) == Parts(bodyStr)
      invariant bodyPreds == PredicatesOf(raw)
    {
      var c := bodyStr[i];
      if c == '(' {
        depth := depth + 1;
      } else if c == ')' {
        depth := depth - 1;
      }
      DepthSnoc(current, c);
      if c == ',' && depth == 0 {
        CutStep(raw, current, bodyStr, i);
        bodyPreds := AppendParsed(bodyPreds, current, raw);
        raw := raw + [current];
        current := "";
      } else {
        CharStep(raw, current, bodyStr, i);
        current := current + [c];
      }
    }
    LastStep(raw, current, bodyStr);
    if current != "" {
      bodyPreds := AppendParsed(bodyPreds, current, raw);
    }
  }

  /** `body_preds.append(parse_predicate(current.strip()))` */
  method AppendParsed(bodyPreds0: seq<FongPred>, current: string, ghost raw: seq<string>) returns (bodyPreds: seq<FongPred>)
    requires bodyPreds0 == PredicatesOf(raw)
    ensures bodyPreds == PredicatesOf(raw + [current])
  {
    PredicatesSnoc(raw, current);
    var pred := ParsePredicate(Strip(current));
    bodyPreds := bodyPreds0 + [pred];
  }

  lemma PredicatesSnoc(ps: seq<string>, p: string)
    ensures PredicatesOf(ps + [p]) == PredicatesOf(ps) + [PredicateOf(Strip(p))]
  {
    assert (ps + [p])[..|ps|] == ps;
  }

  // ---------------------------------------------------------------------------
  // What parse_term and parse_predicate return.

  lemma ParseTermIdempotent(term: string)
    ensures ParseTerm(ParseTerm(term)) == ParseTerm(term)
  {
    StripIdempotent(term);
  }

  /**
   * The call form: the name and argument text are what the call pattern matched,
   * the arguments are the stripped pieces between the depth-0 commas, no piece
   * holds a comma outside parentheses, and the pieces give the argument text back.
   */
  lemma CallArguments(s: string, name: string, text: string)
    requires MatchCall(Unnegate(s).1) == Some((name, text))
    ensures var p := PredicateOf(s);
      && p == Call(name, p.args, Unnegate(s).0, Unnegate(s).1)
      && CallShape(Unnegate(s).1, name, text)
      && |p.args| == |Parts(text)|
      && (forall k :: 0 <= k < |p.args| ==> p.args[k] == Strip(Parts(text)[k]) && NoCut(Parts(text)[k]))
      && Join(Parts(text), ",") + (if TrailingCut(text) then "," else "") == text
  {
    MatchCallSome(Unnegate(s).1, name, text);
    var ps := Parts(text);
    forall k | 0 <= k < |ps| ensures StripAll(ps)[k] == Strip(ps[k]) {
      StripAllAt(ps, k);
    }
    forall k | 0 <= k < |ps| ensures Strip(StripAll(ps)[k]) == Strip(ps[k]) {
      StripIdempotent(ps[k]);
    }
    PartsHaveNoCut(text);
    PartsJoin(text);
  }

  /**
   * A first argument whose commas are all inside parentheses (a nested call such
   * as `f(a,b)`) stays one argument.
   */
  lemma NestedArgument(s: string, name: string, x: string, y: string)
    requires MatchCall(Unnegate(s).1) == Some((name, x + "," + y))
    requires NoCut(x) && Depth(x) == 0
    ensures PredicateOf(s).Call? && |PredicateOf(s).args| >= 1 && PredicateOf(s).args[0] == Strip(x)
  {
    PartsAtCut(x, y);
    assert x + [','] + y == x + "," + y;
    CallArguments(s, name, x + "," + y);
  }

  /** Text that is no call: an infix record when the comparison pattern matches, else the raw text. */
  lemma NotCall(s: string)
    requires forall name, text :: !CallShape(Unnegate(s).1, name, text)
    ensures PredicateOf(s).Infix? <==> MatchInfix(Unnegate(s).1).Some?
    ensures PredicateOf(s).Bare? <==> MatchInfix(Unnegate(s).1).None?
  {
    MatchCallNone(Unnegate(s).1);
  }

  /** The infix record holds the operands and operator the comparison pattern matched. */
  lemma InfixRecord(s: string)
    requires forall name, text :: !CallShape(Unnegate(s).1, name, text)
    requires MatchInfix(Unnegate(s).1).Some?
    ensures var (neg, u) := Unnegate(s); var (left, op, right) := MatchInfix(u).value;
      PredicateOf(s) == Infix(left, op, right, neg, u)
  {
    MatchCallNone(Unnegate(s).1);
  }

  /** Neither pattern: the raw record of the text. */
  lemma BareRecord(s: string)
    requires forall name, text :: !CallShape(Unnegate(s).1, name, text)
    requires MatchInfix(Unnegate(s).1).None?
    ensures PredicateOf(s) == Bare(Unnegate(s).1, Unnegate(s).0)
  {
    MatchCallNone(Unnegate(s).1);
  }

  lemma PredicateFields(s: string)
    ensures PredicateOf(s).negated == Unnegate(s).0 && PredicateOf(s).raw == Unnegate(s).1
  {
    var u := Unnegate(s).1;
    if MatchCall(u).None? {
      if MatchInfix(u).None? {
        assert PredicateOf(s) == Bare(u, Unnegate(s).0);
      }
    }
  }

  /** The "not " prefix: stripped, recorded in `negated`, and gone from `raw`. */
  lemma Negation(s: string)
    ensures PredicateOf(s).negated <==> StartsWith(Strip(s), "not ")
    ensures PredicateOf(s).negated ==> PredicateOf(s).raw == Strip(Strip(s)[4..])
    ensures !PredicateOf(s).negated ==> PredicateOf(s).raw == Strip(s)
  {
    PredicateFields(s);
  }

  // ---------------------------------------------------------------------------
  // What the dictionaries hold.

  /** A stored item is one some operation added under that key. */
  lemma StoredIff<V>(ops: seq<Op<string, V>>, k: string, x: V)
    ensures x in Get(Collect(ops), k) <==> Add(k, x) in ops
  {
    CollectSpec(ops, k);
    if x in Get(Collect(ops), k) {
      ItemsForAdded(ops, k, x);
    }
    if Add(k, x) in ops {
      var i :| 0 <= i < |ops| && ops[i] == Add(k, x);
      ItemsForHas(ops, i);
      assert Mentions(ops, k);
    }
  }

  lemma {:induction false} AllOpsIn<T>(body: seq<FongPred>, f: FongPred -> seq<T>, x: T)
    ensures x in AllOps(body, f) <==> exists j :: 0 <= j < |body| && x in f(body[j])
  {
    if body != [] {
      var init := body[..|body| - 1];
      AllOpsIn(init, f, x);
      assert forall j :: 0 <= j < |init| ==> init[j] == body[j];
      if x in f(body[|body| - 1]) {
        assert 0 <= |body| - 1 < |body|;
      }
    }
  }

  /** The tag a unary atom contributes. */
  function Tag(p: FongPred): string
    requires p.Call?
  {
    if p.negated then "¬" + p.name else p.name
  }

  /** A variable's tags are exactly the tags of the unary atoms on it: no other arity adds one. */
  lemma TagIff(body: seq<FongPred>, objectVar: Option<string>, v: string, x: string)
    ensures x in Get(ClosureOf(body, objectVar).props, v)
      <==> exists j :: 0 <= j < |body| && body[j].Call? && body[j].args == [v] && x == Tag(body[j])
  {
    StoredIff(AllOps(body, PropOps), v, x);
    AllOpsIn(body, PropOps, Add(v, x));
    forall j | 0 <= j < |body| ensures Add(v, x) in PropOps(body[j]) <==> body[j].Call? && body[j].args == [v] && x == Tag(body[j]) {
      if body[j].Call? && |body[j].args| == 1 {
        assert body[j].args == [body[j].args[0]];
      }
    }
  }

  /** p puts constraint x on u. */
  predicate Constrains(p: FongPred, u: string, x: string)
  {
    || (p.Infix? && Strip(p.left) == u && x == p.raw)
    || (p.Call? && |p.args| == 2 && p.negated && p.args[0] == u && x == "¬<" + p.name + ">T")
  }

  /**
   * A variable's constraints are exactly the raw comparisons whose stripped left
   * operand it is and `¬<name>T` for each negated binary atom it is first in.
   */
  lemma ConstraintIff(body: seq<FongPred>, objectVar: Option<string>, u: string, x: string)
    ensures x in Get(ClosureOf(body, objectVar).constraints, u)
      <==> exists j :: 0 <= j < |body| && Constrains(body[j], u, x)
  {
    StoredIff(AllOps(body, ConstraintOps), u, x);
    AllOpsIn(body, ConstraintOps, Add(u, x));
  }

  /** A positive binary atom: an edge the builder adds in both directions. */
  predicate Related(p: FongPred)
  {
    p.Call? && |p.args| == 2 && !p.negated
  }

  /** p gives u the edge e: `(name, v)` for `name(u, v)`, `(-name, w)` for `name(w, u)`. */
  predicate EdgeFrom(p: FongPred, u: string, e: Edge)
  {
    && Related(p)
    && (|| (p.args[0] == u && e == (p.name, p.args[1]))
        || (p.args[1] == u && e == ("-" + p.name, p.args[0])))
  }

  /**
   * The edges of u are exactly `(name, v)` for each positive atom `name(u, v)` and
   * `(-name, w)` for each positive atom `name(w, u)`; nothing else adds an edge.
   */
  lemma EdgeIff(body: seq<FongPred>, objectVar: Option<string>, u: string, e: Edge)
    ensures e in Get(ClosureOf(body, objectVar).adj, u)
      <==> exists j :: 0 <= j < |body| && EdgeFrom(body[j], u, e)
  {
    StoredIff(AllOps(body, EdgeOps), u, e);
    AllOpsIn(body, EdgeOps, Add(u, e));
  }

  /** Every edge has its reverse: the neighbour lists the node among its own neighbours. */
  lemma EdgeSymmetric(body: seq<FongPred>, objectVar: Option<string>, u: string, e: Edge)
    requires e in Get(ClosureOf(body, objectVar).adj, u)
    ensures exists rel :: (rel, u) in Get(ClosureOf(body, objectVar).adj, e.1)
  {
    EdgeIff(body, objectVar, u, e);
    var j :| 0 <= j < |body| && EdgeFrom(body[j], u, e);
    var p := body[j];
    if p.args[0] == u && e == (p.name, p.args[1]) {
      EdgeIff(body, objectVar, e.1, ("-" + p.name, u));
    } else {
      EdgeIff(body, objectVar, e.1, (p.name, u));
    }
  }

  // ---------------------------------------------------------------------------
  // What generate returns.

  /** Every part a node collects is a piece of the text rendered from the parts. */
  lemma {:induction false} JoinHas(parts: seq<string>, sep: string, k: nat)
    requires k < |parts|
    ensures exists a, b :: Join(parts, sep) == a + parts[k] + b
  {
    if |parts| == 1 {
      assert Join(parts, sep) == "" + parts[0] + "";
    } else {
      JoinCons(parts[0], parts[1..], sep);
      var rest := Join(parts[1..], sep);
      if k == 0 {
        assert Join(parts, sep) == "" + parts[0] + (sep + rest);
      } else {
        JoinHas(parts[1..], sep, k - 1);
        var a, b :| rest == a + parts[1..][k - 1] + b;
        assert Join(parts, sep) == (parts[0] + sep + a) + parts[k] + b;
      }
    }
  }

  lemma RenderHas(parts: seq<string>, k: nat)
    requires k < |parts|
    ensures Contains(Render(parts), parts[k])
  {
    if |parts| == 1 {
      assert Render(parts) == "" + parts[0] + "";
      ContainsMiddle("", parts[0], "");
    } else {
      JoinHas(parts, " ∧ ", k);
      var a, b :| Join(parts, " ∧ ") == a + parts[k] + b;
      Wrapped(a, parts[k], b);
      ContainsMiddle("(" + a, parts[k], b + ")");
    }
  }

  lemma Wrapped(a: string, x: string, b: string)
    ensures "(" + (a + x + b) + ")" == ("(" + a) + x + (b + ")")
  {
  }

  /** The tags, "owner" and constraints of an unvisited node all appear in its formula. */
  lemma GenShowsOwn(c: Closure, u: string, visited: set<string>, x: string)
    requires u !in visited && x in Own(c, u)
    ensures Contains(Gen(c, u, visited), x)
  {
    EdgesInNodes(c.adj, u);
    var parts := Own(c, u) + Subs(c, Get(c.adj, u), visited + {u});
    var k :| 0 <= k < |Own(c, u)| && Own(c, u)[k] == x;
    assert parts[k] == x;
    RenderHas(parts, k);
  }

  /** The object's formula, reached on a path that has not visited it, says "owner". */
  lemma GenOwner(c: Closure, u: string, visited: set<string>)
    requires u !in visited && c.objectVar == Some(u)
    ensures Contains(Gen(c, u, visited), "owner")
  {
    assert "owner" in Own(c, u);
    GenShowsOwn(c, u, visited, "owner");
  }

  /** `<rel>(sub)` */
  function Diamond(rel: string, sub: string): string
  {
    "<" + rel + ">(" + sub + ")"
  }

  /**
   * Each edge part is `<rel>(sub)` for an edge to a neighbour not on the branch:
   * generate never descends into a visited node.
   */
  lemma {:induction false} SubsSound(c: Closure, edges: seq<Edge>, visited: set<string>, x: string)
    requires forall e :: e in edges ==> e.1 in Nodes(c.adj)
    requires x in Subs(c, edges, visited)
    ensures exists j :: 0 <= j < |edges| && edges[j].1 !in visited && x == Diamond(edges[j].0, Gen(c, edges[j].1, visited))
    decreases |edges|
  {
    var init := edges[..|edges| - 1];
    var (rel, v) := edges[|edges| - 1];
    assert forall e :: e in init ==> e in edges;
    if x in Subs(c, init, visited) {
      SubsSound(c, init, visited, x);
      var j :| 0 <= j < |init| && init[j].1 !in visited && x == Diamond(init[j].0, Gen(c, init[j].1, visited));
      assert init[j] == edges[j];
    } else {
      assert v !in visited && x == Diamond(rel, Gen(c, v, visited));
      assert 0 <= |edges| - 1 < |edges|;
    }
  }

  /** Conversely every unvisited neighbour whose formula is neither empty nor "cycle" has its part. */
  lemma {:induction false} SubsComplete(c: Closure, edges: seq<Edge>, visited: set<string>, j: nat)
    requires forall e :: e in edges ==> e.1 in Nodes(c.adj)
    requires j < |edges| && edges[j].1 !in visited
    requires Gen(c, edges[j].1, visited) !in {"", "cycle"}
    ensures Diamond(edges[j].0, Gen(c, edges[j].1, visited)) in Subs(c, edges, visited)
    decreases |edges|
  {
    var init := edges[..|edges| - 1];
    assert forall e :: e in init ==> e in edges;
    if j < |init| {
      assert init[j] == edges[j];
      SubsComplete(c, init, visited, j);
    }
  }

  /** Edges that all lead back onto the branch contribute nothing. */
  lemma {:induction false} SubsAllVisited(c: Closure, edges: seq<Edge>, visited: set<string>)
    requires forall e :: e in edges ==> e.1 in Nodes(c.adj) && e.1 in visited
    ensures Subs(c, edges, visited) == []
    decreases |edges|
  {
    if edges != [] {
      var init := edges[..|edges| - 1];
      assert forall e :: e in init ==> e in edges;
      SubsAllVisited(c, init, visited);
    }
  }

  /** A node with no tags, constraints or role, and no way forward, is "T". */
  lemma GenLeaf(c: Closure, u: string, visited: set<string>)
    requires u !in visited && Own(c, u) == []
    requires forall e :: e in Get(c.adj, u) ==> e.1 in visited + {u}
    ensures Gen(c, u, visited) == "T"
  {
    EdgesInNodes(c.adj, u);
    SubsAllVisited(c, Get(c.adj, u), visited + {u});
  }

  /** Every edge part starts with "<". */
  lemma {:induction false} SubsAngled(c: Closure, edges: seq<Edge>, visited: set<string>)
    requires forall e :: e in edges ==> e.1 in Nodes(c.adj)
    ensures forall k :: 0 <= k < |Subs(c, edges, visited)| ==> |Subs(c, edges, visited)[k]| > 0 && Subs(c, edges, visited)[k][0] == '<'
    decreases |edges|
  {
    if edges != [] {
      var init := edges[..|edges| - 1];
      assert forall e :: e in init ==> e in edges;
      SubsAngled(c, init, visited);
    }
  }

  lemma RenderCycle(parts: seq<string>)
    ensures Render(parts) == "cycle" ==> parts == ["cycle"]
  {
    if |parts| > 1 {
      assert Render(parts)[0] == '(';
    }
  }

  /**
   * "cycle" is only returned for a node already on the branch, or for a node whose
   * single part is a tag or constraint that reads "cycle" (and that then has no
   * edge parts): the parent's `!= "cycle"` test drops exactly those.
   */
  lemma GenCycle(c: Closure, u: string, visited: set<string>)
    requires u !in visited && Gen(c, u, visited) == "cycle"
    ensures Own(c, u) == ["cycle"]
    ensures Subs(c, Get(c.adj, u), visited + {u}) == []
  {
    EdgesInNodes(c.adj, u);
    SubsAngled(c, Get(c.adj, u), visited + {u});
    RenderCycle(Own(c, u) + Subs(c, Get(c.adj, u), visited + {u}));
  }

  /**
   * So an edge to a neighbour whose only part is the tag "cycle" (a unary atom
   * `cycle(v)`, with no further edges) is dropped from the formula.
   */
  lemma CycleTagDropped(c: Closure, rel: string, v: string, visited: set<string>)
    requires v in Nodes(c.adj) && v !in visited
    requires Own(c, v) == ["cycle"]
    requires forall e :: e in Get(c.adj, v) ==> e.1 in visited + {v}
    ensures Subs(c, [(rel, v)], visited) == []
  {
    EdgesInNodes(c.adj, v);
    SubsAllVisited(c, Get(c.adj, v), visited + {v});
    assert Gen(c, v, visited) == Render(["cycle"] + []);
    assert [(rel, v)][..0] == [];
  }

  /** The formula of a rule: the error text for a head without arguments, else the walk from the first argument with the second as object. */
  lemma FormulaRoles(head: FongPred, body: seq<FongPred>)
    ensures !head.Call? || head.args == [] ==> Formula(head, body) == "Error: Head has no args"
    ensures head.Call? && |head.args| == 1 ==> Formula(head, body) == Gen(ClosureOf(body, None), head.args[0], {})
    ensures head.Call? && |head.args| >= 2 ==> Formula(head, body) == Gen(ClosureOf(body, Some(head.args[1])), head.args[0], {})
  {
  }

  /** When the subject is also the object (`p(X, X, ...)`), the formula says "owner". */
  lemma FormulaSelfOwner(head: FongPred, body: seq<FongPred>)
    requires head.Call? && |head.args| >= 2 && head.args[0] == head.args[1]
    ensures Contains(Formula(head, body), "owner")
  {
    GenOwner(ClosureOf(body, Some(head.args[1])), head.args[0], {});
  }

  // ---------------------------------------------------------------------------
  // What one row yields.

  /** An empty cell is skipped and a cell without ":-" yields "". */
  lemma RowCases(action: string)
    ensures Row(action).None? <==> action == ""
    ensures action != "" && !Contains(Cell(action), ":-") ==> Row(action) == Some("")
  {
  }

  /** A rule row yields the formula of its head and of one predicate per depth-0 piece of its body. */
  lemma RowRule(action: string)
    requires action != "" && Contains(Cell(action), ":-")
    ensures var (headStr, bodyStr) := HeadBody(Cell(action));
      && Row(action) == Some(Formula(PredicateOf(headStr), PredicatesOf(Parts(bodyStr))))
      && |PredicatesOf(Parts(bodyStr))| == |Parts(bodyStr)|
      && forall k :: 0 <= k < |Parts(bodyStr)| ==> PredicatesOf(Parts(bodyStr))[k] == PredicateOf(Strip(Parts(bodyStr)[k]))
  {
    var ps := Parts(HeadBody(Cell(action)).1);
    forall k | 0 <= k < |ps| ensures PredicatesOf(ps)[k] == PredicateOf(Strip(ps[k])) {
      PredicatesAt(ps, k);
    }
  }

  lemma {:induction false} PredicatesAt(ps: seq<string>, k: nat)
    requires k < |ps|
    ensures PredicatesOf(ps)[k] == PredicateOf(Strip(ps[k]))
  {
    var init, last := ps[..|ps| - 1], ps[|ps| - 1];
    var r := PredicatesOf(init);
    assert PredicatesOf(ps) == r + [PredicateOf(Strip(last))];
    if k < |ps| - 1 {
      PredicatesAt(init, k);
      assert init[k] == ps[k];
    }
  }
}
