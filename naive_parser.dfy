/**
 * The rule parser that cheng.py and crampton.py each carry a copy of
 * (`parse_datalog_rule`, `split_body`, `parse_predicate`). The two copies differ
 * only in the operators that make a text a constraint, so the operator list is a
 * parameter here.
 */
module NaiveParser {
  import opened Wrappers
  import opened Text
  import opened Patterns
  import opened TopLevel

  /**
   * The dictionaries `parse_predicate` returns:
   * `{"name", "args", "negated"}` and `{"name": "constraint", "raw", "negated": False}`.
   */
  datatype Pred = Atom(name: string, args: seq<string>, negated: bool) | Constraint(raw: string)

  /** `pred["name"]` */
  function Name(p: Pred): string
  {
    if p.Atom? then p.name else "constraint"
  }

  /** `pred["negated"]` */
  predicate IsNegated(p: Pred)
  {
    p.Atom? && p.negated
  }

  /** The label both graph builders give an edge walked backwards. */
  function Inverse(name: string): string
  {
    name + "^{-1}"
  }

  /** Operators that make a text a constraint in cheng.py. */
  const ChengOps: seq<string> := [">=", "<=", "==", ">", "<", "!="]

  /** Operators that make a text a constraint in crampton.py: "!=" is not among them. */
  const CramptonOps: seq<string> := [">=", "<=", "==", ">", "<"]

  /** `any(op in s for op in ops)` */
  predicate AnyOccurs(s: string, ops: seq<string>)
  {
    exists k :: 0 <= k < |ops| && Contains(s, ops[k])
  }

  /** `parse_predicate`: the call form with arguments split at every comma, else a constraint, else nothing. */
  function ParsePredicate(s: string, ops: seq<string>): Option<Pred>
  {
    var (neg, u) := Unnegate(s);
    match MatchCall(u)
    case Some((name, args)) => Some(Atom(name, StripAll(SplitOn(args, ',')), neg))
    case None => if AnyOccurs(u, ops) then Some(Constraint(u)) else None
  }

  /** The body loop of `parse_datalog_rule`: parse each stripped piece, keep what parsed. */
  function ParseBody(parts: seq<string>, ops: seq<string>): seq<Pred>
  {
    if parts == [] then []
    else ParseBody(parts[..|parts| - 1], ops) + Present(ParsePredicate(Strip(parts[|parts| - 1]), ops))
  }

  /** `[x] if x else []` */
  function Present<T>(o: Option<T>): seq<T>
  {
    if o.Some? then [o.value] else []
  }

  /**
   * `parse_datalog_rule`: None for `(None, None)`, otherwise the head (which may
   * itself be None) and the parsed body.
   */
  function ParseRule(rule: string, ops: seq<string>): Option<(Option<Pred>, seq<Pred>)>
  {
    var t := RStripChar(Strip(rule), '.');
    if !Contains(t, ":-") then None
    else
      var (h, b) := SplitFirst(t, ":-");
      Some((ParsePredicate(Strip(h), ops), ParseBody(Parts(b), ops)))
  }

  /** `parse_datalog_rule`: split at the first ":-", parse the head, then each body piece. */
  method ParseDatalogRule(ruleStr: string, ops: seq<string>) returns (r: Option<(Option<Pred>, seq<Pred>)>)
    ensures r == ParseRule(ruleStr, ops)
  {
    var t := RStripChar(Strip(ruleStr), '.');
    if !Contains(t, ":-") {
      return None;
    }
    var (headStr, bodyStr) := SplitFirst(t, ":-");
    ParseRuleOf(ruleStr, ops, headStr, bodyStr);
    var head := ParsePredicate(Strip(headStr), ops);
    var bodyParts := SplitBody(bodyStr);
    var bodyPreds := ParseParts(bodyParts, ops);
    return Some((head, bodyPreds));
  }

  /** The loop of `parse_datalog_rule` over the body pieces: keep each piece that parses. */
  method ParseParts(bodyParts: seq<string>, ops: seq<string>) returns (bodyPreds: seq<Pred>)
    ensures bodyPreds == ParseBody(bodyParts, ops)
  {
    bodyPreds := [];
    for i := 0 to |bodyParts|
      invariant bodyPreds == ParseBody(bodyParts[..i], ops)
    {
      ParseBodySnoc(bodyParts, i, ops);
      var pred := ParsePredicate(Strip(bodyParts[i]), ops);
      if pred.Some? {
        bodyPreds := bodyPreds + [pred.value];
      }
    }
    assert bodyParts[..|bodyParts|] == bodyParts;
  }

  lemma ParseRuleOf(ruleStr: string, ops: seq<string>, h: string, b: string)
    requires var t := RStripChar(Strip(ruleStr), '.'); Contains(t, ":-") && SplitFirst(t, ":-") == (h, b)
    ensures ParseRule(ruleStr, ops) == Some((ParsePredicate(Strip(h), ops), ParseBody(Parts(b), ops)))
  {
  }

  lemma ParseBodySnoc(parts: seq<string>, i: nat, ops: seq<string>)
    requires i < |parts|
    ensures ParseBody(parts[..i + 1], ops) == ParseBody(parts[..i], ops) + Present(ParsePredicate(Strip(parts[i]), ops))
  {
    assert parts[..i + 1][..i] == parts[..i];
  }

  // ---------------------------------------------------------------------------
  // What parse_predicate returns.

  lemma AnyOccursIff(s: string, ops: seq<string>)
    ensures AnyOccurs(s, ops) <==> exists k, i: nat :: 0 <= k < |ops| && OccursAt(s, ops[k], i)
  {
    forall k | 0 <= k < |ops| {
      ContainsIff(s, ops[k]);
    }
  }

  /**
   * Nothing is returned exactly when the text (after "not ") has no call shape
   * and no operator of the list occurs in it.
   */
  lemma ParsePredicateNone(s: string, ops: seq<string>)
    ensures var u := Unnegate(s).1;
      ParsePredicate(s, ops).None? <==>
        (forall name, args :: !CallShape(u, name, args))
        && (forall k, i: nat :: 0 <= k < |ops| ==> !OccursAt(u, ops[k], i))
  {
    MatchCallNone(Unnegate(s).1);
    AnyOccursIff(Unnegate(s).1, ops);
  }

  /**
   * A text of call shape `name(args)` gives the atom `name` whose arguments are
   * the pieces of args between commas, stripped, one more than args has commas;
   * it is negated exactly when the stripped text started with "not ".
   */
  lemma ParsePredicateAtom(s: string, ops: seq<string>, name: string, args: string)
    requires CallShape(Unnegate(s).1, name, args)
    ensures ParsePredicate(s, ops) == Some(Atom(name, StripAll(SplitOn(args, ',')), StartsWith(Strip(s), "not ")))
    ensures |StripAll(SplitOn(args, ','))| == Count(args, ',') + 1
  {
    MatchCallComplete(Unnegate(s).1, name, args);
    SplitOnCount(args, ',');
  }

  /**
   * Every atom comes from a match of the call pattern (whose shape MatchCallSound
   * describes), its arguments split from the matched text; "negated" is set only
   * by a leading "not ".
   */
  lemma ParsePredicateAtomSound(s: string, ops: seq<string>, name: string, args: seq<string>, negated: bool)
    requires ParsePredicate(s, ops) == Some(Atom(name, args, negated))
    ensures negated == StartsWith(Strip(s), "not ")
    ensures var u := Unnegate(s).1;
      && MatchCall(u).Some? && MatchCall(u).value.0 == name
      && args == StripAll(SplitOn(MatchCall(u).value.1, ','))
  {
  }

  /**
   * A constraint holds the text after "not " (the "not " is dropped and the
   * constraint is never negated), has no call shape, and contains an operator.
   */
  lemma ParsePredicateConstraint(s: string, ops: seq<string>, raw: string)
    requires ParsePredicate(s, ops) == Some(Constraint(raw))
    ensures raw == Unnegate(s).1
    ensures !IsNegated(Constraint(raw)) && Name(Constraint(raw)) == "constraint"
    ensures forall name, args :: !CallShape(raw, name, args)
    ensures exists k, i: nat :: 0 <= k < |ops| && OccursAt(raw, ops[k], i)
  {
    MatchCallNone(raw);
    AnyOccursIff(raw, ops);
  }

  /** An atom's name is a non-empty run of word characters: what `\w+` matched. */
  lemma ParsePredicateWordName(s: string, ops: seq<string>)
    requires ParsePredicate(s, ops).Some? && ParsePredicate(s, ops).value.Atom?
    ensures |ParsePredicate(s, ops).value.name| > 0 && AllWord(ParsePredicate(s, ops).value.name)
  {
    var u := Unnegate(s).1;
    MatchCallSome(u, MatchCall(u).value.0, MatchCall(u).value.1);
  }

  /** Every atom of a parsed body has a word-character name. */
  lemma {:induction false} ParseBodyWordNames(parts: seq<string>, ops: seq<string>)
    ensures forall p :: p in ParseBody(parts, ops) && p.Atom? ==> |p.name| > 0 && AllWord(p.name)
  {
    if parts != [] {
      var init, last := parts[..|parts| - 1], Strip(parts[|parts| - 1]);
      var done, o := ParseBody(init, ops), ParsePredicate(last, ops);
      assert ParseBody(parts, ops) == done + Present(o);
      ParseBodyWordNames(init, ops);
      if o.Some? && o.value.Atom? {
        ParsePredicateWordName(last, ops);
      }
      forall p | p in done + Present(o) && p.Atom? ensures |p.name| > 0 && AllWord(p.name) {
        if p !in done {
          assert p == o.value;
        }
      }
    }
  }

  /** Every atom of a parsed rule's body has a non-empty word-character name. */
  lemma ParseRuleWordNames(rule: string, ops: seq<string>)
    requires ParseRule(rule, ops).Some?
    ensures forall p :: p in ParseRule(rule, ops).value.1 && p.Atom? ==> |p.name| > 0 && AllWord(p.name)
  {
    var t := RStripChar(Strip(rule), '.');
    var (h, b) := SplitFirst(t, ":-");
    ParseRuleOf(rule, ops, h, b);
    ParseBodyWordNames(Parts(b), ops);
  }

  lemma NotEqualStripped(s: string)
    requires s == "A != B"
    ensures Unnegate(s) == (false, s)
  {
    assert s[0] == 'A' && s[|s| - 1] == 'B';
    StripUnchanged(s);
    assert s[..4] != "not " by {
      assert s[..4][0] == 'A';
    }
    UnnegatePlain(s);
  }

  lemma NotEqualNoOp(op: string)
    requires op in CramptonOps
    ensures !Contains("A != B", op)
  {
    var s := "A != B";
    ContainsIff(s, op);
    forall i: nat ensures !OccursAt(s, op, i) {
      if i + |op| <= |s| {
        assert s[i..i + |op|][0] == s[i];
        if op == "==" && i == 3 {
          assert s[i..i + |op|][1] == ' ';
        }
      }
    }
  }

  /** "A != B" is a constraint for cheng.py and nothing at all for crampton.py. */
  lemma NotEqualConstraint(s: string)
    requires s == "A != B"
    ensures ParsePredicate(s, ChengOps) == Some(Constraint(s))
    ensures ParsePredicate(s, CramptonOps) == None
  {
    NotEqualStripped(s);
    WordRunOf(s, 1);
    assert MatchCall(s).None?;
    forall k | 0 <= k < |CramptonOps| ensures !Contains(s, CramptonOps[k]) {
      NotEqualNoOp(CramptonOps[k]);
    }
    assert Contains(s, ChengOps[5]) by {
      ContainsIff(s, "!=");
      assert s[2..4] == "!=";
      assert OccursAt(s, "!=", 2);
    }
  }

  // ---------------------------------------------------------------------------
  // What parse_datalog_rule returns.

  /**
   * No rule without ":-" (after stripping and removing every trailing "."); a rule
   * is split at its first ":-" only, the head is the text before it and the body
   * is the rest, cut at depth-0 commas.
   */
  lemma ParseRuleSpec(rule: string, ops: seq<string>)
    ensures var t := RStripChar(Strip(rule), '.');
      && (ParseRule(rule, ops).None? <==> !Contains(t, ":-"))
      && (t != [] ==> t[|t| - 1] != '.')
      && (ParseRule(rule, ops).Some? ==>
            exists h, b ::
              && t == h + ":-" + b
              && !Contains(h, ":-")
              && ParseRule(rule, ops).value == (ParsePredicate(Strip(h), ops), ParseBody(Parts(b), ops)))
  {
    var t := RStripChar(Strip(rule), '.');
    if Contains(t, ":-") {
      var (h, b) := SplitFirst(t, ":-");
      SplitFirstHead(t, ":-");
    }
  }
}
