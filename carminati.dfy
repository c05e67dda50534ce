/**
 * carminati.py: a Datalog rule becomes a SWRL-style rule `b1 ∧ b2 ∧ ... => head`
 * for Carminati's semantic-web ReBAC model. Variables get a "?" prefix; literals
 * are kept as they are.
 */
module Carminati {
  import opened Wrappers
  import opened Text
  import opened Patterns
  import opened TopLevel
  import opened Rows

  /** `term.replace(".", "", 1).isdigit()`: a number with at most one decimal point. */
  predicate Numeric(t: string)
  {
    IsDigits(RemoveFirst(t, '.'))
  }

  /** The stripped terms `parse_term` keeps as they are: empty, quoted, or numeric. */
  predicate Literal(t: string)
  {
    || t == ""
    || (StartsWith(t, "'") && EndsWith(t, "'"))
    || (StartsWith(t, "\"") && EndsWith(t, "\""))
    || Numeric(t)
  }

  /** `parse_term`: literals come back stripped, anything else is a variable and gets "?". */
  function ParseTerm(term: string): (r: string)
    ensures Literal(Strip(term)) ==> r == Strip(term)
    ensures !Literal(Strip(term)) ==> r == "?" + Strip(term)
  {
    var t := Strip(term);
    if t == "" then t
    else if StartsWith(t, "'") && EndsWith(t, "'") then t
    else if StartsWith(t, "\"") && EndsWith(t, "\"") then t
    else if IsDigits(RemoveFirst(t, '.')) then t
    else "?" + t
  }

  /** `[parse_term(arg) for arg in args]` */
  function ParseTerms(args: seq<string>): (r: seq<string>)
    ensures |r| == |args|
    ensures forall k :: 0 <= k < |args| ==> r[k] == ParseTerm(args[k])
  {
    if args == [] then [] else ParseTerms(args[..|args| - 1]) + [ParseTerm(args[|args| - 1])]
  }

  /** What `parse_predicate` returns for s. */
  function Format(s: string): string
    decreases |s|, 3, 0
  {
    FormatText(Unnegate(s).0, Unnegate(s).1)
  }

  /** `parse_predicate` after the "not " prefix (negated) was removed from the stripped text u. */
  function FormatText(negated: bool, u: string): string
    decreases |u|, 2, 0
  {
    if MatchCall(u).Some? then FormatCall(negated, MatchCall(u).value.0, MatchCall(u).value.1)
    else if MatchInfix(u).Some? then FormatInfix(MatchInfix(u).value.0, MatchInfix(u).value.1, MatchInfix(u).value.2)
    else if StartsWith(u, "(") && EndsWith(u, ")") then FormatGroup(u)
    else u
  }

  /** `name(a1,...,an)`, the arguments split at depth-0 commas and passed through parse_term. */
  function FormatCall(negated: bool, name: string, text: string): string
  {
    var formatted := name + "(" + Join(ParseTerms(StripAll(Parts(text))), ",") + ")";
    if negated then "not " + formatted else formatted
  }

  function FormatInfix(left: string, op: string, right: string): string
  {
    ParseTerm(left) + " " + op + " " + ParseTerm(right)
  }

  /** A parenthesised text: its content, split at every ";" if it has one, formatted inside parentheses. */
  function FormatGroup(u: string): string
    requires u != []
    decreases |u|, 1, 0
  {
    var content := Content(u);
    if ';' in content then "(" + Join(FormatAll(SplitOn(content, ';'), |u|), " ; ") + ")"
    else "(" + Format(content) + ")"
  }

  /** `u[1:-1]` for parenthesised text: the text between the outer brackets. */
  function Content(u: string): (r: string)
    requires u != []
    ensures |r| < |u|
  {
    if |u| >= 2 then u[1..|u| - 1] else ""
  }

  /** `[parse_predicate(p) for p in parts]` over pieces shorter than n. */
  function FormatAll(parts: seq<string>, n: nat): (r: seq<string>)
    requires forall k :: 0 <= k < |parts| ==> |parts[k]| < n
    ensures |r| == |parts|
    decreases n, 0, |parts|
  {
    if parts == [] then []
    else FormatAll(parts[..|parts| - 1], n) + [Format(parts[|parts| - 1])]
  }

  /** `parse_predicate` */
  method ParsePredicate(predStr: string) returns (r: string)
    ensures r == Format(predStr)
    decreases |predStr|, 3
  {
    var isNegated := false;
    var s := Strip(predStr);
    if StartsWith(s, "not ") {
      isNegated := true;
      s := Strip(s[4..]);
    }
    assert (isNegated, s) == Unnegate(predStr);
    var m := MatchCall(s);
    if m.Some? {
      var (name, argsStr) := m.value;
      r := ParseCall(isNegated, name, argsStr);
      return;
    }
    var im := MatchInfix(s);
    if im.Some? {
      var (left, op, right) := im.value;
      return ParseTerm(left) + " " + op + " " + ParseTerm(right);
    }
    if StartsWith(s, "(") && EndsWith(s, ")") {
      r := ParseParen(s);
      return;
    }
    return s;
  }

  /** The call branch of `parse_predicate`. */
  method ParseCall(isNegated: bool, name: string, argsStr: string) returns (formatted: string)
    ensures formatted == FormatCall(isNegated, name, argsStr)
  {
    var args := SplitStripped(argsStr);
    var newArgs := ParseTerms(args);
    formatted := name + "(" + Join(newArgs, ",") + ")";
    if isNegated {
      formatted := "not " + formatted;
    }
  }

  /** The parenthesised branch of `parse_predicate`. */
  method ParseParen(s: string) returns (r: string)
    requires s != []
    ensures r == FormatGroup(s)
    decreases |s|, 1
  {
    var content := Content(s);
    if ';' in content {
      var parts := SplitOn(content, ';');
      var parsedParts := ParseGroup(parts, |s|);
      return "(" + Join(parsedParts, " ; ") + ")";
    } else {
      var inner := ParsePredicate(content);
      return "(" + inner + ")";
    }
  }

  /** `[parse_predicate(p) for p in parts]`, the pieces of a group shorter than the group. */
  method ParseGroup(parts: seq<string>, ghost n: nat) returns (parsed: seq<string>)
    requires forall k :: 0 <= k < |parts| ==> |parts[k]| < n
    ensures parsed == FormatAll(parts, n)
    decreases n, 0
  {
    parsed := [];
    for i := 0 to |parts|
      invariant parsed == FormatAll(parts[..i], n)
    {
      assert parts[..i + 1][..i] == parts[..i];
      var p := ParsePredicate(parts[i]);
      parsed := parsed + [p];
    }
    assert parts[..|parts|] == parts;
  }

  // ---------------------------------------------------------------------------
  // One row of `convert_datalog_to_carminati`.

  /** `[parse_predicate(p) for p in pieces]` */
  function FormatPieces(pieces: seq<string>): (r: seq<string>)
    ensures |r| == |pieces|
  {
    if pieces == [] then [] else FormatPieces(pieces[..|pieces| - 1]) + [Format(pieces[|pieces| - 1])]
  }

  /** The rule one `datalog_actions` cell yields: nothing for an empty cell or one without ":-". */
  function Row(action: string): Option<string>
  {
    if action == "" || !Contains(Cell(action), ":-") then None
    else
      var (headStr, bodyStr) := HeadBody(Cell(action));
      Some(Join(FormatPieces(StripAll(Parts(bodyStr))), " ∧ ") + " => " + Format(headStr))
  }

  /** The body of the row loop of `convert_datalog_to_carminati`. */
  method ConvertRow(action: string) returns (r: Option<string>)
    ensures r == Row(action)
  {
    if action == "" {
      return None;
    }
    var a := ReplaceChar(action, '\n', ' ');
    if !Contains(a, ":-") {
      return None;
    }
    var headStr, bodyStr := SplitAction(a);
    var headFormatted := ParsePredicate(headStr);
    var bodyPreds := SplitStripped(bodyStr);
    var formattedBodyPreds := FormatBody(bodyPreds);
    return Some(Join(formattedBodyPreds, " ∧ ") + " => " + headFormatted);
  }

  /** The loop that formats each body piece. */
  method FormatBody(bodyPreds: seq<string>) returns (formatted: seq<string>)
    ensures formatted == FormatPieces(bodyPreds)
  {
    formatted := [];
    for i := 0 to |bodyPreds|
      invariant formatted == FormatPieces(bodyPreds[..i])
    {
      assert bodyPreds[..i + 1][..i] == bodyPreds[..i];
      var p := ParsePredicate(bodyPreds[i]);
      formatted := formatted + [p];
    }
    assert bodyPreds[..|bodyPreds|] == bodyPreds;
  }

  // ---------------------------------------------------------------------------
  // What parse_term and parse_predicate return.

  /** Numeric text is digits and at most one ".", with at least one digit. */
  lemma NumericIff(t: string)
    ensures Numeric(t) <==> DecimalShape(t)
  {
    NumericSound(t);
    NumericComplete(t);
  }

  /** Digits and at most one ".", with at least one digit. */
  predicate DecimalShape(t: string)
  {
    && (forall i :: 0 <= i < |t| ==> IsDigit(t[i]) || t[i] == '.')
    && Count(t, '.') <= 1
    && (exists i :: 0 <= i < |t| && IsDigit(t[i]))
  }

  /** Removing the first "." of t, found at i. */
  lemma RemoveDot(t: string, i: nat)
    requires FindChar(t, '.') == Some(i)
    ensures RemoveFirst(t, '.') == t[..i] + t[i + 1..]
    ensures Count(t, '.') == 1 + Count(t[i + 1..], '.')
  {
    var head, rest := t[..i], t[i + 1..];
    assert t == head + ([t[i]] + rest);
    CountAppend(head, [t[i]] + rest, '.');
    CountAbsent(head, '.');
    assert ([t[i]] + rest)[1..] == rest;
  }

  lemma NumericSound(t: string)
    ensures Numeric(t) ==> DecimalShape(t)
  {
    if Numeric(t) {
      var r := RemoveFirst(t, '.');
      match FindChar(t, '.')
      case None =>
        CountAbsent(t, '.');
        assert IsDigit(t[0]);
      case Some(i) =>
        RemoveDot(t, i);
        var rest := t[i + 1..];
        forall j | 0 <= j < |rest| ensures rest[j] != '.' {
          assert rest[j] == r[i + j];
        }
        CountAbsent(rest, '.');
        forall j | 0 <= j < |t| ensures IsDigit(t[j]) || t[j] == '.' {
          if j < i {
            assert t[j] == r[j];
          } else if j > i {
            assert t[j] == r[j - 1];
          }
        }
        if i > 0 {
          assert t[0] == r[0];
        } else {
          assert t[1] == r[0];
        }
    }
  }

  lemma NumericComplete(t: string)
    ensures DecimalShape(t) ==> Numeric(t)
  {
    if DecimalShape(t) {
      var r := RemoveFirst(t, '.');
      var j :| 0 <= j < |t| && IsDigit(t[j]);
      match FindChar(t, '.')
      case None =>
        assert r == t;
      case Some(i) =>
        RemoveDot(t, i);
        var rest := t[i + 1..];
        forall m | 0 <= m < |rest| ensures rest[m] != '.' {
          if rest[m] == '.' {
            CountPresent(rest, '.', m);
          }
        }
        assert j != i;
        forall k | 0 <= k < |r| ensures IsDigit(r[k]) {
          if k < i {
            assert r[k] == t[k];
          } else {
            assert r[k] == rest[k - i] == t[k + 1];
          }
        }
    }
  }

  /** "?" is added by the variable branch only. */
  lemma TermMarked(term: string)
    ensures StartsWith(ParseTerm(term), "?") <==> !Literal(Strip(term)) || StartsWith(Strip(term), "?")
  {
  }

  lemma ParseTermStrip(term: string)
    ensures ParseTerm(Strip(term)) == ParseTerm(term)
  {
    StripIdempotent(term);
  }

  /** parse_predicate strips first, so surrounding whitespace never matters. */
  lemma FormatStrip(s: string)
    ensures Format(Strip(s)) == Format(s)
  {
    StripIdempotent(s);
  }

  /**
   * The call form: each depth-0 argument piece goes through parse_term, the
   * results are joined by "," without spaces, and "not " is put back in front of
   * a negated call.
   */
  lemma CallFormat(s: string, name: string, text: string)
    requires MatchCall(Unnegate(s).1) == Some((name, text))
    ensures var f := name + "(" + Join(ParseTerms(Parts(text)), ",") + ")";
      Format(s) == if Unnegate(s).0 then "not " + f else f
  {
    CallText(Unnegate(s).0, Unnegate(s).1, name, text);
    ParseTermsStripped(Parts(text));
  }

  lemma CallText(negated: bool, u: string, name: string, text: string)
    requires MatchCall(u) == Some((name, text))
    ensures var f := name + "(" + Join(ParseTerms(StripAll(Parts(text))), ",") + ")";
      FormatText(negated, u) == if negated then "not " + f else f
  {
    assert FormatText(negated, u) == FormatCall(negated, name, text);
  }

  lemma ParseTermsStripped(ps: seq<string>)
    ensures ParseTerms(StripAll(ps)) == ParseTerms(ps)
  {
    forall k | 0 <= k < |ps| ensures ParseTerms(StripAll(ps))[k] == ParseTerms(ps)[k] {
      StripAllAt(ps, k);
      ParseTermStrip(ps[k]);
    }
  }

  /** With no comma inside any argument, the rendered argument list splits back into the arguments. */
  lemma CallArgumentsRoundTrip(s: string, name: string, text: string)
    requires MatchCall(Unnegate(s).1) == Some((name, text))
    requires Parts(text) != []
    requires forall k :: 0 <= k < |Parts(text)| ==> ',' !in ParseTerm(Parts(text)[k])
    ensures SplitOn(Join(ParseTerms(Parts(text)), ","), ',') == ParseTerms(Parts(text))
  {
    SplitOnJoin(ParseTerms(Parts(text)), ',');
  }

  /** "not " is kept only in front of a call: every other form drops it. */
  lemma NegationOnlyInCalls(u: string)
    ensures MatchCall(u).Some? ==> FormatText(true, u) == "not " + FormatText(false, u)
    ensures MatchCall(u).None? ==> FormatText(true, u) == FormatText(false, u)
  {
  }

  /** A comparison is `left op right` with both operands through parse_term and single spaces around op. */
  lemma InfixFormat(s: string)
    requires MatchCall(Unnegate(s).1).None? && MatchInfix(Unnegate(s).1).Some?
    ensures var (left, op, right) := MatchInfix(Unnegate(s).1).value;
      && Format(s) == ParseTerm(left) + " " + op + " " + ParseTerm(right)
      && op in InfixOps && left != [] && StartsWith(Unnegate(s).1, left)
  {
    var (left, op, right) := MatchInfix(Unnegate(s).1).value;
    MatchInfixSound(Unnegate(s).1, left, op, right);
  }

  lemma {:induction false} FormatAllAt(parts: seq<string>, n: nat, k: nat)
    requires forall j :: 0 <= j < |parts| ==> |parts[j]| < n
    requires k < |parts|
    ensures FormatAll(parts, n)[k] == Format(parts[k])
  {
    if k < |parts| - 1 {
      FormatAllAt(parts[..|parts| - 1], n, k);
    }
  }

  /**
   * Parenthesised text with a ";": one piece per ";" plus one (the split is not
   * depth-aware), each piece formatted on its own, joined by " ; " inside
   * parentheses; the pieces give the content back.
   */
  lemma GroupFormat(s: string)
    requires var u := Unnegate(s).1;
      MatchCall(u).None? && MatchInfix(u).None? && StartsWith(u, "(") && EndsWith(u, ")") && ';' in Content(u)
    ensures var u := Unnegate(s).1; var pieces := SplitOn(Content(u), ';');
      && |pieces| == Count(Content(u), ';') + 1
      && Join(pieces, ";") == Content(u)
      && exists items: seq<string> ::
        && |items| == |pieces|
        && (forall k :: 0 <= k < |pieces| ==> items[k] == Format(pieces[k]))
        && Format(s) == "(" + Join(items, " ; ") + ")"
  {
    var u := Unnegate(s).1;
    var pieces := SplitOn(Content(u), ';');
    GroupPieces(Content(u));
    assert Format(s) == FormatText(Unnegate(s).0, u);
    GroupText(Unnegate(s).0, u);
    var items := FormatAll(pieces, |u|);
    GroupItems(pieces, |u|);
  }

  /** The ";" pieces of a content: one more than its ";"s, and joined back they give it. */
  lemma GroupPieces(c: string)
    ensures |SplitOn(c, ';')| == Count(c, ';') + 1 && Join(SplitOn(c, ';'), ";") == c
  {
    SplitOnCount(c, ';');
    JoinSplitOn(c, ';');
  }

  lemma GroupItems(pieces: seq<string>, n: nat)
    requires forall k :: 0 <= k < |pieces| ==> |pieces[k]| < n
    ensures forall k :: 0 <= k < |pieces| ==> FormatAll(pieces, n)[k] == Format(pieces[k])
  {
    forall k | 0 <= k < |pieces| ensures FormatAll(pieces, n)[k] == Format(pieces[k]) {
      FormatAllAt(pieces, n, k);
    }
  }

  lemma GroupText(negated: bool, u: string)
    requires MatchCall(u).None? && MatchInfix(u).None? && StartsWith(u, "(") && EndsWith(u, ")") && ';' in Content(u)
    ensures FormatText(negated, u) == "(" + Join(FormatAll(SplitOn(Content(u), ';'), |u|), " ; ") + ")"
  {
  }

  /** Parenthesised text without ";" is its content formatted, in parentheses. */
  lemma ParenFormat(s: string)
    requires var u := Unnegate(s).1;
      MatchCall(u).None? && MatchInfix(u).None? && StartsWith(u, "(") && EndsWith(u, ")") && ';' !in Content(u)
    ensures Format(s) == "(" + Format(Content(Unnegate(s).1)) + ")"
  {
    var u := Unnegate(s).1;
    assert Format(s) == FormatText(Unnegate(s).0, u);
    assert FormatText(Unnegate(s).0, u) == FormatGroup(u);
  }

  /** Anything else comes back as the stripped text, without its "not " prefix. */
  lemma PlainFormat(s: string)
    requires var u := Unnegate(s).1;
      MatchCall(u).None? && MatchInfix(u).None? && !(StartsWith(u, "(") && EndsWith(u, ")"))
    ensures Format(s) == Unnegate(s).1
  {
  }

  /** parse_predicate gives the empty string exactly for blank text. */
  lemma FormatEmpty(s: string)
    ensures Format(s) == "" <==> Strip(s) == ""
  {
    UnnegateBlank(s);
    FormatTextEmpty(Unnegate(s).0, Unnegate(s).1);
  }

  /** Every branch of parse_predicate yields something for a non-empty text. */
  lemma FormatTextEmpty(negated: bool, u: string)
    ensures FormatText(negated, u) == "" <==> u == ""
  {
    if u == "" {
      assert MatchCall(u).None? && MatchInfix(u).None?;
    } else if MatchCall(u).Some? {
      var m := MatchCall(u).value;
      assert FormatText(negated, u) == FormatCall(negated, m.0, m.1);
    } else if MatchInfix(u).Some? {
      var m := MatchInfix(u).value;
      assert FormatText(negated, u) == FormatInfix(m.0, m.1, m.2);
    }
  }

  // ---------------------------------------------------------------------------
  // What one row yields.

  lemma {:induction false} FormatPiecesAt(pieces: seq<string>, k: nat)
    requires k < |pieces|
    ensures FormatPieces(pieces)[k] == Format(pieces[k])
  {
    if k < |pieces| - 1 {
      FormatPiecesAt(pieces[..|pieces| - 1], k);
    }
  }

  /** Empty cells and cells without ":-" produce no rule. */
  lemma RowCases(action: string)
    ensures Row(action).None? <==> action == "" || !Contains(Cell(action), ":-")
  {
  }

  /** A rule row is `b1 ∧ ... ∧ bn => head`, one item per depth-0 piece of the body. */
  lemma RowRule(action: string)
    requires action != "" && Contains(Cell(action), ":-")
    ensures var (headStr, bodyStr) := HeadBody(Cell(action));
      exists items: seq<string> ::
        && |items| == |Parts(bodyStr)|
        && (forall k :: 0 <= k < |items| ==> items[k] == Format(Parts(bodyStr)[k]))
        && Row(action) == Some(Join(items, " ∧ ") + " => " + Format(headStr))
  {
    var (headStr, bodyStr) := HeadBody(Cell(action));
    var ps := Parts(bodyStr);
    var items := FormatPieces(StripAll(ps));
    forall k | 0 <= k < |items| ensures items[k] == Format(ps[k]) {
      FormatPiecesAt(StripAll(ps), k);
      StripAllAt(ps, k);
      FormatStrip(ps[k]);
    }
  }
}
