/**
 * The two regular expressions of the translators, as deterministic scanners that
 * return what `re.match` returns for them (`.` matches anything but a newline,
 * `\s` is Python whitespace, `\w` is ASCII).
 *
 *   call form:  `(\w+)\((.*)\)`                               -> (name, args text)
 *   infix form: `(.+?)\s*(=|>=|<=|>|<|!=|in)\s*(.+)`           -> (left, op, right)
 */
module Patterns {
  import opened Wrappers
  import opened Text

  /**
   * The shared prologue of every `parse_predicate`: strip, and when the text starts
   * with "not " drop those four characters and strip again. Returns (negated, rest).
   */
  function Unnegate(s: string): (r: (bool, string))
    ensures |r.1| <= |s|
  {
    var t := Strip(s);
    if StartsWith(t, "not ") then (true, Strip(t[4..])) else (false, t)
  }

  /** Text already stripped and without the "not " prefix is not negated and stays as it is. */
  lemma UnnegatePlain(s: string)
    requires Strip(s) == s && !StartsWith(s, "not ")
    ensures Unnegate(s) == (false, s)
  {
  }

  /** Removing "not " never leaves nothing of a text that is not blank. */
  lemma UnnegateBlank(s: string)
    ensures Unnegate(s).1 == "" <==> Strip(s) == ""
  {
    var t := Strip(s);
    if StartsWith(t, "not ") {
      assert t[..4] == "not ";
      assert t[3] == ' ';
      assert IsSpace(' ');
      assert |t| > 4;
      var w := t[4..];
      assert w[|w| - 1] == t[|t| - 1];
      StripKeepsLast(w);
      assert Unnegate(s) == (true, Strip(w));
    } else {
      assert Unnegate(s) == (false, t);
    }
  }

  /** Length of the run of word characters at the front of s. */
  function WordRun(s: string): (n: nat)
    ensures n <= |s|
    ensures forall k :: 0 <= k < n ==> IsWordChar(s[k])
    ensures n < |s| ==> !IsWordChar(s[n])
  {
    if s != [] && IsWordChar(s[0]) then 1 + WordRun(s[1..]) else 0
  }

  /** Index of the first newline at or after i, or |s|: where a `.*` started at i must stop. */
  function LineEnd(s: string, i: nat): (e: nat)
    requires i <= |s|
    ensures i <= e <= |s|
    decreases |s| - i
  {
    if i == |s| || s[i] == '\n' then i else LineEnd(s, i + 1)
  }

  /** No newline before the line end, and a newline at it unless the text ends there. */
  lemma {:induction false} LineEndSpec(s: string, i: nat)
    requires i <= |s|
    ensures forall k :: i <= k < LineEnd(s, i) ==> s[k] != '\n'
    ensures LineEnd(s, i) < |s| ==> s[LineEnd(s, i)] == '\n'
    decreases |s| - i
  {
    if i < |s| && s[i] != '\n' {
      LineEndSpec(s, i + 1);
    }
  }

  /** The index of the last occurrence of c in s. */
  function FindLast(s: string, c: char): (r: Option<nat>)
    ensures r.Some? ==> r.value < |s| && s[r.value] == c && c !in s[r.value + 1..]
    ensures r.None? <==> c !in s
  {
    if s == [] then None
    else if s[|s| - 1] == c then Some(|s| - 1)
    else
      var r := FindLast(s[..|s| - 1], c);
      assert r.Some? ==> s[r.value + 1..] == s[..|s| - 1][r.value + 1..] + [s[|s| - 1]];
      assert r.None? ==> s == s[..|s| - 1] + [s[|s| - 1]];
      r
  }

  /**
   * `re.match(r"(\w+)\((.*)\)", s)`: the name is the whole leading word run, which
   * must be followed by "("; `.*` then runs to the end of the line and backs off to
   * the last ")" on it. Text after that ")" is not looked at.
   */
  function MatchCall(s: string): Option<(string, string)>
  {
    var n := WordRun(s);
    if n == 0 || n == |s| || s[n] != '(' then None
    else
      var line := s[n + 1..LineEnd(s, n + 1)];
      match FindLast(line, ')')
      case None => None
      case Some(k) => Some((s[..n], line[..k]))
  }

  predicate AllWord(s: string)
  {
    forall k :: 0 <= k < |s| ==> IsWordChar(s[k])
  }

  /** What the call pattern accepts: `name(args)rest` with no ")" in the rest of the line. */
  predicate CallShape(s: string, name: string, args: string)
  {
    && |name| > 0 && AllWord(name)
    && |name| + |args| + 2 <= |s|
    && s[..|name|] == name && s[|name|] == '('
    && s[|name| + 1..|name| + 1 + |args|] == args
    && s[|name| + 1 + |args|] == ')'
    && '\n' !in args
    && ')' !in s[|name| + |args| + 2..LineEnd(s, |name| + |args| + 2)]
  }

  /** The scanner returns exactly the decomposition the pattern describes. */
  lemma MatchCallSound(s: string)
    ensures MatchCall(s).Some? ==> CallShape(s, MatchCall(s).value.0, MatchCall(s).value.1)
  {
    if MatchCall(s).Some? {
      MatchCallSome(s, MatchCall(s).value.0, MatchCall(s).value.1);
    }
  }

  lemma MatchCallSome(s: string, name: string, args: string)
    requires MatchCall(s) == Some((name, args))
    ensures CallShape(s, name, args)
  {
    var n := WordRun(s);
    var e := LineEnd(s, n + 1);
    var line := s[n + 1..e];
    var k := FindLast(line, ')').value;
    assert name == s[..n] && args == line[..k];
    WordPrefix(s);
    CallLine(s, n, k);
    CallShapeAt(s, n, k);
  }

  /** The call shape, stated on the positions of "(" and ")". */
  lemma CallShapeAt(s: string, n: nat, k: nat)
    requires 0 < n && n + k + 2 <= |s| && AllWord(s[..n]) && s[n] == '('
    requires s[n + 1 + k] == ')' && '\n' !in s[n + 1..n + 1 + k]
    requires ')' !in s[n + k + 2..LineEnd(s, n + k + 2)]
    ensures CallShape(s, s[..n], s[n + 1..n + 1 + k])
  {
    var name, args := s[..n], s[n + 1..n + 1 + k];
    assert |name| == n && |args| == k;
  }

  lemma WordPrefix(s: string)
    ensures AllWord(s[..WordRun(s)])
  {
    var n := WordRun(s);
    forall j | 0 <= j < n ensures IsWordChar(s[..n][j]) {
      assert s[..n][j] == s[j];
    }
  }

  /** The arguments and the text after the closing ")" as the line of a call sees them. */
  lemma CallLine(s: string, n: nat, k: nat)
    requires n < |s| && k < LineEnd(s, n + 1) - (n + 1)
    requires FindLast(s[n + 1..LineEnd(s, n + 1)], ')') == Some(k)
    ensures n + k + 2 <= |s| && s[n + 1..n + 1 + k] == s[n + 1..LineEnd(s, n + 1)][..k]
    ensures s[n + 1 + k] == ')' && '\n' !in s[n + 1..n + 1 + k]
    ensures ')' !in s[n + k + 2..LineEnd(s, n + k + 2)]
  {
    var e := LineEnd(s, n + 1);
    TakeOfSlice(s, n + 1, e, k);
    IndexOfSlice(s, n + 1, e, k);
    LineEndSpec(s, n + 1);
    NoneInRange(s, n + 1, n + 1 + k, '\n');
    CallLineEnd(s, n, k);
    CallTail(s, n, k);
  }

  lemma CallTail(s: string, n: nat, k: nat)
    requires n < |s| && k < LineEnd(s, n + 1) - (n + 1)
    requires FindLast(s[n + 1..LineEnd(s, n + 1)], ')') == Some(k)
    requires LineEnd(s, n + 1) == LineEnd(s, n + k + 2)
    ensures ')' !in s[n + k + 2..LineEnd(s, n + k + 2)]
  {
    var e := LineEnd(s, n + 1);
    assert ')' !in s[n + 1..e][k + 1..];
    DropOfSlice(s, n + 1, e, k + 1);
  }

  lemma TakeOfSlice(s: string, a: nat, b: nat, k: nat)
    requires a <= b <= |s| && k <= b - a
    ensures s[a..b][..k] == s[a..a + k]
  {
  }

  lemma DropOfSlice(s: string, a: nat, b: nat, j: nat)
    requires a <= b <= |s| && j <= b - a
    ensures s[a..b][j..] == s[a + j..b]
  {
  }

  lemma IndexOfSlice(s: string, a: nat, b: nat, k: nat)
    requires a <= b <= |s| && k < b - a
    ensures s[a..b][k] == s[a + k]
  {
  }

  lemma NoneInRange(s: string, i: nat, j: nat, c: char)
    requires i <= j <= |s| && forall k :: i <= k < j ==> s[k] != c
    ensures c !in s[i..j]
  {
    forall m | 0 <= m < j - i ensures s[i..j][m] != c {
      assert s[i..j][m] == s[i + m];
    }
  }

  /** Conversely, any text of that shape is matched, with that name and those args. */
  lemma MatchCallComplete(s: string, name: string, args: string)
    requires CallShape(s, name, args)
    ensures MatchCall(s) == Some((name, args))
  {
    var n, k := |name|, |args|;
    assert name == s[..n] && args == s[n + 1..n + 1 + k];
    assert forall j :: 0 <= j < n ==> IsWordChar(s[j]) by {
      forall j | 0 <= j < n ensures IsWordChar(s[j]) {
        assert s[j] == name[j];
      }
    }
    CallFoundAt(s, n, k);
  }

  /** With the positions of "(" and ")" fixed, the scanner finds that name and those args. */
  lemma CallFoundAt(s: string, n: nat, k: nat)
    requires 0 < n && n + k + 2 <= |s| && s[n] == '('
    requires forall j :: 0 <= j < n ==> IsWordChar(s[j])
    requires s[n + 1 + k] == ')' && '\n' !in s[n + 1..n + 1 + k]
    requires ')' !in s[n + k + 2..LineEnd(s, n + k + 2)]
    ensures MatchCall(s) == Some((s[..n], s[n + 1..n + 1 + k]))
  {
    WordRunOf(s, n);
    CallLineFound(s, n, k);
  }

  lemma CallLineFound(s: string, n: nat, k: nat)
    requires n + k + 2 <= |s|
    requires s[n + 1 + k] == ')' && '\n' !in s[n + 1..n + 1 + k]
    requires ')' !in s[n + k + 2..LineEnd(s, n + k + 2)]
    ensures k < LineEnd(s, n + 1) - (n + 1)
    ensures FindLast(s[n + 1..LineEnd(s, n + 1)], ')') == Some(k)
    ensures s[n + 1..LineEnd(s, n + 1)][..k] == s[n + 1..n + 1 + k]
  {
    CallLineEnd(s, n, k);
    var e := LineEnd(s, n + 1);
    var line := s[n + 1..e];
    IndexOfSlice(s, n + 1, e, k);
    DropOfSlice(s, n + 1, e, k + 1);
    TakeOfSlice(s, n + 1, e, k);
    FindLastIs(line, ')', k);
  }

  /** The line of a call runs past its closing ")", to where the line after it ends. */
  lemma CallLineEnd(s: string, n: nat, k: nat)
    requires n + k + 2 <= |s|
    requires s[n + 1 + k] == ')' && '\n' !in s[n + 1..n + 1 + k]
    ensures n + k + 1 < LineEnd(s, n + 1) == LineEnd(s, n + k + 2)
  {
    forall j | n + 1 <= j < n + k + 1 ensures s[j] != '\n' {
      assert s[j] == s[n + 1..n + 1 + k][j - (n + 1)];
    }
    LineEndFrom(s, n + 1, n + k + 1);
    assert LineEnd(s, n + k + 1) == LineEnd(s, n + k + 2);
  }

  /** The scanner finds nothing exactly when no decomposition has the call shape. */
  lemma MatchCallNone(s: string)
    ensures MatchCall(s).None? <==> forall name, args :: !CallShape(s, name, args)
  {
    MatchCallSound(s);
    forall name, args | CallShape(s, name, args) ensures MatchCall(s).Some? {
      MatchCallComplete(s, name, args);
    }
  }

  lemma WordRunOf(s: string, n: nat)
    requires 0 < n < |s| && (forall k :: 0 <= k < n ==> IsWordChar(s[k])) && !IsWordChar(s[n])
    ensures WordRun(s) == n
  {
    if n > 1 {
      WordRunOf(s[1..], n - 1);
    }
  }

  /** A line end found from i is the one found from any later point of the same line. */
  lemma LineEndFrom(s: string, i: nat, j: nat)
    requires i <= j <= |s|
    requires forall k :: i <= k < j ==> s[k] != '\n'
    ensures LineEnd(s, i) == LineEnd(s, j)
    decreases j - i
  {
    if i < j {
      LineEndFrom(s, i + 1, j);
    }
  }

  lemma FindLastIs(s: string, c: char, k: nat)
    requires k < |s| && s[k] == c && c !in s[k + 1..]
    ensures FindLast(s, c) == Some(k)
  {
    if k < |s| - 1 {
      assert s[|s| - 1] in s[k + 1..];
      assert s[..|s| - 1][k + 1..] == s[k + 1..|s| - 1];
      FindLastIs(s[..|s| - 1], c, k);
    }
  }

  // ---------------------------------------------------------------------------
  // The infix pattern.

  /** The alternatives of the operator group, in the order the regex tries them. */
  const InfixOps: seq<string> := ["=", ">=", "<=", ">", "<", "!=", "in"]

  /** Length of the whitespace run starting at i (a greedy `\s*`). */
  function SpaceRun(s: string, i: nat): (m: nat)
    requires i <= |s|
    ensures i + m <= |s|
    decreases |s| - i
  {
    if i < |s| && IsSpace(s[i]) then 1 + SpaceRun(s, i + 1) else 0
  }

  /** The run is all whitespace and stops before a character that is not. */
  lemma {:induction false} SpaceRunSpec(s: string, i: nat)
    requires i <= |s|
    ensures forall k :: i <= k < i + SpaceRun(s, i) ==> IsSpace(s[k])
    ensures i + SpaceRun(s, i) < |s| ==> !IsSpace(s[i + SpaceRun(s, i)])
    decreases |s| - i
  {
    if i < |s| && IsSpace(s[i]) {
      SpaceRunSpec(s, i + 1);
    }
  }

  /** The largest index r with q <= r < j and s[r] != '\n'. */
  function LastNonNewline(s: string, q: nat, j: nat): (r: Option<nat>)
    requires q <= j <= |s|
    ensures r.Some? ==> q <= r.value < j && s[r.value] != '\n'
    decreases j - q
  {
    if j == q then None
    else if s[j - 1] != '\n' then Some(j - 1)
    else LastNonNewline(s, q, j - 1)
  }

  /** Only newlines follow the index found; None means [q, j) is all newlines. */
  lemma {:induction false} LastNonNewlineSpec(s: string, q: nat, j: nat)
    requires q <= j <= |s|
    ensures LastNonNewline(s, q, j).Some? ==> forall k :: LastNonNewline(s, q, j).value < k < j ==> s[k] == '\n'
    ensures LastNonNewline(s, q, j).None? ==> forall k :: q <= k < j ==> s[k] == '\n'
    decreases j - q
  {
    if j > q && s[j - 1] == '\n' {
      LastNonNewlineSpec(s, q, j - 1);
    }
  }

  /**
   * `\s*(.+)` matched at q: greedy whitespace, then at least one non-newline
   * character up to the end of the line. If only whitespace is left, `\s*` gives
   * back characters until `.+` can take one that is not a newline.
   */
  function RightOperand(s: string, q: nat): (r: Option<string>)
    requires q <= |s|
    ensures r.Some? ==> r.value != [] && '\n' !in r.value
  {
    var m := SpaceRun(s, q);
    if q + m < |s| then
      var t := s[q + m..LineEnd(s, q + m)];
      SpaceRunSpec(s, q);
      LineEndSpec(s, q + m);
      assert forall k :: 0 <= k < |t| ==> t[k] == s[q + m + k] && t[k] != '\n';
      Some(t)
    else
      match LastNonNewline(s, q, |s|)
      case None => None
      case Some(r) => Some([s[r]])
  }

  /**
   * What `\s*(.+)` at q captures: None exactly when only newlines follow q;
   * otherwise the rest of the line after the whitespace run or, when the run
   * reaches the end, the last character that is not a newline.
   */
  lemma RightOperandSpec(s: string, q: nat)
    requires q <= |s|
    ensures RightOperand(s, q).None? <==> forall k :: q <= k < |s| ==> s[k] == '\n'
    ensures var p := q + SpaceRun(s, q);
      p < |s| ==> RightOperand(s, q) == Some(s[p..LineEnd(s, p)])
    ensures q + SpaceRun(s, q) == |s| && RightOperand(s, q).Some? ==>
      exists k :: q <= k < |s| && RightOperand(s, q) == Some([s[k]]) && s[k] != '\n'
        && forall k' :: k < k' < |s| ==> s[k'] == '\n'
  {
    var p := q + SpaceRun(s, q);
    LastNonNewlineSpec(s, q, |s|);
    if p < |s| {
      SpaceRunSpec(s, q);
      assert IsSpace('\n');
      assert s[p] != '\n';
    } else if LastNonNewline(s, q, |s|).Some? {
      var k := LastNonNewline(s, q, |s|).value;
      assert RightOperand(s, q) == Some([s[k]]);
    }
  }

  /** The first operator of ops that occurs at p and leaves a right operand. */
  function OpAt(s: string, p: nat, ops: seq<string>): Option<(string, string)>
    requires p <= |s|
  {
    if ops == [] then None
    else if OpFits(s, p, ops[0]) then
      Some((ops[0], RightOperand(s, p + |ops[0]|).value))
    else OpAt(s, p, ops[1..])
  }

  /** The operator found occurs at p, is one of ops, and the right operand follows it. */
  lemma {:induction false} OpAtSpec(s: string, p: nat, ops: seq<string>, op: string, right: string)
    requires p <= |s| && OpAt(s, p, ops) == Some((op, right))
    ensures op in ops && OccursAt(s, op, p) && p + |op| <= |s| && RightOperand(s, p + |op|) == Some(right)
  {
    if !OpFits(s, p, ops[0]) {
      OpAtSpec(s, p, ops[1..], op, right);
    }
  }

  /** An operator of ops that occurs at p and leaves a right operand. */
  predicate OpFits(s: string, p: nat, op: string)
  {
    OccursAt(s, op, p) && RightOperand(s, p + |op|).Some?
  }

  /** No operator is found exactly when none of ops occurs at p with a right operand after it. */
  lemma {:induction false} OpAtNone(s: string, p: nat, ops: seq<string>)
    requires p <= |s|
    ensures OpAt(s, p, ops).None? <==> forall op :: op in ops ==> !OpFits(s, p, op)
  {
    if ops != [] {
      OpAtNone(s, p, ops[1..]);
      assert forall op :: op in ops <==> op == ops[0] || op in ops[1..];
    }
  }

  /** The operator found is the first alternative, in the order of ops, that fits. */
  lemma {:induction false} OpAtFirst(s: string, p: nat, ops: seq<string>, op: string, right: string)
    requires p <= |s| && OpAt(s, p, ops) == Some((op, right))
    ensures exists i :: 0 <= i < |ops| && ops[i] == op && forall j :: 0 <= j < i ==> !OpFits(s, p, ops[j])
  {
    if !OpFits(s, p, ops[0]) {
      OpAtFirst(s, p, ops[1..], op, right);
      var i :| 0 <= i < |ops[1..]| && ops[1..][i] == op && forall j :: 0 <= j < i ==> !OpFits(s, p, ops[1..][j]);
      assert ops[i + 1] == op;
      forall j | 0 <= j < i + 1 ensures !OpFits(s, p, ops[j]) {
        if j > 0 {
          assert ops[j] == ops[1..][j - 1];
        }
      }
    }
  }

  /** The match with a left operand of exactly L characters, if there is one. */
  function InfixWithLeft(s: string, L: nat, ops: seq<string>): Option<(string, string)>
    requires 1 <= L <= |s|
  {
    OpAt(s, L + SpaceRun(s, L), ops)
  }

  /** A match with a left operand of L characters: whitespace, an operator of ops, a non-empty right operand. */
  lemma {:induction false} InfixWithLeftSpec(s: string, L: nat, ops: seq<string>, op: string, right: string)
    requires 1 <= L <= |s| && InfixWithLeft(s, L, ops) == Some((op, right))
    ensures op in ops && OccursAt(s, op, L + SpaceRun(s, L))
    ensures right != [] && '\n' !in right
    ensures OpFits(s, L + SpaceRun(s, L), op)
    ensures RightOperand(s, L + SpaceRun(s, L) + |op|) == Some(right)
  {
    OpAtSpec(s, L + SpaceRun(s, L), ops, op, right);
  }

  /**
   * The lazy `(.+?)`: try left operands of length L, L + 1, ... within the first
   * line. A match is `left`, whitespace, an operator of ops and a non-empty
   * right operand, and no shorter left operand (from L on) admits an operator.
   */
  function InfixFrom(s: string, L: nat, ops: seq<string>): (r: Option<(string, string, string)>)
    requires 1 <= L
    decreases |s| - L
    ensures r.Some? ==> L <= |r.value.0| <= |s| && r.value.0 == s[..|r.value.0|]
  {
    if L > |s| || s[L - 1] == '\n' then None
    else match InfixWithLeft(s, L, ops)
      case Some((op, right)) => Some((s[..L], op, right))
      case None => InfixFrom(s, L + 1, ops)
  }

  /** The lazy search stops at the first left operand that admits an operator, within the line. */
  lemma {:induction false} InfixFromSpec(s: string, L: nat, ops: seq<string>)
    requires 1 <= L && InfixFrom(s, L, ops).Some?
    ensures var r := InfixFrom(s, L, ops).value;
      && (forall k :: L - 1 <= k < |r.0| ==> s[k] != '\n')
      && (forall L' :: L <= L' < |r.0| ==> InfixWithLeft(s, L', ops).None?)
    decreases |s| - L
  {
    assert L <= |s| && s[L - 1] != '\n';
    if InfixWithLeft(s, L, ops).None? {
      InfixFromSpec(s, L + 1, ops);
    }
  }

  /** The operator and the right operand found are what the left operand found admits. */
  lemma {:induction false} InfixFromHit(s: string, L: nat, ops: seq<string>, left: string, op: string, right: string)
    requires 1 <= L && InfixFrom(s, L, ops) == Some((left, op, right))
    ensures 1 <= |left| <= |s|
    ensures InfixWithLeft(s, |left|, ops) == Some((op, right))
    decreases |s| - L
  {
    if InfixWithLeft(s, L, ops).None? {
      InfixFromHit(s, L + 1, ops, left, op, right);
    }
  }

  /**
   * A match found from 1 is a left operand taken from the start of the first line,
   * whitespace, an operator of ops and a non-empty right operand; and no shorter
   * left operand admits an operator.
   */
  lemma {:induction false} InfixFromSound(s: string, ops: seq<string>, left: string, op: string, right: string)
    requires InfixFrom(s, 1, ops) == Some((left, op, right))
    ensures 1 <= |left| <= |s| && left == s[..|left|] && '\n' !in left
    ensures op in ops && OccursAt(s, op, |left| + SpaceRun(s, |left|))
    ensures right != [] && '\n' !in right
    ensures forall L :: 1 <= L < |left| ==> InfixWithLeft(s, L, ops).None?
  {
    InfixFromLeft(s, ops, left, op, right);
    InfixFromHit(s, 1, ops, left, op, right);
    InfixWithLeftSpec(s, |left|, ops, op, right);
  }

  /** The left operand: a prefix of the first line, and the shortest one admitting an operator. */
  lemma {:induction false} InfixFromLeft(s: string, ops: seq<string>, left: string, op: string, right: string)
    requires InfixFrom(s, 1, ops) == Some((left, op, right))
    ensures 1 <= |left| <= |s| && left == s[..|left|] && '\n' !in left
    ensures forall L :: 1 <= L < |left| ==> InfixWithLeft(s, L, ops).None?
  {
    InfixFromSpec(s, 1, ops);
    NotInPrefix(s, |left|, '\n');
  }

  /** `re.match(r"(.+?)\s*(=|>=|<=|>|<|!=|in)\s*(.+)", s)` */
  function MatchInfix(s: string): Option<(string, string, string)>
  {
    InfixFrom(s, 1, InfixOps)
  }

  /** The infix scanner's answer, in the terms of the pattern (see InfixFromSound). */
  lemma {:induction false} MatchInfixSound(s: string, left: string, op: string, right: string)
    requires MatchInfix(s) == Some((left, op, right))
    ensures 1 <= |left| <= |s| && left == s[..|left|] && '\n' !in left
    ensures op in InfixOps && OccursAt(s, op, |left| + SpaceRun(s, |left|))
    ensures right != [] && '\n' !in right
    ensures forall L :: 1 <= L < |left| ==> InfixWithLeft(s, L, InfixOps).None?
  {
    InfixFromSound(s, InfixOps, left, op, right);
  }

  /**
   * The match fits the pattern at its left operand, and its operator and right
   * operand are the ones found there (InfixWithLeftSpec says what they are).
   */
  lemma {:induction false} MatchInfixFits(s: string, left: string, op: string, right: string)
    requires MatchInfix(s) == Some((left, op, right))
    ensures InfixAt(s, |left|, op)
    ensures InfixWithLeft(s, |left|, InfixOps) == Some((op, right))
  {
    InfixFromSound(s, InfixOps, left, op, right);
    InfixFromHit(s, 1, InfixOps, left, op, right);
    InfixWithLeftSpec(s, |left|, InfixOps, op, right);
  }

  /** Laziness, in the terms of the pattern: no shorter left operand fits with any operator. */
  lemma {:induction false} MatchInfixShortest(s: string, left: string, op: string, right: string)
    requires MatchInfix(s) == Some((left, op, right))
    ensures forall L: nat, op' :: 1 <= L < |left| ==> !InfixAt(s, L, op')
  {
    InfixFromSound(s, InfixOps, left, op, right);
    forall L: nat, op' | 1 <= L < |left| ensures !InfixAt(s, L, op') {
      assert InfixWithLeft(s, L, InfixOps).None?;
      InfixWithLeftNone(s, L, InfixOps);
    }
  }

  /** No match with a left operand of L characters: no operator of ops fits after it. */
  lemma {:induction false} InfixWithLeftNone(s: string, L: nat, ops: seq<string>)
    requires 1 <= L <= |s| && InfixWithLeft(s, L, ops).None?
    ensures forall op :: op in ops ==> !OpFits(s, L + SpaceRun(s, L), op)
  {
    OpAtNone(s, L + SpaceRun(s, L), ops);
  }

  /** The alternation is tried in order: no earlier operator of the list fits after the left operand. */
  lemma {:induction false} MatchInfixFirstOp(s: string, left: string, op: string, right: string)
    requires MatchInfix(s) == Some((left, op, right))
    ensures exists i ::
      && 0 <= i < |InfixOps| && InfixOps[i] == op
      && (forall j :: 0 <= j < i ==> !InfixAt(s, |left|, InfixOps[j]))
  {
    InfixFromHit(s, 1, InfixOps, left, op, right);
    InfixWithLeftFirst(s, |left|, InfixOps, op, right);
  }

  /** The match with a left operand of L characters takes the first operator of ops that fits there. */
  lemma {:induction false} InfixWithLeftFirst(s: string, L: nat, ops: seq<string>, op: string, right: string)
    requires 1 <= L <= |s| && InfixWithLeft(s, L, ops) == Some((op, right))
    ensures exists i ::
      && 0 <= i < |ops| && ops[i] == op
      && (forall j :: 0 <= j < i ==> !InfixAt(s, L, ops[j]))
  {
    var p := L + SpaceRun(s, L);
    OpAtFirst(s, p, ops, op, right);
    var i :| 0 <= i < |ops| && ops[i] == op && forall j :: 0 <= j < i ==> !OpFits(s, p, ops[j]);
    assert forall j :: 0 <= j < i ==> !InfixAt(s, L, ops[j]);
  }

  /**
   * The pattern matches with a left operand of L characters and operator op:
   * the left operand is the first L characters, within the first line; then
   * whitespace, op, and a right operand.
   */
  predicate InfixAt(s: string, L: nat, op: string)
  {
    && 1 <= L <= |s| && '\n' !in s[..L] && op in InfixOps
    && OpFits(s, L + SpaceRun(s, L), op)
  }

  /** The lazy search from L finds nothing only if no newline-free left operand from L on admits an operator. */
  lemma {:induction false} InfixFromNone(s: string, L0: nat, ops: seq<string>, L: nat)
    requires 1 <= L0 <= L <= |s| && InfixFrom(s, L0, ops).None?
    requires forall k :: L0 - 1 <= k < L ==> s[k] != '\n'
    ensures InfixWithLeft(s, L, ops).None?
    decreases L - L0
  {
    if L0 < L {
      InfixFromNone(s, L0 + 1, ops, L);
    }
  }

  /** The scanner fails exactly when no left operand and operator fit the pattern. */
  lemma {:induction false} MatchInfixNone(s: string)
    ensures MatchInfix(s).None? <==> forall L: nat, op :: !InfixAt(s, L, op)
  {
    if MatchInfix(s).Some? {
      var (left, op, right) := MatchInfix(s).value;
      MatchInfixFits(s, left, op, right);
    } else {
      forall L: nat, op ensures !InfixAt(s, L, op) {
        if InfixAt(s, L, op) {
          forall k | 0 <= k < L ensures s[k] != '\n' {
            assert s[..L][k] == s[k];
          }
          InfixFromNone(s, 1, InfixOps, L);
          InfixWithLeftNone(s, L, InfixOps);
        }
      }
    }
  }

  /** Completeness: the shortest fitting left operand and its first fitting operator are what the scanner returns. */
  lemma {:induction false} MatchInfixComplete(s: string, L: nat, op: string)
    requires InfixAt(s, L, op)
    requires forall L': nat, op' :: 1 <= L' < L ==> !InfixAt(s, L', op')
    ensures MatchInfix(s).Some? && MatchInfix(s).value.0 == s[..L]
  {
    MatchInfixNone(s);
    var (left, op1, right) := MatchInfix(s).value;
    MatchInfixSound(s, left, op1, right);
    MatchInfixFits(s, left, op1, right);
    MatchInfixShortest(s, left, op1, right);
    assert !(L < |left|) && !(|left| < L);
  }
}
