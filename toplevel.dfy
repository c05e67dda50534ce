/**
 * Splitting text at the commas that are outside every parenthesis: the character
 * loop shared by `split_body` in cheng.py and crampton.py, the argument and body
 * loops of fong.py and carminati.py. The loop keeps a running depth (+1 for "(",
 * -1 for ")", never clamped), cuts at a "," seen at depth 0, and keeps the last
 * piece only if it is not empty.
 */
module TopLevel {
  import opened Wrappers
  import opened Text

  function Delta(c: char): int
  {
    if c == '(' then 1 else if c == ')' then -1 else 0
  }

  /** The running paren depth after reading all of s from depth 0. */
  function Depth(s: string): int
  {
    if s == [] then 0 else Depth(s[..|s| - 1]) + Delta(s[|s| - 1])
  }

  /** Position i of s is a comma at depth 0: a place where the loop cuts. */
  predicate CutAt(s: string, i: int)
  {
    0 <= i < |s| && s[i] == ',' && Depth(s[..i]) == 0
  }

  predicate NoCut(s: string)
  {
    forall i :: 0 <= i < |s| ==> !CutAt(s, i)
  }

  /** s ends in a comma at depth 0, whose empty last piece the loop drops. */
  predicate TrailingCut(s: string)
  {
    |s| > 0 && CutAt(s, |s| - 1)
  }

  function FirstCut(s: string, from: nat): (r: Option<nat>)
    decreases |s| - from
    ensures r.Some? ==> from <= r.value && CutAt(s, r.value)
    ensures r.Some? ==> forall j :: from <= j < r.value ==> !CutAt(s, j)
    ensures r.None? ==> forall j :: from <= j < |s| ==> !CutAt(s, j)
  {
    if from >= |s| then None
    else if CutAt(s, from) then Some(from)
    else FirstCut(s, from + 1)
  }

  /** Reference definition: the piece before the first depth-0 comma, then the rest split likewise. */
  function Parts(s: string): seq<string>
    decreases |s|
  {
    match FirstCut(s, 0)
    case None => if s == [] then [] else [s]
    case Some(i) => [s[..i]] + Parts(s[i + 1..])
  }

  /** `[p.strip() for p in ...]` */
  function StripAll(ps: seq<string>): (r: seq<string>)
    ensures |r| == |ps|
  {
    if ps == [] then [] else StripAll(ps[..|ps| - 1]) + [Strip(ps[|ps| - 1])]
  }

  lemma {:induction false} StripAllAt(ps: seq<string>, k: nat)
    requires k < |ps|
    ensures StripAll(ps)[k] == Strip(ps[k])
  {
    if k < |ps| - 1 {
      StripAllAt(ps[..|ps| - 1], k);
    }
  }

  /** cheng.py / crampton.py `split_body`: the pieces, unstripped. */
  method SplitBody(s: string) returns (parts: seq<string>)
    ensures parts == Parts(s)
  {
    parts := [];
    var current := "";
    var depth := 0;
    var i := 0;
    assert current + s[i..] == s;
    while i < |s|
      invariant 0 <= i <= |s|
      invariant NoCut(current) && depth == Depth(current)
      invariant parts + Parts(current + s[i..]) == Parts(s)
    {
      var c := s[i];
      if c == '(' {
        depth := depth + 1;
      } else if c == ')' {
        depth := depth - 1;
      }
      DepthSnoc(current, c);
      if c == ',' && depth == 0 {
        CutStep(parts, current, s, i);
        parts := parts + [current];
        current := "";
      } else {
        CharStep(parts, current, s, i);
        current := current + [c];
      }
      i := i + 1;
    }
    LastStep(parts, current, s);
    if current != "" {
      parts := parts + [current];
    }
  }

  /**
   * The same loop where each piece is stripped when it is appended (fong.py and
   * carminati.py: argument lists and rule bodies). The last piece is kept when
   * it is non-empty before stripping.
   */
  method SplitStripped(s: string) returns (parts: seq<string>)
    ensures parts == StripAll(Parts(s))
  {
    parts := [];
    var current := "";
    var depth := 0;
    var i := 0;
    ghost var raw: seq<string> := [];
    assert current + s[i..] == s;
    while i < |s|
      invariant 0 <= i <= |s|
      invariant NoCut(current) && depth == Depth(current)
      invariant raw + Parts(current + s[i..]) == Parts(s)
      invariant parts == StripAll(raw)
    {
      var c := s[i];
      if c == '(' {
        depth := depth + 1;
      } else if c == ')' {
        depth := depth - 1;
      }
      DepthSnoc(current, c);
      if c == ',' && depth == 0 {
        CutStep(raw, current, s, i);
        StripAllSnoc(raw, current);
        raw := raw + [current];
        parts := parts + [Strip(current)];
        current := "";
      } else {
        CharStep(raw, current, s, i);
        current := current + [c];
      }
      i := i + 1;
    }
    LastStep(raw, current, s);
    if current != "" {
      StripAllSnoc(raw, current);
      parts := parts + [Strip(current)];
    }
  }

  /** A depth-0 comma closes the current piece; the loop carries on after it with an empty one. */
  lemma CutStep(done: seq<string>, current: string, s: string, i: nat)
    requires NoCut(current) && Depth(current) == 0 && i < |s| && s[i] == ','
    requires done + Parts(current + s[i..]) == Parts(s)
    ensures (done + [current]) + Parts("" + s[i + 1..]) == Parts(s)
  {
    var rest := s[i + 1..];
    CutParts(current, s, i);
    var tail := Parts(rest);
    assert done + ([current] + tail) == (done + [current]) + tail;
    assert "" + rest == rest;
  }

  lemma CutParts(current: string, s: string, i: nat)
    requires NoCut(current) && Depth(current) == 0 && i < |s| && s[i] == ','
    ensures Parts(current + s[i..]) == [current] + Parts(s[i + 1..])
  {
    Uncons(current, s, i);
    PartsAtCut(current, s[i + 1..]);
  }

  /** Any other character extends the current piece, which stays free of cuts. */
  lemma CharStep(done: seq<string>, current: string, s: string, i: nat)
    requires NoCut(current) && i < |s| && !(s[i] == ',' && Depth(current) == 0)
    requires done + Parts(current + s[i..]) == Parts(s)
    ensures NoCut(current + [s[i]])
    ensures done + Parts((current + [s[i]]) + s[i + 1..]) == Parts(s)
  {
    NoCutSnoc(current, s[i]);
    Uncons(current, s, i);
  }

  /** Reading s[i] off the front of what is left. */
  lemma Uncons(current: string, s: string, i: nat)
    requires i < |s|
    ensures current + s[i..] == current + [s[i]] + s[i + 1..]
    ensures current + s[i..] == (current + [s[i]]) + s[i + 1..]
  {
    assert s[i..] == [s[i]] + s[i + 1..];
  }

  /** When the text is used up, the last piece is kept only if it is not empty. */
  lemma LastStep(done: seq<string>, current: string, s: string)
    requires NoCut(current)
    requires done + Parts(current + s[|s|..]) == Parts(s)
    ensures Parts(s) == if current == [] then done else done + [current]
  {
    assert current + s[|s|..] == current;
    PartsOfNoCut(current);
    if current == [] {
      assert done + [] == done;
    }
  }

  lemma StripAllSnoc(ps: seq<string>, p: string)
    ensures StripAll(ps + [p]) == StripAll(ps) + [Strip(p)]
  {
    assert (ps + [p])[..|ps|] == ps;
  }

  lemma DepthSnoc(s: string, c: char)
    ensures Depth(s + [c]) == Depth(s) + Delta(c)
  {
    assert (s + [c])[..|s|] == s;
  }

  lemma DepthPrefix(s: string, t: string, i: nat)
    requires i <= |s|
    ensures (s + t)[..i] == s[..i]
  {
  }

  /** Appending a character that is not a cut keeps the piece cut-free. */
  lemma NoCutSnoc(s: string, c: char)
    requires NoCut(s)
    requires !(c == ',' && Depth(s) == 0)
    ensures NoCut(s + [c])
  {
    var t := s + [c];
    forall i | 0 <= i < |t| ensures !CutAt(t, i) {
      assert t[..i] == if i < |s| then s[..i] else s;
      if i < |s| {
        assert !CutAt(s, i);
      }
    }
  }

  lemma PartsOfNoCut(s: string)
    requires NoCut(s)
    ensures Parts(s) == if s == [] then [] else [s]
  {
    assert forall j :: 0 <= j < |s| ==> !CutAt(s, j);
    assert FirstCut(s, 0).None?;
  }

  /** A depth-0 comma right after a cut-free piece is the first cut. */
  lemma PartsAtCut(s: string, rest: string)
    requires NoCut(s) && Depth(s) == 0
    ensures Parts(s + [','] + rest) == [s] + Parts(rest)
  {
    var t := s + [','] + rest;
    assert t[..|s|] == s;
    assert CutAt(t, |s|);
    forall j | 0 <= j < |s| ensures !CutAt(t, j) {
      assert t[..j] == s[..j];
      assert !CutAt(s, j);
    }
    FirstCutIs(t, 0, |s|);
    assert t[|s| + 1..] == rest;
  }

  lemma FirstCutIs(s: string, from: nat, i: nat)
    requires from <= i && CutAt(s, i)
    requires forall j :: from <= j < i ==> !CutAt(s, j)
    ensures FirstCut(s, from) == Some(i)
    decreases i - from
  {
    if from < i {
      FirstCutIs(s, from + 1, i);
    }
  }

  lemma {:induction false} DepthAppend(s: string, t: string)
    ensures Depth(s + t) == Depth(s) + Depth(t)
    decreases |t|
  {
    if t != [] {
      var t', x := t[..|t| - 1], t[|t| - 1];
      assert t == t' + [x];
      assert s + t == (s + t') + [x];
      DepthSnoc(s + t', x);
      DepthSnoc(t', x);
      DepthAppend(s, t');
    } else {
      assert s + t == s;
    }
  }

  /** Cuts of s after a cut at i are the cuts of the text after i. */
  lemma CutShift(s: string, i: nat, j: nat)
    requires CutAt(s, i) && i < j < |s|
    ensures CutAt(s, j) <==> CutAt(s[i + 1..], j - i - 1)
  {
    var rest := s[i + 1..];
    assert s[..j] == s[..i + 1] + rest[..j - i - 1];
    DepthAppend(s[..i + 1], rest[..j - i - 1]);
    DepthSnoc(s[..i], ',');
    assert s[..i + 1] == s[..i] + [','];
  }

  // ---------------------------------------------------------------------------
  // What the pieces are.

  lemma {:induction false} PartsNonEmpty(s: string)
    requires s != []
    ensures Parts(s) != []
  {
  }

  /** Joining the pieces with "," gives the text back, less a trailing depth-0 comma. */
  lemma {:induction false} PartsJoin(s: string)
    ensures Join(Parts(s), ",") + (if TrailingCut(s) then "," else "") == s
    decreases |s|
  {
    match FirstCut(s, 0)
    case None =>
    case Some(i) =>
      var head, rest := s[..i], s[i + 1..];
      CutSplit(s, i);
      PartsJoin(rest);
      if rest == [] {
        assert TrailingCut(s);
      } else {
        CutShift(s, i, |s| - 1);
        assert TrailingCut(s) <==> TrailingCut(rest);
        var tail := Join(Parts(rest), ",");
        var mark := if TrailingCut(rest) then "," else "";
        PartsNonEmpty(rest);
        JoinCons(head, Parts(rest), ",");
        assert Join(Parts(s), ",") + mark == head + "," + (tail + mark);
      }
  }

  /** The text around the comma at i. */
  lemma CutSplit(s: string, i: nat)
    requires i < |s| && s[i] == ','
    ensures s == s[..i] + "," + s[i + 1..]
  {
  }

  /** No piece holds a comma the loop would cut at, reading the piece from depth 0. */
  lemma {:induction false} PartsHaveNoCut(s: string)
    ensures forall k :: 0 <= k < |Parts(s)| ==> NoCut(Parts(s)[k])
    decreases |s|
  {
    match FirstCut(s, 0)
    case None =>
    case Some(i) =>
      PartsHaveNoCut(s[i + 1..]);
      var head := s[..i];
      forall j | 0 <= j < |head| ensures !CutAt(head, j) {
        assert head[..j] == s[..j];
        assert !CutAt(s, j);
      }
      assert Parts(s) == [head] + Parts(s[i + 1..]);
  }

  /** Every piece that a comma followed is balanced, so each cut really is at depth 0. */
  lemma {:induction false} PartsBalanced(s: string)
    ensures forall k :: 0 <= k < |Parts(s)| && (k < |Parts(s)| - 1 || TrailingCut(s)) ==> Depth(Parts(s)[k]) == 0
    decreases |s|
  {
    match FirstCut(s, 0)
    case None =>
    case Some(i) =>
      var rest := s[i + 1..];
      PartsBalanced(rest);
      if rest != [] {
        CutShift(s, i, |s| - 1);
        PartsNonEmpty(rest);
      }
  }

  /** The last piece is empty only when the text ends in a depth-0 comma: an empty tail is dropped. */
  lemma {:induction false} PartsLastNonEmpty(s: string)
    ensures Parts(s) != [] && !TrailingCut(s) ==> Parts(s)[|Parts(s)| - 1] != []
    decreases |s|
  {
    match FirstCut(s, 0)
    case None =>
    case Some(i) =>
      var rest := s[i + 1..];
      if rest == [] {
        assert TrailingCut(s);
      } else {
        CutShift(s, i, |s| - 1);
        PartsNonEmpty(rest);
        PartsLastNonEmpty(rest);
      }
  }
}
