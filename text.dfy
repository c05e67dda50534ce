/**
 * The Python `str` operations the translators use, on Dafny strings.
 * Whitespace is exactly the set of characters for which `str.isspace()` holds
 * (the same set `\s` matches in a `str` regex); `isdigit` and `\w` are
 * restricted to ASCII.
 */
module Text {

  /** `c.isspace()` */
  predicate IsSpace(c: char)
  {
    ('\U{9}' <= c <= '\U{D}') || ('\U{1C}' <= c <= ' ') || c == '\U{85}' || c == '\U{A0}'
    || c == '\U{1680}' || ('\U{2000}' <= c <= '\U{200A}') || c == '\U{2028}' || c == '\U{2029}'
    || c == '\U{202F}' || c == '\U{205F}' || c == '\U{3000}'
  }

  /** A character matched by `\w` (ASCII letters, digits and underscore). */
  predicate IsWordChar(c: char)
  {
    ('a' <= c <= 'z') || ('A' <= c <= 'Z') || ('0' <= c <= '9') || c == '_'
  }

  predicate IsDigit(c: char)
  {
    '0' <= c <= '9'
  }

  /** `s.isdigit()`: non-empty and every character a digit. */
  predicate IsDigits(s: string)
  {
    |s| > 0 && forall i :: 0 <= i < |s| ==> IsDigit(s[i])
  }

  function StripLeft(s: string): (r: string)
    ensures |r| <= |s| && r == s[|s| - |r|..]
    ensures r != [] ==> !IsSpace(r[0])
    ensures forall i :: 0 <= i < |s| - |r| ==> IsSpace(s[i])
  {
    if s != [] && IsSpace(s[0]) then StripLeft(s[1..]) else s
  }

  function StripRight(s: string): (r: string)
    ensures |r| <= |s| && r == s[..|r|]
    ensures r != [] ==> !IsSpace(r[|r| - 1])
    ensures forall i :: |r| <= i < |s| ==> IsSpace(s[i])
  {
    if s != [] && IsSpace(s[|s| - 1]) then StripRight(s[..|s| - 1]) else s
  }

  /** `s.strip()`: s with its leading and trailing whitespace removed. */
  function Strip(s: string): (r: string)
    ensures |r| <= |s|
    ensures r != [] ==> !IsSpace(r[0]) && !IsSpace(r[|r| - 1])
  {
    StripRight(StripLeft(s))
  }

  /** Stripping twice removes nothing more. */
  lemma StripIdempotent(s: string)
    ensures Strip(Strip(s)) == Strip(s)
  {
    var r := Strip(s);
    if r != [] {
      assert StripLeft(r) == r;
      assert StripRight(r) == r;
    }
  }

  /** Text whose last character is not whitespace does not strip to nothing. */
  lemma StripKeepsLast(s: string)
    requires s != [] && !IsSpace(s[|s| - 1])
    ensures Strip(s) != []
  {
    var l := StripLeft(s);
    assert l != [] && l[|l| - 1] == s[|s| - 1];
  }

  /** Text that neither starts nor ends with whitespace is its own strip. */
  lemma StripUnchanged(s: string)
    requires s != [] ==> !IsSpace(s[0]) && !IsSpace(s[|s| - 1])
    ensures Strip(s) == s
  {
    assert StripLeft(s) == s;
  }

  /** A character absent from the first n positions is absent from the prefix of length n. */
  lemma NotInPrefix(s: string, n: nat, c: char)
    requires n <= |s| && forall k :: 0 <= k < n ==> s[k] != c
    ensures c !in s[..n]
  {
    forall j | 0 <= j < n ensures s[..n][j] != c {
      assert s[..n][j] == s[j];
    }
  }

  predicate StartsWith(s: string, prefix: string)
  {
    |prefix| <= |s| && s[..|prefix|] == prefix
  }

  predicate EndsWith(s: string, suffix: string)
  {
    |suffix| <= |s| && s[|s| - |suffix|..] == suffix
  }

  predicate OccursAt(s: string, pat: string, i: nat)
  {
    i + |pat| <= |s| && s[i..i + |pat|] == pat
  }

  /** `s.find(pat, start)` as an option: the first occurrence at or after `start`. */
  function FindFrom(s: string, pat: string, start: nat): (r: Option<nat>)
    decreases |s| - start
    ensures r.Some? ==> start <= r.value && OccursAt(s, pat, r.value)
    ensures r.Some? ==> forall j :: start <= j < r.value ==> !OccursAt(s, pat, j)
    ensures r.None? ==> forall j :: start <= j ==> !OccursAt(s, pat, j)
  {
    if start + |pat| > |s| then None
    else if s[start..start + |pat|] == pat then Some(start)
    else FindFrom(s, pat, start + 1)
  }

  function Find(s: string, pat: string): Option<nat>
  {
    FindFrom(s, pat, 0)
  }

  /** `pat in s` */
  predicate Contains(s: string, pat: string)
  {
    Find(s, pat).Some?
  }

  lemma ContainsIff(s: string, pat: string)
    ensures Contains(s, pat) <==> exists i: nat :: OccursAt(s, pat, i)
  {
  }

  /** `s.split(sep, 1)` when `sep in s`: the text before and after the first occurrence. */
  function SplitFirst(s: string, sep: string): (r: (string, string))
    requires Contains(s, sep)
    ensures r.0 + sep + r.1 == s
    ensures forall j :: 0 <= j < |r.0| ==> !OccursAt(s, sep, j)
  {
    var i := Find(s, sep).value;
    assert s == s[..i] + sep + s[i + |sep|..];
    (s[..i], s[i + |sep|..])
  }

  /** The text before the first occurrence holds no occurrence. */
  lemma SplitFirstHead(s: string, sep: string)
    requires Contains(s, sep) && sep != []
    ensures !Contains(SplitFirst(s, sep).0, sep)
  {
    var h := SplitFirst(s, sep).0;
    ContainsIff(h, sep);
    forall i: nat | i + |sep| <= |h| ensures !OccursAt(h, sep, i) {
      assert h[i..i + |sep|] == s[i..i + |sep|];
      assert !OccursAt(s, sep, i);
    }
  }

  /** The text of s before the first occurrence of sep (all of s if there is none). */
  function UpTo(s: string, sep: string): (r: string)
    ensures StartsWith(s, r)
    ensures r == s || OccursAt(s, sep, |r|)
    ensures forall j :: 0 <= j < |r| ==> !OccursAt(s, sep, j)
  {
    match Find(s, sep)
    case Some(i) => s[..i]
    case None => s
  }

  /** The text before the first occurrence holds no occurrence. */
  lemma UpToHead(s: string, sep: string)
    requires sep != []
    ensures !Contains(UpTo(s, sep), sep)
  {
    if Find(s, sep).Some? {
      assert UpTo(s, sep) == SplitFirst(s, sep).0;
      SplitFirstHead(s, sep);
    } else {
      assert UpTo(s, sep) == s;
    }
  }

  /** A text contains every piece it is made of. */
  lemma ContainsMiddle(a: string, x: string, b: string)
    ensures Contains(a + x + b, x)
  {
    var s := a + x + b;
    assert s[|a|..|a| + |x|] == x;
    assert OccursAt(s, x, |a|);
    ContainsIff(s, x);
  }

  /** The index of the first occurrence of c in s. */
  function FindChar(s: string, c: char): (r: Option<nat>)
    ensures r.Some? ==> r.value < |s| && s[r.value] == c && c !in s[..r.value]
    ensures r.None? <==> c !in s
  {
    if s == [] then None
    else if s[0] == c then Some(0)
    else match FindChar(s[1..], c)
      case None => None
      case Some(i) => assert s[..i + 1] == [s[0]] + s[1..][..i]; Some(i + 1)
  }

  /** `s.split(c)` for a one-character separator. */
  function SplitOn(s: string, c: char): (r: seq<string>)
    ensures |r| >= 1
    ensures forall k :: 0 <= k < |r| ==> c !in r[k] && |r[k]| <= |s|
    decreases |s|
  {
    match FindChar(s, c)
    case None => [s]
    case Some(i) => [s[..i]] + SplitOn(s[i + 1..], c)
  }

  /** `sep.join(parts)` */
  function Join(parts: seq<string>, sep: string): string
  {
    if parts == [] then ""
    else if |parts| == 1 then parts[0]
    else parts[0] + sep + Join(parts[1..], sep)
  }

  lemma JoinCons(p: string, ps: seq<string>, sep: string)
    requires ps != []
    ensures Join([p] + ps, sep) == p + sep + Join(ps, sep)
  {
    assert ([p] + ps)[1..] == ps;
  }

  /** Splitting on a character and joining with it gives back the text. */
  lemma {:induction false} JoinSplitOn(s: string, c: char)
    ensures Join(SplitOn(s, c), [c]) == s
    decreases |s|
  {
    match FindChar(s, c)
    case None =>
    case Some(i) =>
      JoinSplitOn(s[i + 1..], c);
      JoinCons(s[..i], SplitOn(s[i + 1..], c), [c]);
      assert s == s[..i] + [c] + s[i + 1..];
  }

  /** `s.rstrip(c)` */
  function RStripChar(s: string, c: char): (r: string)
    ensures StartsWith(s, r)
    ensures r != [] ==> r[|r| - 1] != c
    ensures forall i :: |r| <= i < |s| ==> s[i] == c
  {
    if s != [] && s[|s| - 1] == c then RStripChar(s[..|s| - 1], c) else s
  }

  /** `s.replace(a, b)` for single characters. */
  function ReplaceChar(s: string, a: char, b: char): (r: string)
    ensures |r| == |s|
    ensures forall i :: 0 <= i < |s| ==> r[i] == if s[i] == a then b else s[i]
  {
    if s == [] then [] else [if s[0] == a then b else s[0]] + ReplaceChar(s[1..], a, b)
  }

  /** `s.replace(c, "", 1)`: s without the first occurrence of c. */
  function RemoveFirst(s: string, c: char): (r: string)
    ensures c in s ==> |r| == |s| - 1
    ensures c !in s ==> r == s
  {
    match FindChar(s, c)
    case None => s
    case Some(i) => s[..i] + s[i + 1..]
  }

  /** `str(n)` for a non-negative integer. */
  function NatToString(n: nat): (r: string)
    ensures IsDigits(r)
  {
    if n < 10 then [DigitChar(n)] else NatToString(n / 10) + [DigitChar(n % 10)]
  }

  function DigitChar(d: nat): (c: char)
    requires d < 10
    ensures IsDigit(c)
  {
    ['0', '1', '2', '3', '4', '5', '6', '7', '8', '9'][d]
  }

  /** Decimal value of a digit string, the inverse of NatToString. */
  function DigitsValue(s: string): nat
    requires IsDigits(s)
  {
    if |s| == 1 then (s[0] as int - '0' as int)
    else 10 * DigitsValue(s[..|s| - 1]) + (s[|s| - 1] as int - '0' as int)
  }

  lemma {:induction false} NatToStringValue(n: nat)
    ensures DigitsValue(NatToString(n)) == n
  {
    if n >= 10 {
      NatToStringValue(n / 10);
      var s := NatToString(n);
      assert s[..|s| - 1] == NatToString(n / 10);
    }
  }

  /** `s.count(c)` */
  function Count(s: string, c: char): nat
  {
    if s == [] then 0 else (if s[0] == c then 1 else 0) + Count(s[1..], c)
  }

  lemma {:induction false} CountAppend(s: string, t: string, c: char)
    ensures Count(s + t, c) == Count(s, c) + Count(t, c)
  {
    if s != [] {
      assert (s + t)[1..] == s[1..] + t;
      CountAppend(s[1..], t, c);
    } else {
      assert s + t == t;
    }
  }

  lemma {:induction false} CountAbsent(s: string, c: char)
    requires c !in s
    ensures Count(s, c) == 0
  {
    if s != [] {
      CountAbsent(s[1..], c);
    }
  }

  lemma {:induction false} CountPresent(s: string, c: char, i: nat)
    requires i < |s| && s[i] == c
    ensures Count(s, c) >= 1
  {
    if i > 0 {
      CountPresent(s[1..], c, i - 1);
    }
  }

  /** `s.split(c)` has one piece more than s has occurrences of c. */
  lemma {:induction false} SplitOnCount(s: string, c: char)
    ensures |SplitOn(s, c)| == Count(s, c) + 1
    decreases |s|
  {
    match FindChar(s, c)
    case None =>
      CountAbsent(s, c);
    case Some(i) =>
      SplitOnCount(s[i + 1..], c);
      assert s == s[..i] + ([c] + s[i + 1..]);
      CountAppend(s[..i], [c] + s[i + 1..], c);
      CountAbsent(s[..i], c);
      assert ([c] + s[i + 1..])[1..] == s[i + 1..];
  }

  /** A character in neither the pieces nor the separator is not in the join. */
  lemma {:induction false} JoinNoChar(parts: seq<string>, sep: string, c: char)
    requires c !in sep
    requires forall k :: 0 <= k < |parts| ==> c !in parts[k]
    ensures c !in Join(parts, sep)
  {
    if |parts| > 1 {
      JoinNoChar(parts[1..], sep, c);
    }
  }

  /** Joining pieces free of c with c and splitting on c gives the pieces back. */
  lemma {:induction false} SplitOnJoin(parts: seq<string>, c: char)
    requires parts != []
    requires forall k :: 0 <= k < |parts| ==> c !in parts[k]
    ensures SplitOn(Join(parts, [c]), c) == parts
    decreases |parts|
  {
    if |parts| == 1 {
      assert FindChar(parts[0], c).None?;
    } else {
      var p, rest := parts[0], parts[1..];
      JoinCons(p, rest, [c]);
      assert parts == [p] + rest;
      SplitOnCons(p, Join(rest, [c]), c);
      SplitOnJoin(rest, c);
    }
  }

  /** The first piece of a split is the text before the first separator. */
  lemma SplitOnCons(p: string, rest: string, c: char)
    requires c !in p
    ensures SplitOn(p + [c] + rest, c) == [p] + SplitOn(rest, c)
  {
    var s := p + [c] + rest;
    assert s[..|p|] == p;
    FindCharIs(s, c, |p|);
    assert s[|p| + 1..] == rest;
  }

  lemma {:induction false} FindCharIs(s: string, c: char, i: nat)
    requires i < |s| && s[i] == c && c !in s[..i]
    ensures FindChar(s, c) == Some(i)
  {
    if i > 0 {
      assert s[0] != c by {
        assert s[..i][0] == s[0];
      }
      assert s[1..][..i - 1] == s[..i][1..];
      FindCharIs(s[1..], c, i - 1);
    }
  }

  import opened Wrappers
}
