/**
 * The per-row split that fong.py and carminati.py share: newlines of the
 * `datalog_actions` cell become spaces; a rule's head is the text before the
 * first ":-" and its body the text between the first and second ":-", stripped
 * and without one trailing ".".
 */
module Rows {
  import opened Text

  /** `action.replace("\n", " ")` */
  function Cell(action: string): (a: string)
    ensures '\n' !in a
  {
    ReplaceChar(action, '\n', ' ')
  }

  /** `s[:-1] if s.endswith(".") else s` */
  function DropDot(s: string): (r: string)
    ensures EndsWith(s, ".") ==> r + "." == s
    ensures !EndsWith(s, ".") ==> r == s
  {
    if EndsWith(s, ".") then s[..|s| - 1] else s
  }

  /** `parts = a.split(":-")`: `parts[0].strip()` and `parts[1].strip()` less a trailing ".". */
  function HeadBody(a: string): (string, string)
    requires Contains(a, ":-")
  {
    var split := SplitFirst(a, ":-");
    (Strip(split.0), DropDot(Strip(UpTo(split.1, ":-"))))
  }

  /** The head and body strings of a rule cell. */
  method SplitAction(a: string) returns (headStr: string, bodyStr: string)
    requires Contains(a, ":-")
    ensures headStr == HeadBody(a).0 && bodyStr == HeadBody(a).1
  {
    var split := SplitFirst(a, ":-");
    headStr := Strip(split.0);
    var body := Strip(UpTo(split.1, ":-"));
    bodyStr := if EndsWith(body, ".") then body[..|body| - 1] else body;
  }

  /** a is h, then sep, then rest, and sep first occurs there. */
  predicate SplitsAtFirst(a: string, sep: string, h: string, rest: string)
  {
    a == h + sep + rest && !Contains(h, sep)
  }

  /** b is the text of rest up to the first occurrence of sep, or all of rest when there is none. */
  predicate PrefixBefore(rest: string, sep: string, b: string)
  {
    && StartsWith(rest, b) && !Contains(b, sep)
    && (rest == b || OccursAt(rest, sep, |b|))
    && (forall j :: 0 <= j < |b| ==> !OccursAt(rest, sep, j))
  }

  /** UpTo gives the text before the first occurrence. */
  lemma UpToPrefixBefore(rest: string, sep: string)
    requires sep != []
    ensures PrefixBefore(rest, sep, UpTo(rest, sep))
  {
    UpToHead(rest, sep);
  }

  /**
   * The head comes from the text before the first ":-", the body from the text
   * after it up to the next ":-" (or to the end when there is none); neither
   * holds a newline.
   */
  lemma HeadBodySpec(a: string)
    requires Contains(a, ":-") && '\n' !in a
    ensures exists h, rest, b ::
      && SplitsAtFirst(a, ":-", h, rest) && PrefixBefore(rest, ":-", b)
      && '\n' !in h && '\n' !in b
      && HeadBody(a) == (Strip(h), DropDot(Strip(b)))
  {
    var (h, rest) := SplitFirst(a, ":-");
    var b := UpTo(rest, ":-");
    SplitFirstHead(a, ":-");
    UpToPrefixBefore(rest, ":-");
    assert a[..|h|] == h;
    assert rest == a[|h| + 2..];
    assert b == rest[..|b|];
    assert SplitsAtFirst(a, ":-", h, rest);
  }
}
