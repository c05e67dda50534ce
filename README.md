# Datalog to ReBAC policy translators

This project models the four translators of `policy_translation/`. Each one takes a
Datalog authorisation rule `head(args) :- body1, body2, ... .` and renders it in the
policy language of one relationship-based access control (ReBAC) model.

- **Cheng** (`cheng.py`)
  - Builds a graph over the rule's variables. Each predicate adds a forward `name`
    edge and a backward `name^{-1}` edge, and both keep the predicate's negation flag.
  - Enumerates every simple path from the first head argument to the last.
  - Renders `< action, (u_a, ("[t1.t2]", n) ∧ ...) >`, or "No Path Found".
  - Its per-cell driver translates only the lines that start with `can_` or
    `authorized`, and joins the non-empty results with newlines.
- **Crampton** (`crampton.py`)
  - Uses the same parser, but with a smaller set of constraint operators.
  - Builds a graph of the positive predicates only.
  - Runs a breadth-first search and joins the labels of a shortest path with ".".
    "" stands for every degenerate case.
- **Fong** (`fong.py`)
  - Parses predicates into call, infix or bare records.
  - Fills three dictionaries: edges, unary tags and constraints.
  - Reads a modal formula (`<rel>(...)`, `T`, `∧`) off a depth-first walk from the
    subject. The walk shares one visited set, which it adds to on entry and removes
    from on exit.
- **Carminati** (`carminati.py`)
  - Rewrites every body item and the head into SWRL-like text: variables get a "?"
    prefix, and parenthesised `;` groups are processed recursively.
  - Emits `b1 ∧ b2 ∧ ... => head`.

## Modules

| file | module | what it holds |
|---|---|---|
| `wrappers.dfy` | `Wrappers` | `Option`, and `Result` for the one Python exception (`KeyError`) the translators can raise |
| `text.dfy` | `Text` | the Python string built-ins the code uses: `strip`, `rstrip(".")`, `in`, `split(sep, 1)`, `split(c)`, `join`, `replace`, `isdigit`, `str(n)` |
| `patterns.dfy` | `Patterns` | the two regular expressions as deterministic scanners: the call form `(\w+)\((.*)\)` and the infix form `(.+?)\s*(=\|>=\|<=\|>\|<\|!=\|in)\s*(.+)` |
| `toplevel.dfy` | `TopLevel` | the depth-aware comma splitter that all four files contain (`split_body` and the character loops) |
| `multimap.dfy` | `Multimap` | a dictionary of lists built by appends, as the sequence of its appends |
| `naive_parser.dfy` | `NaiveParser` | `parse_datalog_rule` and `parse_predicate` of Cheng and Crampton, with the list of constraint operators as a parameter |
| `rows.dfy` | `Rows` | the per-row head/body split that Fong and Carminati share |
| `cheng.dfy`, `crampton.dfy`, `fong.dfy`, `carminati.dfy` | `Cheng`, `Crampton`, `Fong`, `Carminati` | the four translators |

### How the model is built

Each loop of the source becomes a `method` with loop invariants. The method is proved
equal to a specification function:
- the graph builders equal `Collect` of a sequence of dictionary appends;
- `find_all_paths` equals `Paths`;
- `find_path` equals `FoundPath`;
- `generate` equals `Gen`;
- the character loops equal `Parts`.

The properties are then proved as lemmas about those functions.

Fong's `generate` mutates the visited set of its closure, so it is a method of the
class `Fong.Generator`. `visited` is a field of that class, and the method promises to
leave it as it found it.

### Behaviour worth knowing

- **Heads that parse as constraints.** Cheng's and Crampton's `translate_rule` index
  `head["args"]`, which raises `KeyError` when the head parses as a constraint
  (`cheng.py:172`, `crampton.py:150`). The model returns `Raised(KeyError("args"))`
  there. Cheng's per-cell driver passes the error on.
- **Newlines in the call pattern.** The argument text of the call pattern ends at the
  last ")" on the same line, because `.` does not match a newline. Text after that
  ")" is ignored.

## Model

| member | source | states |
|---|---|---|
| Text.StripLeft | policy_translation/cheng.py:13 | the result is a suffix of the input; everything removed is whitespace; the result does not start with whitespace |
| Text.StripRight | policy_translation/cheng.py:13 | the result is a prefix of the input; everything removed is whitespace; the result does not end with whitespace |
| Text.Strip | policy_translation/cheng.py:13 | `strip()` is no longer than its input, and a non-empty result neither starts nor ends with whitespace |
| Text.StripIdempotent | policy_translation/cheng.py:50 | stripping text that was already stripped changes nothing |
| Text.StripKeepsLast | policy_translation/cheng.py:50-53 | text whose last character is not whitespace strips to something non-empty |
| Text.StripUnchanged | policy_translation/cheng.py:50 | text without whitespace at either end is its own strip |
| Text.FindFrom | policy_translation/cheng.py:14 | the first index at or after `start` where the pattern occurs, or None when it occurs nowhere from `start` on |
| Text.ContainsIff | policy_translation/cheng.py:14 | `pat in s` holds exactly when the pattern occurs at some index |
| Text.SplitFirst | policy_translation/cheng.py:17 | `split(sep, 1)`: the two halves with the separator between them rebuild the text, and the separator does not start anywhere in the first half |
| Text.SplitFirstHead | policy_translation/cheng.py:17 | the head half of `split(sep, 1)` contains no separator |
| Text.UpTo | policy_translation/fong.py:204-206 | `a.split(sep)[1]` when the text is what follows the first separator: a prefix of the text that is either all of it or is followed by the separator, with no occurrence of the separator starting inside it |
| Text.UpToHead | policy_translation/fong.py:204-206 | that prefix contains no separator |
| Text.FindChar | policy_translation/carminati.py:17 | the index of the first occurrence of c, or None exactly when c does not occur |
| Text.SplitOn | policy_translation/cheng.py:58 | `split(c)` gives at least one piece, no piece contains c, and no piece is longer than the text |
| Text.JoinSplitOn | policy_translation/cheng.py:58 | joining the pieces of `split(c)` with c gives back the text |
| Text.SplitOnCount | policy_translation/carminati.py:83 | `split(c)` has one more piece than the text has occurrences of c |
| Text.SplitOnJoin | policy_translation/crampton.py:173 | splitting the ".".join of pieces that contain no "." gives back the pieces |
| Text.RStripChar | policy_translation/cheng.py:13 | `rstrip(".")` is a prefix of its input that does not end in "." and is followed only by "." |
| Text.ReplaceChar | policy_translation/fong.py:201 | `replace("\n", " ")` keeps the length and replaces exactly the characters equal to the first with the second |
| Text.RemoveFirst | policy_translation/carminati.py:17 | `replace(".", "", 1)` removes one character when the text contains "." and leaves the text unchanged otherwise |
| Text.NatToString | policy_translation/cheng.py:161 | the decimal rendering of the hop count consists of digits only |
| Text.NatToStringValue | policy_translation/cheng.py:161 | reading the decimal rendering back gives the number |
| Patterns.Unnegate | policy_translation/cheng.py:49-53 | the text left after stripping and removing "not " is no longer than the input (its value is stated by `UnnegatePlain` and `Fong.Negation`) |
| Patterns.UnnegatePlain | policy_translation/cheng.py:49-53 | stripped text that does not start with "not " is not negated and stays as it is |
| Patterns.UnnegateBlank | policy_translation/cheng.py:49-53 | removing the "not " prefix leaves nothing exactly when the text is blank |
| Patterns.WordRun | policy_translation/cheng.py:55 | `\w+` is greedy: the run is all word characters, and the character after it is not one |
| Patterns.LineEnd | policy_translation/cheng.py:55 | the point where `.*` must stop lies between the start and the end of the text |
| Patterns.LineEndSpec | policy_translation/cheng.py:55 | no newline occurs before that point, and there is a newline at it unless the text ends there |
| Patterns.FindLast | policy_translation/cheng.py:55 | the index of the last ")" (backtracking of `.*`), with no ")" after it; None exactly when there is none |
| Patterns.MatchCallSound | policy_translation/cheng.py:55 | a match of the call pattern has the shape `name(args)`: a non-empty word name, "(", args without a newline, ")", and no ")" in the rest of that line |
| Patterns.MatchCallSome | policy_translation/cheng.py:55 | the same shape for a given match (name, args) |
| Patterns.MatchCallComplete | policy_translation/cheng.py:55 | every decomposition of that shape is the match the scanner returns, so the match is unique |
| Patterns.MatchCallNone | policy_translation/cheng.py:55 | the pattern fails exactly when the text has no decomposition of that shape |
| Patterns.CallShapeAt | policy_translation/cheng.py:55 | a word prefix of length n, "(", k characters on one line, ")" and no later ")" on that line form the call shape with that name and those args |
| Patterns.CallFoundAt | policy_translation/cheng.py:55 | under the same conditions, the scanner returns exactly that name and those args |
| Patterns.SpaceRun | policy_translation/fong.py:52 | the greedy `\s*` stays inside the text |
| Patterns.SpaceRunSpec | policy_translation/fong.py:52 | the run is all whitespace and stops before a character that is not whitespace |
| Patterns.LastNonNewline | policy_translation/fong.py:52 | the index found holds a character other than a newline and lies in the range |
| Patterns.LastNonNewlineSpec | policy_translation/fong.py:52 | only newlines follow that index in the range; None means the range is all newlines |
| Patterns.RightOperand | policy_translation/fong.py:52 | the right operand `(.+)` is non-empty and holds no newline |
| Patterns.RightOperandSpec | policy_translation/fong.py:52 | `\s*(.+)` fails exactly when only newlines follow; otherwise it captures the rest of the line after the whitespace run or, when the whitespace runs to the end, the last character that is not a newline |
| Patterns.OpAtSpec | policy_translation/fong.py:52 | the operator found is one of the alternatives, occurs at the position, and is followed by the right operand returned |
| Patterns.OpAtNone | policy_translation/fong.py:52 | no operator is found exactly when no alternative occurs at the position with a right operand after it |
| Patterns.OpAtFirst | policy_translation/fong.py:52 | the operator found is the first alternative, in the order `= >= <= > < != in`, that fits |
| Patterns.InfixWithLeftSpec | policy_translation/fong.py:52 | a match with a left operand of L characters: whitespace, then one of the operators, then a non-empty right operand without newlines, which is what `\s*(.+)` captures after the operator |
| Patterns.InfixWithLeftNone | policy_translation/fong.py:52 | no match with a left operand of L characters: no operator fits after it |
| Patterns.InfixWithLeftFirst | policy_translation/fong.py:52 | the match with a left operand of L characters takes the first operator of the list that fits there |
| Patterns.InfixFrom | policy_translation/fong.py:52 | the lazy `(.+?)`: the left operand found is a prefix of the text, at least as long as the shortest length tried |
| Patterns.InfixFromSpec | policy_translation/fong.py:52 | the left operand holds no newline, and no shorter left operand admits an operator (laziness) |
| Patterns.InfixFromHit | policy_translation/fong.py:52 | the left operand is non-empty, and the operator and right operand are the match with a left operand of that length |
| Patterns.InfixFromSound | policy_translation/fong.py:52 | all of the above for a match that starts with a one-character left operand |
| Patterns.InfixFromLeft | policy_translation/fong.py:52 | the left operand is a newline-free prefix, and it is the shortest that admits an operator |
| Patterns.MatchInfixSound | policy_translation/carminati.py:68 | a match of the infix pattern is a shortest non-empty left prefix, optional whitespace, one of `= >= <= > < != in`, and a non-empty right operand on the same line |
| Patterns.MatchInfixFits | policy_translation/carminati.py:68 | a match fits the pattern at its left operand, and its operator and right operand are the match with a left operand of that length |
| Patterns.MatchInfixShortest | policy_translation/carminati.py:68 | the lazy `(.+?)`: no shorter left operand fits the pattern with any operator |
| Patterns.MatchInfixFirstOp | policy_translation/carminati.py:68 | the alternation is tried in order: no earlier operator of the list fits after the left operand |
| Patterns.InfixFromNone | policy_translation/fong.py:52 | when the lazy search from a length finds nothing, no longer left operand within the first line admits an operator |
| Patterns.MatchInfixNone | policy_translation/carminati.py:68 | the pattern fails exactly when no left operand and operator fit it |
| Patterns.MatchInfixComplete | policy_translation/carminati.py:68 | when a left operand of L characters fits and no shorter one does, the match is found and its left operand is the first L characters |
| TopLevel.FirstCut | policy_translation/cheng.py:33-43 | the first comma at bracket depth 0 at or after `from`, with no such comma before it; None when there is none |
| TopLevel.StripAll | policy_translation/cheng.py:58 | `[a.strip() for a in ...]` keeps the number of pieces |
| TopLevel.StripAllAt | policy_translation/cheng.py:58 | element k of the result is the stripped element k |
| TopLevel.SplitBody | policy_translation/cheng.py:29-46 | the character loop of `split_body` returns `Parts(s)`, the depth-0 comma split without a trailing empty piece |
| TopLevel.SplitStripped | policy_translation/fong.py:30-46 | the argument loop of `parse_predicate`, which strips each piece, returns the stripped `Parts(s)` |
| TopLevel.CutStep | policy_translation/cheng.py:39-41 | a comma at depth 0 closes the current piece and starts an empty one, and the loop invariant is kept |
| TopLevel.CutParts | policy_translation/cheng.py:39-41 | a piece without a cut, followed by a depth-0 comma, is the first part of what follows |
| TopLevel.CharStep | policy_translation/cheng.py:42-43 | any other character is appended to the current piece, and the loop invariant is kept |
| TopLevel.LastStep | policy_translation/cheng.py:44-45 | at the end, the current piece is appended only if it is non-empty |
| TopLevel.DepthAppend | policy_translation/cheng.py:34-37 | the bracket depth of a concatenation is the sum of the depths |
| TopLevel.PartsOfNoCut | policy_translation/cheng.py:44-45 | text without a depth-0 comma is one part, or no part when it is empty |
| TopLevel.PartsAtCut | policy_translation/cheng.py:39-41 | a balanced piece without a cut, followed by a comma, is the first part and the rest is split on its own |
| TopLevel.PartsJoin | policy_translation/cheng.py:29-46 | joining the parts with "," gives back the text, plus the final "," when the text ends in a depth-0 comma |
| TopLevel.PartsHaveNoCut | policy_translation/cheng.py:39-43 | no part contains a comma at depth 0 |
| TopLevel.PartsBalanced | policy_translation/cheng.py:33-43 | every part that a depth-0 comma closed has bracket depth 0 |
| TopLevel.PartsNonEmpty | policy_translation/cheng.py:44-45 | non-empty text has at least one part |
| TopLevel.PartsLastNonEmpty | policy_translation/cheng.py:44-45 | the last part is non-empty unless the text ends in a depth-0 comma |
| Multimap.CollectSpec | policy_translation/cheng.py:70-98 | a key is in the dictionary exactly when some operation mentions it, and its list holds the values appended to it, in order |
| Multimap.ItemsForAdded | policy_translation/cheng.py:90-98 | every value in a key's list was appended to that key by some operation |
| Multimap.ItemsForAppend | policy_translation/cheng.py:90-98 | the values for a key after two runs of appends are the first run's values followed by the second's |
| Multimap.ItemsForNone | policy_translation/cheng.py:90-98 | a key that no append names has an empty list |
| Multimap.CollectSnoc | policy_translation/crampton.py:96-101 | one more operation updates the dictionary by exactly that insertion or append |
| Multimap.ItemsForHas | policy_translation/cheng.py:90-98 | every appended value is in its key's list |
| NaiveParser.ParseDatalogRule | policy_translation/cheng.py:12-27 | `parse_datalog_rule` returns `ParseRule`: None without ":-", else the parsed head and the body predicates that parsed |
| NaiveParser.ParseParts | policy_translation/cheng.py:22-25 | the body loop keeps, in order, each stripped piece that parses |
| NaiveParser.ParseRuleOf | policy_translation/cheng.py:13-27 | after `strip().rstrip(".")` and the first ":-" split into (h, b), the result is the parse of `h.strip()` and of the depth-0 pieces of b |
| NaiveParser.ParseBodySnoc | policy_translation/cheng.py:22-25 | one more piece appends its predicate if it parses, and nothing otherwise |
| NaiveParser.AnyOccursIff | policy_translation/cheng.py:62 | `any(op in s for op in ops)` holds exactly when some operator occurs at some index |
| NaiveParser.ParsePredicateNone | policy_translation/cheng.py:48-65 | parse_predicate returns None exactly when the un-negated text matches no call pattern and contains no constraint operator |
| NaiveParser.ParsePredicateAtom | policy_translation/cheng.py:51-59 | a call-shaped text becomes `{name, args, negated}`: args split at every comma and stripped (one more than the commas), negated exactly when the stripped text starts with "not " |
| NaiveParser.ParsePredicateAtomSound | policy_translation/cheng.py:49-59 | a parsed atom has the flag of the "not " prefix, the name of the call match, and its argument text split at every comma and stripped |
| NaiveParser.ParsePredicateConstraint | policy_translation/cheng.py:61-63 | a constraint keeps the un-negated text as raw, is never negated, is named "constraint", has no call shape, and contains an operator of the list |
| NaiveParser.ParsePredicateWordName | policy_translation/cheng.py:55-57 | a parsed atom's name is a non-empty run of word characters |
| NaiveParser.ParseBodyWordNames | policy_translation/cheng.py:20-25 | every atom in a parsed body has a non-empty word name |
| NaiveParser.ParseRuleWordNames | policy_translation/cheng.py:12-27 | every atom in the body of a parsed rule has a non-empty word name |
| NaiveParser.NotEqualStripped | policy_translation/crampton.py:53-56 | "A != B" is not negated and stays as it is |
| NaiveParser.NotEqualNoOp | policy_translation/crampton.py:64-70 | none of Crampton's operators occurs in "A != B" |
| NaiveParser.NotEqualConstraint | policy_translation/crampton.py:63-72 | "A != B" is a constraint for Cheng, but Crampton's parse_predicate returns None for it |
| NaiveParser.ParseRuleSpec | policy_translation/cheng.py:13-17 | None exactly when the text has no ":-" after `strip().rstrip(".")`; every trailing "." is removed; otherwise the split is at the first ":-" only |
| Cheng.BuildGraph | policy_translation/cheng.py:67-100 | the loop of `build_graph` returns `GraphOf(body)`, the dictionary built by the appends of every predicate in order |
| Cheng.GraphOpsSnoc | policy_translation/cheng.py:72-98 | one more predicate appends exactly its own operations |
| Cheng.FanEmpty | policy_translation/cheng.py:95-98 | an empty fan changes nothing |
| Cheng.FanStep | policy_translation/cheng.py:95-98 | one more argument appends the forward edge to args[0]'s list and then the inverse edge to that argument's list |
| Cheng.FanOpsSpec | policy_translation/cheng.py:95-98 | a fan over ws has 2·\|ws\| appends: for each w, the forward `name` edge u→w, then the backward `name^{-1}` edge w→u, both with the negation flag |
| Cheng.PredOpsSpec | policy_translation/cheng.py:72-98 | constraints and predicates of arity below 2 add nothing; arity k ≥ 2 adds exactly 2(k−1) edges, forward from args[0] to each other argument and backward, carrying the flag |
| Cheng.PairedAppend | policy_translation/cheng.py:89-98 | concatenating two sequences of appends in which every edge has its reverse keeps that property |
| Cheng.FanPaired | policy_translation/cheng.py:95-98 | in a fan, every edge has its reverse edge with the same flag |
| Cheng.GraphPaired | policy_translation/cheng.py:72-98 | in the whole graph, every edge has its reverse with the same flag |
| Cheng.GraphSymmetric | policy_translation/cheng.py:67-100 | the target of every edge is a node, and it has an edge back with the same negation flag |
| Cheng.UnvisitedStep | policy_translation/cheng.py:103-115 | entering a new node shrinks the number of unvisited nodes (termination of the DFS); revisiting a node does not change it |
| Cheng.Prefixed | policy_translation/cheng.py:116-117 | prefixing a step to each path keeps the number of paths |
| Cheng.FindAllPaths | policy_translation/cheng.py:102-118 | the recursive DFS with its accumulating loop returns `Paths(adj, start, end, path)` |
| Cheng.AppendPrefixed | policy_translation/cheng.py:116-117 | the inner loop appends `[(type, negated)] + newpath` for each new path, in order |
| Cheng.StepsOf | policy_translation/cheng.py:117 | one step per edge |
| Cheng.BranchesSound | policy_translation/cheng.py:113-117 | every path from the neighbour loop starts with the step of an edge to an unvisited neighbour, followed by a path from that neighbour |
| Cheng.BranchesComplete | policy_translation/cheng.py:113-117 | conversely, every such step followed by a path from the neighbour is returned |
| Cheng.PathsSound | policy_translation/cheng.py:102-118 | every returned path is the step sequence of a walk along adjacency edges from start to end that revisits no node |
| Cheng.PathsStep | policy_translation/cheng.py:103-117 | a path returned for start ≠ end begins at an edge of start to a node not yet on the path |
| Cheng.WalkCons | policy_translation/cheng.py:113-117 | an edge to a fresh neighbour, followed by a simple walk from it, is a simple walk from start |
| Cheng.PathsComplete | policy_translation/cheng.py:102-118 | every simple walk from start to end is returned |
| Cheng.WalkUncons | policy_translation/cheng.py:113-117 | a non-empty simple walk starts with an edge of start to a fresh node, and its rest is a simple walk from there |
| Cheng.PathsAway | policy_translation/cheng.py:103-118 | for start ≠ end with an adjacency entry, the paths are those of the neighbour loop with start on the path |
| Cheng.PathsIff | policy_translation/cheng.py:102-118 | a step sequence is returned exactly when it is that of a simple walk from s to t |
| Cheng.Labels | policy_translation/cheng.py:155-156 | one label per step |
| Cheng.FormatPathSpec | policy_translation/cheng.py:142-165 | the loop of `format_path_spec` returns `PathSpec(edgePath)` |
| Cheng.ReadSpecTextOf | policy_translation/cheng.py:161 | `("[j]", n)` can be read back to (j, n) when j has no "]" |
| Cheng.MiddleParts | policy_translation/cheng.py:161 | the first "]" of `j]", n` ends j, and the count follows the `]", ` |
| Cheng.SpecTextShape | policy_translation/cheng.py:161 | the spec starts with `("[`, ends with `)`, and holds the labels, `]", ` and the decimal count between them |
| Cheng.PathSpecMark | policy_translation/cheng.py:153-165 | the spec starts with "¬ " exactly when some edge is negated; without that prefix it is `("[l1.l2…]", n)` with n the number of edges |
| Cheng.PathSpecRoundTrip | policy_translation/cheng.py:142-165 | when no label contains "." or "]", reading a spec back gives the negation flag, the labels and the hop count |
| Cheng.GraphOpsLabels | policy_translation/cheng.py:90-98 | every edge label is `name` or `name^{-1}` of some atom of the body |
| Cheng.PredOpLabel | policy_translation/cheng.py:86-98 | every operation of a predicate is an edge labelled with its name or its inverse |
| Cheng.GraphLabels | policy_translation/cheng.py:67-100 | every edge of the graph is labelled with the name of some body atom or its inverse |
| Cheng.WalkEdges | policy_translation/cheng.py:113-117 | every edge of a walk is an adjacency edge of some node |
| Cheng.WordLabelClean | policy_translation/cheng.py:92 | a word name and its `^{-1}` form contain neither "." nor "]" |
| Cheng.FoundPathRoundTrip | policy_translation/cheng.py:182-188 | every path found in a graph of parsed atoms renders to a spec that reads back to its flag, labels and length |
| Cheng.PathSpecs | policy_translation/cheng.py:188 | one spec per path |
| Cheng.TranslateRule | policy_translation/cheng.py:167-243 | `translate_rule` returns `Translation(rule)` |
| Cheng.TranslateParsed | policy_translation/cheng.py:168-243 | the body of `translate_rule` after parsing returns `Translate(parsed)` |
| Cheng.FormatPathSpecs | policy_translation/cheng.py:188 | the comprehension gives the spec of each path, in order |
| Cheng.PathsNonEmptyIff | policy_translation/cheng.py:182-186 | some path is found exactly when some walk joins subject and object |
| Cheng.PolicyShape | policy_translation/cheng.py:242 | a policy is never "" and never "No Path Found" |
| Cheng.TranslationEmpty | policy_translation/cheng.py:167-173 | the result is "" exactly for a non-rule, a missing head or a head of arity below 2; it is a KeyError exactly when the head is a constraint |
| Cheng.TranslationNoPath | policy_translation/cheng.py:182-233 | for a head of arity ≥ 2, the result is "No Path Found" exactly when no walk joins the first head argument to the last |
| Cheng.TranslateNoPath | policy_translation/cheng.py:182-233 | the same, stated on the parsed rule |
| Cheng.TranslationSound | policy_translation/cheng.py:182-242 | when subject and object are connected, the result is `< action, (u_a, …) >` over at least one spec, and every spec reads back to the negation flag, labels and hop count of a simple walk from subject to object |
| Cheng.TranslateSound | policy_translation/cheng.py:182-242 | the same, stated on the parsed rule |
| Cheng.TranslationComplete | policy_translation/cheng.py:182-242 | the spec of every simple walk from subject to object is in the policy |
| Cheng.TranslateComplete | policy_translation/cheng.py:182-242 | the same, stated on the parsed rule |
| Cheng.SpecsSound | policy_translation/cheng.py:182-188 | every spec rendered from the found paths reads back to the flag, labels and hop count of a simple walk |
| Cheng.ConvertCell | policy_translation/cheng.py:261-282 | one cell of process_csv yields `CellPolicy(cell)`: no row, the newline-joined policies, or the error |
| Cheng.ConvertRules | policy_translation/cheng.py:261-275 | the loop over the lines returns `Kept(rules, Selected, Translation)` |
| Cheng.BlankNotSelected | policy_translation/cheng.py:264-271 | a blank line is never selected |
| Cheng.KeptSnoc | policy_translation/cheng.py:263-274 | one more line: an unselected line adds nothing, a selected line adds its translation if it is non-empty, and an error stops the run |
| Cheng.KeptRaisedStays | policy_translation/cheng.py:272 | once a translation raises, later lines do not change the outcome |
| Cheng.KeptRaised | policy_translation/cheng.py:263-274 | the cell raises exactly when some selected line's translation raises |
| Cheng.KeptOk | policy_translation/cheng.py:263-274 | a policy is kept exactly when it is non-empty and is the translation of some selected line |
| Cheng.CellKept | policy_translation/cheng.py:261-282 | the cell raises, writes no row, or writes the newline join of the non-empty kept policies, exactly as the line loop does |
| Cheng.CellOutputRaised | policy_translation/cheng.py:261-282 | the cell raises exactly when some selected line raises |
| Cheng.CellOutputNone | policy_translation/cheng.py:261-282 | no row is written exactly when every selected line translates to "" |
| Cheng.KeptNone | policy_translation/cheng.py:263-276 | nothing is kept exactly when every selected line translates to "" |
| Cheng.CellOutputSome | policy_translation/cheng.py:276-282 | a written cell is the newline join of a non-empty list of exactly the non-empty translations of the selected lines |
| Crampton.BuildDependencyGraph | policy_translation/crampton.py:74-120 | the loop of `build_dependency_graph` returns `GraphOf(body)`, the dictionary built by each predicate's insertions and appends in order |
| Crampton.AddPredicate | policy_translation/crampton.py:81-118 | one iteration of the loop applies exactly the predicate's operations |
| Crampton.AddFan | policy_translation/crampton.py:109-118 | the fan loop applies the operations of the fan from args[0] to args[1..] |
| Crampton.UnaryStep | policy_translation/crampton.py:88-92 | a counted unary predicate only makes its variable a key |
| Crampton.BinaryStep | policy_translation/crampton.py:94-104 | a binary predicate makes both variables keys, then appends `name` u→v and `name^{-1}` v→u |
| Crampton.FanStep | policy_translation/crampton.py:113-118 | one more argument makes it a key and appends the forward and the inverse arc |
| Crampton.FanOpsSpec | policy_translation/crampton.py:113-118 | a fan over ws has 3·\|ws\| operations: for each w, make w a key, then append the arc u→w and the inverse arc w→u |
| Crampton.PredOpsSpec | policy_translation/crampton.py:80-118 | constraints and negated predicates add nothing; a unary predicate registers its node; arity 2 adds u→v and v→u; arity > 2 fans out from args[0] to every other argument |
| Crampton.PredOpsFanned | policy_translation/crampton.py:94-118 | for every counted predicate: 3k−2 operations, args[0] first, then for each other argument its key, its forward arc and its inverse arc |
| Crampton.PredOpFrom | policy_translation/crampton.py:86-118 | every operation of a predicate names one of its arguments, and every arc joins two of its arguments under its name or the inverse |
| Crampton.FanOpFrom | policy_translation/crampton.py:94-118 | the same for the operations of the k-th fanned argument |
| Crampton.PredOpsMention | policy_translation/crampton.py:88-116 | every argument of a counted predicate gets a key |
| Crampton.GraphOpsFrom | policy_translation/crampton.py:80-118 | every operation of the whole body comes from a positive atom of the body |
| Crampton.GraphOpsMention | policy_translation/crampton.py:80-116 | every argument of a positive atom of the body gets a key |
| Crampton.GraphKeys | policy_translation/crampton.py:74-120 | the nodes are exactly the arguments of positive atoms |
| Crampton.GraphArc | policy_translation/crampton.py:74-120 | every arc endpoint is a node, and every arc joins two arguments of one positive atom under its name or the inverse |
| Crampton.FindPath | policy_translation/crampton.py:122-141 | the BFS loop with its queue and visited set returns `FoundPath(adj, start, end)`; the entries it appends to its queue over the whole run hold no node twice |
| Crampton.VisitNeighbours | policy_translation/crampton.py:135-140 | the neighbour loop leaves the queue extended by, and the visited set grown by, exactly what `Expand` describes |
| Crampton.ExpandSnoc | policy_translation/crampton.py:136-140 | one more neighbour is queued with the extended path and marked visited exactly when it was not yet visited |
| Crampton.ExpandSpec | policy_translation/crampton.py:136-140 | after the neighbour loop, every neighbour is visited, each new entry is an unvisited neighbour with the path extended by its label, and no node is queued twice |
| Crampton.ExpandGrows | policy_translation/crampton.py:136-140 | the visited set only grows, and it strictly grows when something is queued (termination) |
| Crampton.LabelsOf | policy_translation/crampton.py:139 | one label per hop |
| Crampton.InvInit | policy_translation/crampton.py:127-128 | the initial queue `[(start, [])]` and visited set `{start}` satisfy the BFS invariant |
| Crampton.FrontDone | policy_translation/crampton.py:130-141 | every node reachable in fewer hops than the front entry's path is visited and no longer queued |
| Crampton.DrainedReach | policy_translation/crampton.py:130-141 | when the queue is empty, every node reachable from start is visited |
| Crampton.WalkSnoc | policy_translation/crampton.py:139 | extending a walk by an arc gives a walk whose labels are extended by the arc's label |
| Crampton.NewEntrySound | policy_translation/crampton.py:137-140 | a newly queued neighbour is reached by the extended label path, and no walk to it is shorter |
| Crampton.LevelledStep | policy_translation/crampton.py:130-140 | appending entries one hop longer than the popped one keeps the queue levelled |
| Crampton.InvStep | policy_translation/crampton.py:130-140 | popping a non-goal entry and queueing its unvisited neighbours keeps the BFS invariant |
| Crampton.InvAfter | policy_translation/crampton.py:130-140 | the same, for a given result of the neighbour loop |
| Crampton.ExpandLonger | policy_translation/crampton.py:139 | every new entry's path is one label longer |
| Crampton.SoundStep | policy_translation/crampton.py:136-140 | every entry of the new queue holds the labels of a shortest walk to its node |
| Crampton.ExpandedStep | policy_translation/crampton.py:136-140 | every visited node that is no longer queued has all its neighbours visited |
| Crampton.FrontierStep | policy_translation/crampton.py:131-140 | popping the front and queuing its unvisited neighbours keeps every queued node visited and no node queued twice, and the new entries were not visited before |
| Crampton.EnqueuedFront | policy_translation/crampton.py:130-140 | the entries appended from a state are those of one turn of the loop followed by those appended afterwards |
| Crampton.EnqueuedOnce | policy_translation/crampton.py:130-141 | from a state whose queued nodes are visited and distinct, the queue and every entry appended later hold no node twice, and no later entry was visited in that state |
| Crampton.EnqueuedOnceStep | policy_translation/crampton.py:130-141 | the induction step: the popped node is visited, so it differs from every entry queued after it |
| Crampton.FindPathEnqueuesOnce | policy_translation/crampton.py:126-141 | over the whole run of find_path, counting the initial `(start, [])`, no node is put on the queue twice |
| Crampton.SearchCorrect | policy_translation/crampton.py:126-141 | from any state satisfying the invariant, a result is the labels of a shortest walk to the goal, and None means the goal is unreachable |
| Crampton.SearchFromStart | policy_translation/crampton.py:127-141 | the same from `[(start, [])]` and `{start}` |
| Crampton.FindPathSpec | policy_translation/crampton.py:122-141 | None exactly when start or end is not a node or end is unreachable; otherwise the labels of a shortest walk; `[]` exactly when start is a node and equals end |
| Crampton.TranslateRule | policy_translation/crampton.py:143-173 | `translate_rule` returns `Translation(rule)` |
| Crampton.TranslateParsed | policy_translation/crampton.py:144-173 | the body of `translate_rule` after parsing returns `Translate(parsed)` |
| Crampton.TranslationNone | policy_translation/crampton.py:143-152 | None exactly for a text without ":-" or a missing head; KeyError exactly for a constraint head; "" for a head of arity below 2 |
| Crampton.TranslateShape | policy_translation/crampton.py:144-152 | the same, stated on the parsed rule |
| Crampton.GraphLabelClean | policy_translation/crampton.py:101-118 | every arc label of a parsed body is non-empty and contains no "." |
| Crampton.LabelsClean | policy_translation/crampton.py:104 | a word name and its `^{-1}` form are non-empty and contain no "." |
| Crampton.WalkLabelsClean | policy_translation/crampton.py:139 | every label along a walk is non-empty and contains no "." |
| Crampton.WalkEnds | policy_translation/crampton.py:123 | both ends of a non-empty walk are nodes |
| Crampton.TranslateEmpty | policy_translation/crampton.py:159-171 | for a head of arity ≥ 2, the result is "" exactly when subject and object are the same variable or not connected |
| Crampton.TranslateFound | policy_translation/crampton.py:154-173 | the result is "" for no path or a zero-length path, and otherwise the path's labels joined with "." |
| Crampton.ConnectedKeys | policy_translation/crampton.py:123-124 | distinct connected variables are both nodes |
| Crampton.TranslatePath | policy_translation/crampton.py:159-173 | a non-empty result is the "."-join of the labels of a shortest non-empty walk from the first head argument to the last, and splitting it at "." gives those labels back |
| Crampton.TranslationPath | policy_translation/crampton.py:143-173 | for a parsed rule with a head of arity ≥ 2: the result is a string, it is "" exactly when subject = object or they are not connected, and otherwise it splits into the labels of a shortest walk |
| Crampton.TranslateCases | policy_translation/crampton.py:150-173 | the same, stated on the parsed rule |
| Fong.ParseTerm | policy_translation/fong.py:7-17 | `parse_term` returns the stripped term in every branch |
| Fong.ParseTerms | policy_translation/fong.py:48 | one term per argument, each the stripped argument |
| Fong.ParsePredicate | policy_translation/fong.py:19-56 | `parse_predicate` with its depth-aware argument loop returns `PredicateOf(s)` and never None |
| Fong.BuildGraph | policy_translation/fong.py:82-132 | the body loop fills adj, props and constraints exactly as `ClosureOf(body, objectVar)` |
| Fong.Append | policy_translation/fong.py:88-90 | `if k not in d: d[k] = []` followed by `d[k].append(x)` is the append operation on the dictionary |
| Fong.AllOpsSnoc | policy_translation/fong.py:82-132 | one more predicate adds exactly its edge, tag and constraint operations |
| Fong.SubsLast | policy_translation/fong.py:165-174 | one more edge adds `<rel>(sub)` after the earlier parts, unless its target is on the branch or its formula is "" or "cycle" |
| Fong.Generator.constructor | policy_translation/fong.py:135 | the walk starts with an empty visited set over the given dictionaries |
| Fong.Generator.Generate | policy_translation/fong.py:137-184 | `generate(u)` returns `Gen(c, u, visited)` and leaves `visited` as it found it |
| Fong.Generator.OwnParts | policy_translation/fong.py:142-154 | a node's own parts are its tags, then "owner" if it is the object, then its constraints |
| Fong.Generator.VisitEdges | policy_translation/fong.py:164-174 | the edge loop returns `Subs` and leaves `visited` as it found it |
| Fong.DatalogToFongFormula | policy_translation/fong.py:58-188 | `datalog_to_fong_formula` returns `Formula(head, body)` |
| Fong.PredicatesOf | policy_translation/fong.py:222-227 | one parsed predicate per piece |
| Fong.ConvertRow | policy_translation/fong.py:198-232 | one row of `convert_datalog_to_fong` yields `Row(action)` |
| Fong.ParseBody | policy_translation/fong.py:213-227 | the body character loop parses each stripped depth-0 piece of the body |
| Fong.AppendParsed | policy_translation/fong.py:226-227 | appending the parse of the stripped current piece extends the parsed list by one |
| Fong.PredicatesSnoc | policy_translation/fong.py:222-227 | one more piece appends the parse of its stripped text |
| Fong.ParseTermIdempotent | policy_translation/fong.py:7-17 | `parse_term` applied twice is `parse_term` |
| Fong.CallArguments | policy_translation/fong.py:26-49 | for a call, the arguments are the stripped depth-0 pieces of the argument text; no piece holds a depth-0 comma, and the pieces joined with "," give back the text |
| Fong.NestedArgument | policy_translation/fong.py:30-46 | a balanced first argument stays one argument even when it contains commas (`f(a,b)` is not split) |
| Fong.NotCall | policy_translation/fong.py:51-56 | text without a call shape is an infix record exactly when the infix pattern matches, and is otherwise a raw record |
| Fong.InfixRecord | policy_translation/fong.py:52-54 | the infix record carries the pattern's left, op and right, the negation flag and the un-negated text |
| Fong.BareRecord | policy_translation/fong.py:56 | the fallback record carries the un-negated text and the flag |
| Fong.PredicateFields | policy_translation/fong.py:20-24 | every record carries the flag and the text left after removing "not " |
| Fong.Negation | policy_translation/fong.py:20-24 | negated exactly when the stripped text starts with "not ", in which case raw is the stripped rest; otherwise raw is the stripped text |
| Fong.StoredIff | policy_translation/fong.py:88-90 | a value is in a key's list exactly when it was appended to that key |
| Fong.AllOpsIn | policy_translation/fong.py:82-132 | an operation of the body is an operation of one of its predicates |
| Fong.TagIff | policy_translation/fong.py:103-111 | a tag of v is exactly the name (with "¬" if negated) of a unary atom on v |
| Fong.ConstraintIff | policy_translation/fong.py:83-121 | a constraint of u is exactly the raw text of an infix predicate whose stripped left operand is u, or "¬<name>T" of a negated binary atom whose first argument is u |
| Fong.EdgeIff | policy_translation/fong.py:112-132 | an edge of u is exactly (name, v) of a positive binary atom name(u, v), or ("-name", v) of a positive binary atom name(v, u) |
| Fong.EdgeSymmetric | policy_translation/fong.py:122-132 | every edge has an edge back |
| Fong.JoinHas | policy_translation/fong.py:184 | every part occurs in the join |
| Fong.RenderHas | policy_translation/fong.py:178-184 | every part occurs in the rendered formula |
| Fong.GenShowsOwn | policy_translation/fong.py:142-184 | a node's tags, "owner" mark and constraints occur in its formula |
| Fong.GenOwner | policy_translation/fong.py:148-150 | the object's formula contains "owner" |
| Fong.SubsSound | policy_translation/fong.py:164-174 | each part from the edge loop is `<rel>(sub)` for an edge to a node not on the branch, with sub that node's formula |
| Fong.SubsComplete | policy_translation/fong.py:164-174 | every such neighbour whose formula is neither "" nor "cycle" contributes its part |
| Fong.SubsAllVisited | policy_translation/fong.py:167-168 | edges that all lead back onto the branch contribute nothing |
| Fong.GenLeaf | policy_translation/fong.py:178-179 | a node with no own parts and no unvisited neighbour yields "T" |
| Fong.SubsAngled | policy_translation/fong.py:174 | every part from the edge loop starts with "<" |
| Fong.RenderCycle | policy_translation/fong.py:178-184 | the rendering is "cycle" only for the single part "cycle" |
| Fong.GenCycle | policy_translation/fong.py:139-184 | a fresh node's formula is "cycle" only when its own parts are just "cycle" and it contributes no edge part |
| Fong.CycleTagDropped | policy_translation/fong.py:172-174 | an edge to such a node contributes nothing |
| Fong.FormulaRoles | policy_translation/fong.py:61-65 | no args gives "Error: Head has no args"; the subject is args[0]; the object is args[1], or there is none for a one-argument head |
| Fong.FormulaSelfOwner | policy_translation/fong.py:145-150 | when the first two head arguments are equal, the formula contains "owner" |
| Fong.RowCases | policy_translation/fong.py:198-232 | an empty cell gives no result, and a cell without ":-" gives "" |
| Fong.RowRule | policy_translation/fong.py:203-229 | a rule cell gives the formula of the head before the first ":-" and the parsed stripped depth-0 pieces of the body |
| Fong.PredicatesAt | policy_translation/fong.py:222-227 | element k is the parse of the stripped k-th piece |
| Carminati.ParseTerm | policy_translation/carminati.py:9-21 | literals (empty, quoted, numeric) come back stripped, and anything else is the stripped text with a "?" prefix |
| Carminati.ParseTerms | policy_translation/carminati.py:61 | one term per argument |
| Carminati.Content | policy_translation/carminati.py:79 | the content inside the outer parentheses is strictly shorter (termination of the recursion) |
| Carminati.FormatAll | policy_translation/carminati.py:84 | one parsed item per piece |
| Carminati.ParsePredicate | policy_translation/carminati.py:24-89 | `parse_predicate` returns `Format(s)` |
| Carminati.ParseCall | policy_translation/carminati.py:38-65 | the call branch with its argument loop returns `name(t1,t2,…)`, with "not " added back when negated |
| Carminati.ParseParen | policy_translation/carminati.py:78-87 | the parenthesised branch returns `FormatGroup` |
| Carminati.ParseGroup | policy_translation/carminati.py:83-85 | each ";" piece is parsed recursively, in order |
| Carminati.FormatPieces | policy_translation/carminati.py:138-140 | one formatted item per body piece |
| Carminati.ConvertRow | policy_translation/carminati.py:101-148 | one row of `convert_datalog_to_carminati` yields `Row(action)` |
| Carminati.FormatBody | policy_translation/carminati.py:138-140 | the loop formats each body piece, in order |
| Carminati.NumericIff | policy_translation/carminati.py:17 | `replace(".", "", 1).isdigit()` holds exactly for a non-empty digit string with at most one "." |
| Carminati.RemoveDot | policy_translation/carminati.py:17 | removing the first "." cuts it out at its index, and one fewer "." remains |
| Carminati.NumericSound | policy_translation/carminati.py:17 | a numeric term has the decimal shape |
| Carminati.NumericComplete | policy_translation/carminati.py:17 | a term of the decimal shape is numeric |
| Carminati.TermMarked | policy_translation/carminati.py:9-21 | the result starts with "?" exactly when the term is not a literal or already starts with "?" |
| Carminati.ParseTermStrip | policy_translation/carminati.py:10 | stripping before `parse_term` changes nothing |
| Carminati.FormatStrip | policy_translation/carminati.py:26 | stripping before `parse_predicate` changes nothing |
| Carminati.CallFormat | policy_translation/carminati.py:38-65 | a call renders as its name and the parsed depth-0 arguments joined by "," without spaces, with "not " in front exactly when negated |
| Carminati.CallText | policy_translation/carminati.py:53-65 | the same, on the stripped arguments the loop collects |
| Carminati.ParseTermsStripped | policy_translation/carminati.py:54-61 | parsing stripped arguments is parsing the arguments |
| Carminati.CallArgumentsRoundTrip | policy_translation/carminati.py:61-62 | when no parsed argument contains ",", splitting the rendered list at "," gives back the parsed arguments |
| Carminati.NegationOnlyInCalls | policy_translation/carminati.py:27-89 | "not " is added back only in the call branch; everywhere else the negation is dropped |
| Carminati.InfixFormat | policy_translation/carminati.py:68-75 | an infix comparison renders as `parse_term(left) op parse_term(right)` with single spaces, op one of the pattern's operators, left a non-empty prefix |
| Carminati.FormatAllAt | policy_translation/carminati.py:84 | item k is the recursive parse of piece k |
| Carminati.GroupFormat | policy_translation/carminati.py:78-85 | parenthesised text with ";" splits at every ";" (one more piece than ";"), each piece is parsed recursively, and the items are joined with " ; " inside parentheses |
| Carminati.GroupPieces | policy_translation/carminati.py:83 | the pieces of `split(";")` are one more than the ";" and join back to the content |
| Carminati.GroupItems | policy_translation/carminati.py:84 | each item is the recursive parse of its piece |
| Carminati.GroupText | policy_translation/carminati.py:82-85 | the `;` branch, after the "not " prefix is removed |
| Carminati.ParenFormat | policy_translation/carminati.py:86-87 | parenthesised text without ";" renders as the recursive parse of its content in parentheses |
| Carminati.FormatEmpty | policy_translation/carminati.py:24-89 | parse_predicate returns the empty string exactly when the text is blank |
| Carminati.FormatTextEmpty | policy_translation/carminati.py:38-89 | every branch of parse_predicate yields something for a non-empty text, and the empty text comes back empty |
| Carminati.PlainFormat | policy_translation/carminati.py:89 | any other text comes back as it is, without its "not " prefix |
| Carminati.FormatPiecesAt | policy_translation/carminati.py:139-140 | item k is the parse of piece k |
| Carminati.RowCases | policy_translation/carminati.py:101-148 | an empty cell or one without ":-" gives no output |
| Carminati.RowRule | policy_translation/carminati.py:109-145 | a rule cell gives `b1 ∧ b2 … => head`, one parsed item per depth-0 piece of the body between the first and second ":-" |
| Rows.Cell | policy_translation/fong.py:201 | after `replace("\n", " ")` no newline remains |
| Rows.DropDot | policy_translation/fong.py:207-208 | exactly one trailing "." is removed when there is one, and otherwise nothing changes |
| Rows.SplitAction | policy_translation/fong.py:203-208 | the head and body strings are those of `HeadBody` |
| Rows.UpToPrefixBefore | policy_translation/fong.py:204-206 | the text kept from what follows the first ":-" ends where the next ":-" starts, or at the end when there is none |
| Rows.HeadBodySpec | policy_translation/fong.py:203-208 | the head is the stripped text before the first ":-"; the body is the text after it up to the next ":-" (or to the end), stripped and less one trailing "."; neither holds ":-" or a newline |

## Left out

- File and CSV input and output are not modelled. This covers `process_csv` in `cheng.py` and `crampton.py`, the file reading of `convert_datalog_to_fong` and `convert_datalog_to_carminati`, both `translate` functions, pandas, `os.makedirs`, the prints and the `__main__` loops. The per-row and per-cell string logic, which is a function of the cell text, is modelled.
- The policy generators (`policy_generation/*`, `main.py`) call language models over the network. `evaluation/policy_gen.py` computes statistics and plots with pandas and matplotlib. Neither is part of this model.
- A general regular-expression engine is not modelled. The two patterns the code uses are written as specific scanners.
- `\w` and `isdigit` are ASCII-only in the model, while Python also accepts Unicode letters and digits there. `strip` and `\s` use Python's full whitespace set.
- Python's recursion limit is not modelled. Deep recursion in `find_all_paths`, `generate` and `parse_predicate` is therefore not an error here.
- Fong's `all_vars` set is not modelled, because nothing reads it.
- Patterns.Unnegate: its contract states only the length bound. What it returns is stated by Patterns.UnnegatePlain and Fong.Negation.
- Fong.Generator.Generate, Fong.Generator.VisitEdges, Fong.Generator.constructor: their contracts speak of the object's state before and after the call, through `old`. They tie the methods to the functions `Gen` and `Subs`, and the properties of `generate` are proved as lemmas about those functions.
