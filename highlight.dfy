/**
 * Search highlighting (src/utils/highlight.js). The query is escaped into a
 * regular expression that matches it literally; `String.prototype.split`
 * with a capturing, global, case-insensitive pattern then cuts the text into
 * alternating plain and matched segments, and each segment becomes a React
 * node: an empty fragment, a `<mark>` or a text fragment.
 */
module Highlight {
  import opened Wrappers
  import opened JsString
  import opened Seqs

  // ------------------------------------------------------------- escaping

  /** The characters of the class `[.*+?^${}()|[\]\\]`: those with a meaning in a pattern. */
  const Meta: set<char> := {'.', '*', '+', '?', '^', '$', '{', '}', '(', ')', '|', '[', ']', '\\'}

  /** `escapeRegExp`: a backslash before every metacharacter (the `'\\$&'` replacement). */
  function EscapeRegExp(s: string): (r: string)
    ensures |s| <= |r| <= 2 * |s|
  {
    if s == [] then []
    else (if s[0] in Meta then ['\\', s[0]] else [s[0]]) + EscapeRegExp(s[1..])
  }

  /**
   * The text a pattern matches when it is a plain literal: ordinary characters stand for
   * themselves and `\c` stands for a metacharacter `c`. Any other use of a metacharacter
   * makes the pattern more than a literal (`None`).
   */
  function Literal(p: string): (r: Option<string>)
    ensures r.Some? ==> |r.value| <= |p|
  {
    if p == [] then Some([])
    else if p[0] == '\\' then
      if |p| >= 2 && p[1] in Meta then
        match Literal(p[2..])
        case Some(rest) => Some([p[1]] + rest)
        case None => None
      else None
    else if p[0] in Meta then None
    else
      match Literal(p[1..])
      case Some(rest) => Some([p[0]] + rest)
      case None => None
  }

  /** Escaping makes any query a literal pattern for exactly that query. */
  lemma {:induction false} LiteralOfEscape(s: string)
    ensures Literal(EscapeRegExp(s)) == Some(s)
  {
    if s != [] {
      LiteralOfEscape(s[1..]);
      var e := EscapeRegExp(s[1..]);
      if s[0] in Meta {
        assert EscapeRegExp(s) == ['\\', s[0]] + e;
        assert EscapeRegExp(s)[2..] == e;
      } else {
        assert EscapeRegExp(s) == [s[0]] + e;
        assert EscapeRegExp(s)[1..] == e;
      }
      assert [s[0]] + s[1..] == s;
    }
  }

  // ------------------------------------------------------------- matching

  /** From character `j` of `q` on, `q` agrees with `s` read from offset `k`, up to case. */
  predicate AgreesFrom(s: string, q: string, k: nat, j: nat)
    requires k + |q| <= |s| && j <= |q|
    decreases |q| - j
  {
    j == |q| || (LowerChar(s[k + j]) == LowerChar(q[j]) && AgreesFrom(s, q, k, j + 1))
  }

  /** The `i` flag: the literal `q` matches `s` at offset `k`, one character at a time, up to case. */
  predicate MatchesAt(s: string, q: string, k: int) {
    0 <= k && k + |q| <= |s| && AgreesFrom(s, q, k, 0)
  }

  lemma {:induction false} AgreesFromPointwise(s: string, q: string, k: nat, j: nat)
    requires k + |q| <= |s| && j <= |q|
    ensures AgreesFrom(s, q, k, j) <==> forall i :: j <= i < |q| ==> LowerChar(s[k + i]) == LowerChar(q[i])
    decreases |q| - j
  {
    if j < |q| {
      AgreesFromPointwise(s, q, k, j + 1);
    }
  }

  /** Matching at `k` is an occurrence of the lower-cased `q` in the lower-cased `s`. */
  lemma MatchesAtLower(s: string, q: string, k: int)
    ensures MatchesAt(s, q, k) <==> OccursAt(Lower(s), Lower(q), k)
  {
    if 0 <= k && k + |q| <= |s| {
      AgreesFromPointwise(s, q, k, 0);
      if OccursAt(Lower(s), Lower(q), k) {
        forall i | 0 <= i < |q| ensures LowerChar(s[k + i]) == LowerChar(q[i]) {
          assert Lower(s)[k..k + |q|][i] == Lower(q)[i];
        }
      }
    }
  }

  /**
   * `s.split(/(q)/gi)` from the chunk start `p`, scanning at `k`: the leftmost match at or
   * after `k` closes the chunk `s[p..k]`, then the captured match follows, and scanning
   * resumes after it; with no match left the rest is the final chunk.
   */
  function SplitFrom(s: string, q: string, p: nat, k: nat): (r: seq<string>)
    requires |q| > 0 && p <= k <= |s|
    ensures |r| % 2 == 1
    decreases |s| - k
  {
    if k + |q| > |s| then [s[p..]]
    else if MatchesAt(s, q, k) then [s[p..k], s[k..k + |q|]] + SplitFrom(s, q, k + |q|, k + |q|)
    else SplitFrom(s, q, p, k + 1)
  }

  /** `source.split(pattern)` for a non-empty literal `q`: plain and matched parts alternate and spell the text. */
  function SplitParts(s: string, q: string): (r: seq<string>)
    requires |q| > 0
    ensures |r| % 2 == 1
    ensures Concat(r) == s
  {
    SplitFromConcat(s, q, 0, 0);
    SplitFrom(s, q, 0, 0)
  }

  /** The segments, concatenated. */
  function Concat(parts: seq<string>): string {
    if parts == [] then "" else parts[0] + Concat(parts[1..])
  }

  lemma LowerSlice(s: string, a: int, b: int)
    requires 0 <= a <= b <= |s|
    ensures Lower(s[a..b]) == Lower(s)[a..b]
  {
  }

  /** An occurrence inside the lower-cased stretch `s[p..e]` is a match of `s` starting in that stretch. */
  lemma OccursInSlice(s: string, q: string, p: nat, e: nat, j: int)
    requires |q| > 0 && p <= e <= |s|
    requires OccursAt(Lower(s[p..e]), Lower(q), j)
    ensures p <= p + j < e && MatchesAt(s, q, p + j)
  {
    LowerSlice(s, p, e);
    SliceOfSlice(Lower(s), p, e, j, j + |q|);
    assert OccursAt(Lower(s), Lower(q), p + j);
    MatchesAtLower(s, q, p + j);
  }

  /** A stretch of `s` in which no match starts contains no occurrence of `q`. */
  lemma NoMatchInGap(s: string, q: string, p: nat, e: nat)
    requires |q| > 0 && p <= e <= |s|
    requires forall j :: p <= j < e ==> !MatchesAt(s, q, j)
    ensures !Includes(Lower(s[p..e]), Lower(q))
  {
    if Includes(Lower(s[p..e]), Lower(q)) {
      var j :| OccursAt(Lower(s[p..e]), Lower(q), j);
      OccursInSlice(s, q, p, e, j);
      assert false;
    }
  }

  /** Two leading parts, concatenated. */
  lemma ConcatPair(a: string, b: string, rest: seq<string>)
    ensures Concat([a, b] + rest) == a + (b + Concat(rest))
  {
    var r := [a, b] + rest;
    assert r[1..] == [b] + rest;
    assert ([b] + rest)[1..] == rest;
  }

  /** The segments put back together give the text from the chunk start. */
  lemma {:induction false} SplitFromConcat(s: string, q: string, p: nat, k: nat)
    requires |q| > 0 && p <= k <= |s|
    ensures Concat(SplitFrom(s, q, p, k)) == s[p..]
    decreases |s| - k
  {
    if k + |q| > |s| {
      assert Concat([s[p..]]) == s[p..] + Concat([]);
    } else if MatchesAt(s, q, k) {
      var rest := SplitFrom(s, q, k + |q|, k + |q|);
      SplitFromConcat(s, q, k + |q|, k + |q|);
      ConcatPair(s[p..k], s[k..k + |q|], rest);
      assert s[p..] == s[p..k] + (s[k..k + |q|] + s[k + |q|..]);
    } else {
      SplitFromConcat(s, q, p, k + 1);
    }
  }

  /** Every odd-indexed segment is a match: as long as `q` and equal to it after case folding. */
  predicate OddSegmentsMatch(r: seq<string>, q: string) {
    forall i :: 0 <= i < |r| && i % 2 == 1 ==> |r[i]| == |q| && Lower(r[i]) == Lower(q)
  }

  /** No even-indexed segment contains an occurrence of `q`, up to case. */
  predicate EvenSegmentsClear(r: seq<string>, q: string) {
    forall i :: 0 <= i < |r| && i % 2 == 0 ==> !Includes(Lower(r[i]), Lower(q))
  }

  /** The odd-indexed segments are the matches. */
  lemma {:induction false} SplitFromMatches(s: string, q: string, p: nat, k: nat)
    requires |q| > 0 && p <= k <= |s|
    ensures OddSegmentsMatch(SplitFrom(s, q, p, k), q)
    decreases |s| - k
  {
    if k + |q| > |s| {
    } else if MatchesAt(s, q, k) {
      var rest := SplitFrom(s, q, k + |q|, k + |q|);
      SplitFromMatches(s, q, k + |q|, k + |q|);
      LowerSlice(s, k, k + |q|);
      MatchesAtLower(s, q, k);
      var r := [s[p..k], s[k..k + |q|]] + rest;
      assert SplitFrom(s, q, p, k) == r;
      forall i | 0 <= i < |r| && i % 2 == 1 ensures |r[i]| == |q| && Lower(r[i]) == Lower(q) {
        if i >= 2 {
          assert r[i] == rest[i - 2] && (i - 2) % 2 == 1;
        }
      }
    } else {
      assert SplitFrom(s, q, p, k) == SplitFrom(s, q, p, k + 1);
      SplitFromMatches(s, q, p, k + 1);
    }
  }

  /** A clear plain part and a mark in front of clear parts keep the even parts clear. */
  lemma ClearCons(a: string, b: string, rest: seq<string>, q: string)
    requires !Includes(Lower(a), Lower(q))
    requires EvenSegmentsClear(rest, q)
    ensures EvenSegmentsClear([a, b] + rest, q)
  {
    var r := [a, b] + rest;
    forall i | 0 <= i < |r| && i % 2 == 0 ensures !Includes(Lower(r[i]), Lower(q)) {
      if i >= 2 {
        assert r[i] == rest[i - 2] && (i - 2) % 2 == 0;
      }
    }
  }

  /** The even-indexed segments, the text between matches, hold no occurrence of `q`. */
  lemma {:induction false} SplitFromGaps(s: string, q: string, p: nat, k: nat)
    requires |q| > 0 && p <= k <= |s|
    requires forall j :: p <= j < k ==> !MatchesAt(s, q, j)
    ensures EvenSegmentsClear(SplitFrom(s, q, p, k), q)
    decreases |s| - k
  {
    if k + |q| > |s| {
      NoMatchInGap(s, q, p, |s|);
      assert SplitFrom(s, q, p, k) == [s[p..]];
      assert s[p..] == s[p..|s|];
    } else if MatchesAt(s, q, k) {
      var rest := SplitFrom(s, q, k + |q|, k + |q|);
      SplitFromGaps(s, q, k + |q|, k + |q|);
      NoMatchInGap(s, q, p, k);
      ClearCons(s[p..k], s[k..k + |q|], rest, q);
    } else {
      assert SplitFrom(s, q, p, k) == SplitFrom(s, q, p, k + 1);
      assert forall j :: p <= j < k + 1 ==> !MatchesAt(s, q, j);
      SplitFromGaps(s, q, p, k + 1);
    }
  }

  /** Where part `i` begins, counted from the start of the first part. */
  function Offset(r: seq<string>, i: nat): nat
    requires i <= |r|
  {
    if i == 0 then 0 else |r[0]| + Offset(r[1..], i - 1)
  }

  /** Two leading parts shift every later offset by their lengths. */
  lemma OffsetPair(a: string, b: string, rest: seq<string>, i: nat)
    requires 2 <= i <= |rest| + 2
    ensures Offset([a, b] + rest, i) == |a| + |b| + Offset(rest, i - 2)
  {
    var r := [a, b] + rest;
    assert r[1..] == [b] + rest;
    assert ([b] + rest)[1..] == rest;
  }

  /**
   * No match of `q` starts inside a plain part, the parts being laid out from `base` in `s`.
   * With the parts spelling the text and the odd ones matching, this makes the marks the
   * leftmost, non-overlapping occurrences that a global scan picks.
   */
  predicate NoMatchStartsInGaps(s: string, q: string, r: seq<string>, base: nat) {
    forall i :: 0 <= i < |r| && i % 2 == 0 ==>
      forall j :: base + Offset(r, i) <= j < base + Offset(r, i) + |r[i]| ==> !MatchesAt(s, q, j)
  }

  /** A plain part with no match start, a mark, then parts laid out after them. */
  lemma GapsCons(s: string, q: string, a: string, b: string, rest: seq<string>, base: nat)
    requires forall j :: base <= j < base + |a| ==> !MatchesAt(s, q, j)
    requires NoMatchStartsInGaps(s, q, rest, base + |a| + |b|)
    ensures NoMatchStartsInGaps(s, q, [a, b] + rest, base)
  {
    var r := [a, b] + rest;
    forall i | 0 <= i < |r| && i % 2 == 0
      ensures forall j :: base + Offset(r, i) <= j < base + Offset(r, i) + |r[i]| ==> !MatchesAt(s, q, j)
    {
      if i == 0 {
        assert Offset(r, i) == 0 && r[i] == a;
      } else {
        OffsetPair(a, b, rest, i);
        assert r[i] == rest[i - 2] && (i - 2) % 2 == 0;
      }
    }
  }

  /** The scan takes the leftmost match each time: no match starts inside a plain part. */
  lemma {:induction false} SplitFromLeftmost(s: string, q: string, p: nat, k: nat)
    requires |q| > 0 && p <= k <= |s|
    requires forall j :: p <= j < k ==> !MatchesAt(s, q, j)
    ensures NoMatchStartsInGaps(s, q, SplitFrom(s, q, p, k), p)
    decreases |s| - k
  {
    var r := SplitFrom(s, q, p, k);
    if k + |q| > |s| {
      assert r == [s[p..]];
      forall i | 0 <= i < |r| && i % 2 == 0
        ensures forall j :: p + Offset(r, i) <= j < p + Offset(r, i) + |r[i]| ==> !MatchesAt(s, q, j)
      {
        assert i == 0 && Offset(r, i) == 0;
      }
    } else if MatchesAt(s, q, k) {
      var rest := SplitFrom(s, q, k + |q|, k + |q|);
      SplitFromLeftmost(s, q, k + |q|, k + |q|);
      GapsCons(s, q, s[p..k], s[k..k + |q|], rest, p);
    } else {
      SplitFromLeftmost(s, q, p, k + 1);
    }
  }

  /** There is a single segment exactly when no match starts after the chunk start. */
  lemma {:induction false} SplitFromSingle(s: string, q: string, p: nat, k: nat)
    requires |q| > 0 && p <= k <= |s|
    requires forall j :: p <= j < k ==> !MatchesAt(s, q, j)
    ensures |SplitFrom(s, q, p, k)| == 1 <==> forall j :: p <= j ==> !MatchesAt(s, q, j)
    decreases |s| - k
  {
    if k + |q| > |s| {
    } else if MatchesAt(s, q, k) {
    } else {
      SplitFromSingle(s, q, p, k + 1);
    }
  }

  /** `source.split(pattern)` keeps the text whole exactly when `q` does not occur in it. */
  lemma SplitPartsSingle(s: string, q: string)
    requires |q| > 0
    ensures |SplitParts(s, q)| == 1 <==> !Includes(Lower(s), Lower(q))
  {
    SplitFromSingle(s, q, 0, 0);
    forall j ensures MatchesAt(s, q, j) <==> OccursAt(Lower(s), Lower(q), j) {
      MatchesAtLower(s, q, j);
    }
    if Includes(Lower(s), Lower(q)) {
      var j :| OccursAt(Lower(s), Lower(q), j);
      MatchesAtLower(s, q, j);
    }
  }

  // ------------------------------------------------------------ rendering

  /** What `highlightMatch` hands to React: a bare string, or one node per segment keyed by its index. */
  datatype Node = EmptyFragment(key: nat) | Fragment(key: nat, text: string) | Mark(key: nat, text: string)
  datatype Highlighted = Plain(text: string) | Nodes(nodes: seq<Node>)

  /** An empty segment is an empty fragment, an odd one a `<mark>`, an even one a text fragment. */
  function NodeOf(part: string, index: nat): Node {
    if part == "" then EmptyFragment(index)
    else if index % 2 == 1 then Mark(index, part)
    else Fragment(index, part)
  }

  function NodeText(n: Node): string {
    match n
    case EmptyFragment(_) => ""
    case Fragment(_, t) => t
    case Mark(_, t) => t
  }

  /** One node per segment, keyed by its index. */
  function NodesOf(parts: seq<string>): (ns: seq<Node>)
    ensures |ns| == |parts|
    ensures forall i :: 0 <= i < |parts| ==> NodeText(ns[i]) == parts[i] && ns[i].key == i
    ensures forall i :: 0 <= i < |parts| ==> (ns[i].Mark? <==> parts[i] != "" && i % 2 == 1)
    ensures forall i :: 0 <= i < |parts| ==> (ns[i].EmptyFragment? <==> parts[i] == "")
  {
    seq(|parts|, i requires 0 <= i < |parts| => NodeOf(parts[i], i))
  }

  /** The literal that `new RegExp(escapeRegExp(q))` matches: `q` itself. */
  function PatternLiteral(q: string): (literal: string)
    ensures literal == q
  {
    LiteralOfEscape(q);
    Literal(EscapeRegExp(q)).value
  }

  /** The texts of the nodes, in order. */
  function Texts(ns: seq<Node>): (ts: seq<string>)
    ensures |ts| == |ns| && forall i :: 0 <= i < |ns| ==> ts[i] == NodeText(ns[i])
  {
    seq(|ns|, i requires 0 <= i < |ns| => NodeText(ns[i]))
  }

  /** The text a reader sees. */
  function Rendered(h: Highlighted): string {
    match h
    case Plain(t) => t
    case Nodes(ns) => NodesText(ns)
  }

  function NodesText(ns: seq<Node>): string {
    if ns == [] then "" else NodeText(ns[0]) + NodesText(ns[1..])
  }

  /**
   * `highlightMatch(text, query)`; `None` is `null` or `undefined`. An empty or blank query,
   * or one that does not occur, gives back the text itself.
   */
  function HighlightMatch(text: Option<string>, query: string): (h: Highlighted)
    ensures text.None? ==> h == Plain("")
    ensures text.Some? && Trim(query) == "" ==> h == Plain(text.value)
    ensures h.Nodes? <==> text.Some? && Trim(query) != "" && Includes(Lower(text.value), Lower(Trim(query)))
    ensures h.Plain? && text.Some? ==> h.text == text.value
  {
    match text
    case None => Plain("")
    case Some(source) =>
      if query == "" then Plain(source)
      else
        var trimmedQuery := Trim(query);
        if trimmedQuery == "" then Plain(source)
        else
          var parts := SplitParts(source, PatternLiteral(trimmedQuery));
          SplitPartsSingle(source, trimmedQuery);
          if |parts| == 1 then Plain(source) else Nodes(NodesOf(parts))
  }

  lemma {:induction false} NodesTextOfParts(ns: seq<Node>, parts: seq<string>)
    requires |ns| == |parts|
    requires forall i :: 0 <= i < |ns| ==> NodeText(ns[i]) == parts[i]
    ensures NodesText(ns) == Concat(parts)
  {
    if ns != [] {
      NodesTextOfParts(ns[1..], parts[1..]);
    }
  }

  /** The highlighted output reads exactly as the text it was made from. */
  lemma HighlightPreservesText(text: string, query: string)
    ensures Rendered(HighlightMatch(Some(text), query)) == text
  {
    var h := HighlightMatch(Some(text), query);
    if h.Nodes? {
      var parts := SplitParts(text, Trim(query));
      SplitFromConcat(text, Trim(query), 0, 0);
      NodesTextOfParts(h.nodes, parts);
    }
  }

  /**
   * When there is something to highlight: an odd number of nodes, each keyed by its index;
   * the odd ones are `<mark>`s whose text equals the trimmed query up to case; the even ones
   * are plain, contain no occurrence of it, and no occurrence starts inside them, so the
   * marks are the leftmost non-overlapping occurrences.
   */
  lemma HighlightMarks(text: string, query: string)
    ensures var h := HighlightMatch(Some(text), query);
            var q := Lower(Trim(query));
            h.Nodes? ==>
              && |h.nodes| % 2 == 1
              && (forall i :: 0 <= i < |h.nodes| ==> h.nodes[i].key == i)
              && (forall i :: 0 <= i < |h.nodes| && i % 2 == 1 ==> h.nodes[i].Mark? && Lower(h.nodes[i].text) == q)
              && (forall i :: 0 <= i < |h.nodes| && i % 2 == 0 ==> !h.nodes[i].Mark? && !Includes(Lower(NodeText(h.nodes[i])), q))
              && NoMatchStartsInGaps(text, Trim(query), Texts(h.nodes), 0)
  {
    var h := HighlightMatch(Some(text), query);
    if h.Nodes? {
      var parts := SplitParts(text, Trim(query));
      assert Texts(h.nodes) == parts;
      SplitFromLeftmost(text, Trim(query), 0, 0);
      SplitFromMatches(text, Trim(query), 0, 0);
      SplitFromGaps(text, Trim(query), 0, 0);
    }
  }
}
