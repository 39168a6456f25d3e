/**
 * The template parser's two marker patterns with defaults,
 *   DOUBLE_BRACE_PATTERN   `\{\{(\w+(?::[^}]+)?)\}\}`
 *   SINGLE_BRACKET_PATTERN `\[(\w+(?::[^\]]+)?)\]`
 * both of the shape `open (\w+(?::[^c]+)?) close` where `c` is the first character of `close`,
 * and their `re.finditer` scans.
 */
module VariablePatterns {
  import opened Wrappers
  import opened Text
  import opened Markers

  const BraceOpen := "{{"
  const BraceClose := "}}"
  const BracketOpen := "["
  const BracketClose := "]"

  /** The closing delimiter can neither continue a name nor start a default. */
  predicate ValidClose(close: string) {
    |close| > 0 && !IsWordChar(close[0]) && close[0] != ':'
  }

  /** A match: its span and `group(1)`, the text between the delimiters. */
  datatype MarkerMatch = MarkerMatch(start: nat, end: nat, group: string)

  /** Where the group starting at `g` ends when the pattern can go on there. The name is the
      maximal `\w` run; the optional `:default` part is tried first, and its `[^c]+` is the
      maximal run of characters other than `c`, the first character of `close`. */
  function GroupEnd(s: string, g: nat, close: string): (r: Option<nat>)
    requires g <= |s| && |close| > 0
    ensures r.Some? ==> g < r.value && OccursAt(s, close, r.value)
  {
    var q := WordEnd(s, g);
    if q == g then None
    else if q < |s| && s[q] == ':' && q + 1 < FirstFrom(s, q + 1, close[0])
            && OccursAt(s, close, FirstFrom(s, q + 1, close[0])) then
      Some(FirstFrom(s, q + 1, close[0]))
    else if OccursAt(s, close, q) then Some(q)
    else None
  }

  /** The pattern tried at `p`: `open`, a group, `close`. */
  function MarkerAt(s: string, p: nat, open: string, close: string): (r: Option<MarkerMatch>)
    requires p <= |s| && |close| > 0
    ensures r.Some? ==> r.value.start == p < r.value.end <= |s|
  {
    if !OccursAt(s, open, p) then None
    else match GroupEnd(s, p + |open|, close)
      case None => None
      case Some(f) => Some(MarkerMatch(p, f + |close|, s[p + |open|..f]))
  }

  /** The text inside the delimiters: a name, then optionally `:` and a non-empty run without `c`. */
  predicate IsGroup(g: string, c: char) {
    var k := WordEnd(g, 0);
    0 < k && (k == |g| || (g[k] == ':' && k + 1 < |g| && forall j :: k < j < |g| ==> g[j] != c))
  }

  /** `t` is in the language of the pattern `open (\w+(?::[^c]+)?) close`. */
  predicate IsMarkerText(t: string, open: string, close: string)
    requires |close| > 0
  {
    |open| + |close| <= |t| && t[..|open|] == open && t[|t| - |close|..] == close
    && IsGroup(t[|open|..|t| - |close|], close[0])
  }

  lemma {:induction false} WordEndShift(s: string, g: nat, t: string, k: nat)
    requires g <= |s| && k <= |t| && g + |t| <= |s| && s[g..g + |t|] == t
    requires WordEnd(t, 0) == k
    requires k < |t| || g + |t| == |s| || !IsWordChar(s[g + |t|])
    ensures WordEnd(s, g) == g + k
  {
    forall j | g <= j < g + k ensures IsWordChar(s[j]) {
      assert s[j] == t[j - g];
    }
    if k < |t| {
      assert s[g + k] == t[k];
    }
    IsWordRunEnd(s, g, g + k);
  }

  /** A span of `s` is a marker text when it opens with `open`, closes with `close` and holds a group. */
  lemma MarkerTextOfSpan(s: string, p: nat, e: nat, open: string, close: string)
    requires p + |open| + |close| <= e <= |s| && |close| > 0
    requires OccursAt(s, open, p) && OccursAt(s, close, e - |close|)
    requires IsGroup(s[p + |open|..e - |close|], close[0])
    ensures IsMarkerText(s[p..e], open, close)
  {
    var t := s[p..e];
    SubSlice(s, p, e, 0, |open|);
    SubSlice(s, p, e, |t| - |close|, |t|);
    SubSlice(s, p, e, |open|, |t| - |close|);
  }

  /** Every match found is a text of the pattern's language, and its group is the text
      between the delimiters. */
  lemma MarkerAtSound(s: string, p: nat, open: string, close: string)
    requires p <= |s| && ValidClose(close) && MarkerAt(s, p, open, close).Some?
    ensures var m := MarkerAt(s, p, open, close).value;
      IsMarkerText(s[p..m.end], open, close) &&
      m.group == s[p + |open|..m.end - |close|] && IsGroup(m.group, close[0])
  {
    var m := MarkerAt(s, p, open, close).value;
    var f := GroupEnd(s, p + |open|, close).value;
    assert m.end == f + |close| && m.end - |close| == f;
    assert m.group == s[p + |open|..f];
    GroupEndSound(s, p + |open|, close);
    MarkerTextOfSpan(s, p, m.end, open, close);
  }

  /** A group end found delimits a group. */
  lemma GroupEndSound(s: string, g: nat, close: string)
    requires g <= |s| && ValidClose(close) && GroupEnd(s, g, close).Some?
    ensures IsGroup(s[g..GroupEnd(s, g, close).value], close[0])
  {
    var q := WordEnd(s, g);
    var c := close[0];
    var f := GroupEnd(s, g, close).value;
    if f != q {
      assert s[q] == ':' && f == FirstFrom(s, q + 1, c);
    } else {
      assert s[f] == c;
    }
    GroupOfRun(s, g, q, f, c);
  }

  /** The text `s[g..e]` is a group when `s[g..q]` is a maximal name run and either
      `q == e`, or `s[q]` is `:` followed by a non-empty run without `c` up to `e`. */
  lemma GroupOfRun(s: string, g: nat, q: nat, e: nat, c: char)
    requires g < q <= e <= |s| && q == WordEnd(s, g)
    requires q == e || (s[q] == ':' && q + 1 < e && forall j :: q < j < e ==> s[j] != c)
    requires q == e ==> (e == |s| || !IsWordChar(s[e]))
    ensures IsGroup(s[g..e], c)
  {
    var grp := s[g..e];
    forall j | 0 <= j < q - g ensures IsWordChar(grp[j]) {
      assert grp[j] == s[g + j];
    }
    if q < e {
      assert grp[q - g] == s[q];
      forall j | q - g < j < |grp| ensures grp[j] != c {
        assert grp[j] == s[g + j];
      }
    }
    IsWordRunEnd(grp, 0, q - g);
  }

  /** The converse of `MarkerTextOfSpan`. */
  lemma SpanOfMarkerText(s: string, p: nat, e: nat, open: string, close: string)
    requires p <= e <= |s| && |close| > 0
    requires IsMarkerText(s[p..e], open, close)
    ensures p + |open| + |close| <= e
    ensures OccursAt(s, open, p) && OccursAt(s, close, e - |close|)
    ensures IsGroup(s[p + |open|..e - |close|], close[0])
  {
    var t := s[p..e];
    SubSlice(s, p, e, 0, |open|);
    SubSlice(s, p, e, |t| - |close|, |t|);
    SubSlice(s, p, e, |open|, |t| - |close|);
  }

  /** Every text of the pattern's language at `p` is what the scan finds there: the match at a
      given index is unique, so the greedy choice can only be this one. */
  lemma MarkerAtComplete(s: string, p: nat, e: nat, open: string, close: string)
    requires p <= e <= |s| && ValidClose(close)
    requires IsMarkerText(s[p..e], open, close)
    ensures MarkerAt(s, p, open, close) == Some(MarkerMatch(p, e, s[p + |open|..e - |close|]))
  {
    SpanOfMarkerText(s, p, e, open, close);
    var f: nat := e - |close|;
    GroupAt(s, p + |open|, f, close);
    assert f + |close| == e;
    assert OccursAt(s, open, p) && GroupEnd(s, p + |open|, close) == Some(f);
  }

  /** A group at `g..f` followed by `close` is read back by the pattern's greedy choices. */
  lemma GroupAt(s: string, g: nat, f: nat, close: string)
    requires g <= f && f + |close| <= |s| && ValidClose(close) && OccursAt(s, close, f)
    requires IsGroup(s[g..f], close[0])
    ensures GroupEnd(s, g, close) == Some(f)
  {
    var c := close[0];
    var grp := s[g..f];
    assert s[f] == c;
    var k := WordEnd(grp, 0);
    WordEndShift(s, g, grp, k);
    if k < |grp| {
      assert s[g + k] == grp[k] == ':';
      forall j | g + k + 1 <= j < f ensures s[j] != c {
        assert s[j] == grp[j - g];
      }
      FirstFromIs(s, g + k + 1, f, c);
    } else {
      assert s[g + k] == c;
    }
  }

  /** `re.finditer` from index `i`: left to right, resuming at the end of each match. */
  function MarkerScan(s: string, i: nat, open: string, close: string): (ms: seq<MarkerMatch>)
    requires i <= |s| && |close| > 0
    ensures forall j :: 0 <= j < |ms| ==> i <= ms[j].start < ms[j].end <= |s|
    ensures forall j, k :: 0 <= j < k < |ms| ==> ms[j].end <= ms[k].start
    decreases |s| - i
  {
    if i == |s| then []
    else match MarkerAt(s, i, open, close)
      case Some(m) => [m] + MarkerScan(s, m.end, open, close)
      case None => MarkerScan(s, i + 1, open, close)
  }

  /** Each reported match is the pattern's match at its start. */
  lemma {:induction false} MarkerScanFound(s: string, i: nat, open: string, close: string, j: nat)
    requires i <= |s| && |close| > 0 && j < |MarkerScan(s, i, open, close)|
    ensures MarkerAt(s, MarkerScan(s, i, open, close)[j].start, open, close)
      == Some(MarkerScan(s, i, open, close)[j])
    decreases |s| - i
  {
    match MarkerAt(s, i, open, close)
    case Some(m) =>
      if j > 0 { MarkerScanFound(s, m.end, open, close, j - 1); }
    case None =>
      MarkerScanFound(s, i + 1, open, close, j);
  }

  /** The `j`-th match of `ms` spans the index `p`. */
  predicate MarkerCovering(ms: seq<MarkerMatch>, j: nat, p: nat) {
    j < |ms| && ms[j].start <= p < ms[j].end
  }

  lemma MarkerCoveringCons(m: MarkerMatch, rest: seq<MarkerMatch>, k: nat, p: nat)
    requires MarkerCovering(rest, k, p)
    ensures MarkerCovering([m] + rest, k + 1, p)
  {
  }

  /** A match the scan does not report lies inside one it reports (matches never overlap):
      `j` is the index of that reported match. */
  lemma {:induction false} MarkerScanCovers(s: string, i: nat, p: nat, open: string, close: string)
    returns (j: nat)
    requires i <= p <= |s| && |close| > 0 && MarkerAt(s, p, open, close).Some?
    ensures MarkerCovering(MarkerScan(s, i, open, close), j, p)
    decreases |s| - i, 1
  {
    match MarkerAt(s, i, open, close)
    case Some(m) =>
      j := CoversFromMatch(s, i, p, open, close, m);
    case None =>
      assert MarkerScan(s, i, open, close) == MarkerScan(s, i + 1, open, close);
      j := MarkerScanCovers(s, i + 1, p, open, close);
  }

  /** `MarkerScanCovers` when the scan finds the match `m` at `i`. */
  lemma {:induction false} CoversFromMatch(s: string, i: nat, p: nat, open: string, close: string, m: MarkerMatch)
    returns (j: nat)
    requires i <= p <= |s| && |close| > 0 && MarkerAt(s, p, open, close).Some?
    requires MarkerAt(s, i, open, close) == Some(m)
    ensures MarkerCovering(MarkerScan(s, i, open, close), j, p)
    decreases |s| - i, 0
  {
    ScanStep(s, i, open, close, m);
    if p < m.end {
      j := 0;
    } else {
      var k := MarkerScanCovers(s, m.end, p, open, close);
      MarkerCoveringCons(m, MarkerScan(s, m.end, open, close), k, p);
      j := k + 1;
    }
  }

  /** The scan at a match `m`: `m`, then the scan from the end of `m`. */
  lemma ScanStep(s: string, i: nat, open: string, close: string, m: MarkerMatch)
    requires i <= |s| && |close| > 0 && MarkerAt(s, i, open, close) == Some(m)
    ensures MarkerScan(s, i, open, close) == [m] + MarkerScan(s, m.end, open, close)
  {
  }

  /** `re.finditer(DOUBLE_BRACE_PATTERN, s)` */
  function BraceMatches(s: string): seq<MarkerMatch> {
    MarkerScan(s, 0, BraceOpen, BraceClose)
  }

  /** `re.finditer(SINGLE_BRACKET_PATTERN, s)` */
  function BracketMatches(s: string): seq<MarkerMatch> {
    MarkerScan(s, 0, BracketOpen, BracketClose)
  }

}
