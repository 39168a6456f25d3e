/**
 * The document generator's heading pattern `^(#{1,6})\s+(.+)$` under `re.MULTILINE`
 * and its `finditer` scan.
 *
 * At a line start `p` the pattern can only take the whole run of `#` (a shorter run would
 * leave a `#` where `\s+` needs whitespace), so the run must have 1 to 6 characters. `\s+`
 * is greedy and may cross newlines. When it stops before the end of the text, the next
 * character is neither whitespace nor a newline, so `(.+)$` takes the rest of that line.
 * When it runs to the end of the text, the engine gives characters back until `.` can match
 * one: the last character of the run that is not a newline, which is then the whole name.
 */
module Headings {
  import opened Wrappers
  import opened Text

  /** `^` under `re.MULTILINE`: the start of the text or just after a newline. */
  predicate LineStart(s: string, p: nat) {
    p == 0 || (p <= |s| && s[p - 1] == '\n')
  }

  /** A heading match: `group(1)` is `s[start..start + level]`, `group(2)` is `s[nameStart..end]`. */
  datatype Heading = Heading(start: nat, level: nat, nameStart: nat, end: nat)

  /** Reference semantics: the pattern can match at `p` with `group(1) == s[p..p + k]`,
      `\s+` spanning `s[p + k..t]` and `group(2) == s[t..e]`, `$` holding at `e`. */
  predicate IsHeadingMatch(s: string, p: nat, k: nat, t: nat, e: nat) {
    LineStart(s, p) && 1 <= k <= 6 && p + k < t < e <= |s|
    && (forall j :: p <= j < p + k ==> s[j] == '#')
    && (forall j :: p + k <= j < t ==> IsSpace(s[j]))
    && (forall j :: t <= j < e ==> s[j] != '\n')
    && (e == |s| || s[e] == '\n')
  }

  /** The largest index in `lo..hi` that does not hold a newline. */
  function LastNotNewline(s: string, lo: nat, hi: nat): (r: Option<nat>)
    requires lo <= hi <= |s|
    ensures r.Some? ==> (lo <= r.value < hi && s[r.value] != '\n'
                         && forall j :: r.value < j < hi ==> s[j] == '\n')
    ensures r.None? ==> forall j :: lo <= j < hi ==> s[j] == '\n'
    decreases hi - lo
  {
    if hi == lo then None
    else if s[hi - 1] != '\n' then Some(hi - 1)
    else LastNotNewline(s, lo, hi - 1)
  }

  /** The shape of every heading found: a run of 1 to 6 `#` followed by whitespace and a
      non-empty name, all within the text. */
  predicate Bounded(s: string, h: Heading) {
    1 <= h.level <= 6 && h.start + h.level < h.nameStart < h.end <= |s|
  }

  /** The pattern tried at `p`, with the engine's greedy and backtracking choices. */
  function HeadingAt(s: string, p: nat): (r: Option<Heading>)
    requires p <= |s|
    ensures r.Some? ==> r.value.start == p && Bounded(s, r.value)
  {
    if !LineStart(s, p) then None
    else
      var h := RunEnd(s, p, '#');
      if h == p || h - p > 6 then None
      else
        var w := SpaceEnd(s, h);
        if w == h then None
        else if w < |s| then Some(Heading(p, h - p, w, FirstFrom(s, w, '\n')))
        else match LastNotNewline(s, h + 1, |s|)
          case None => None
          case Some(t) => Some(Heading(p, h - p, t, t + 1))
  }

  /** Every heading found is a match of the pattern. */
  lemma HeadingAtSound(s: string, p: nat)
    requires p <= |s| && HeadingAt(s, p).Some?
    ensures var h := HeadingAt(s, p).value;
      IsHeadingMatch(s, p, h.level, h.nameStart, h.end)
  {
  }

  /** The pattern matches at `p` exactly when a heading is found there, and the heading found
      is the engine's choice: the only possible `#` run and the longest possible `\s+`. */
  lemma HeadingAtGreedy(s: string, p: nat, k: nat, t: nat, e: nat)
    requires p <= |s| && IsHeadingMatch(s, p, k, t, e)
    ensures HeadingAt(s, p).Some?
    ensures var h := HeadingAt(s, p).value;
      h.level == k && t <= h.nameStart && (t == h.nameStart ==> e == h.end)
  {
    assert s[p + k] != '#' by { assert IsSpace(s[p + k]); }
    var h := RunEnd(s, p, '#');
    assert h == p + k;
    var w := SpaceEnd(s, h);
    assert t <= w;
    if w < |s| {
      if t == w {
        var f := FirstFrom(s, w, '\n');
        assert e == f;
      }
    } else {
      assert s[t] != '\n';
      var r := LastNotNewline(s, h + 1, |s|);
      assert r.Some?;
      if r.value == t {
        assert t + 1 < |s| ==> s[t + 1] == '\n';
      }
    }
  }

  /** `\s+` may cross line ends: a `#` run followed by a newline takes its name from the
      next line when that line starts with a character other than whitespace. */
  lemma HeadingNameOnNextLine(s: string, p: nat, k: nat)
    requires LineStart(s, p) && 1 <= k <= 6 && p + k + 1 < |s|
    requires forall j :: p <= j < p + k ==> s[j] == '#'
    requires s[p + k] == '\n' && !IsSpace(s[p + k + 1])
    ensures HeadingAt(s, p) == Some(Heading(p, k, p + k + 1, FirstFrom(s, p + k + 1, '\n')))
  {
    assert RunEnd(s, p, '#') == p + k;
    assert SpaceEnd(s, p + k) == p + k + 1;
  }

  /** `finditer` from index `i`, resuming at the end of each match. */
  function HeadingScan(s: string, i: nat): (ms: seq<Heading>)
    requires i <= |s|
    ensures forall j :: 0 <= j < |ms| ==> i <= ms[j].start && Bounded(s, ms[j])
    ensures forall j, k :: 0 <= j < k < |ms| ==> ms[j].end <= ms[k].start
    decreases |s| - i
  {
    if i == |s| then []
    else match HeadingAt(s, i)
      case Some(h) => [h] + HeadingScan(s, h.end)
      case None => HeadingScan(s, i + 1)
  }

  /** Each reported heading is the pattern's match at its start. */
  lemma {:induction false} HeadingScanFound(s: string, i: nat, j: nat)
    requires i <= |s| && j < |HeadingScan(s, i)|
    ensures HeadingAt(s, HeadingScan(s, i)[j].start) == Some(HeadingScan(s, i)[j])
    decreases |s| - i
  {
    if i < |s| {
      match HeadingAt(s, i)
      case Some(h) =>
        HeadingScanStep(s, i, h);
        if j > 0 { HeadingScanFound(s, h.end, j - 1); }
      case None =>
        assert HeadingScan(s, i) == HeadingScan(s, i + 1);
        HeadingScanFound(s, i + 1, j);
    }
  }

  lemma HeadingScanStep(s: string, i: nat, h: Heading)
    requires i <= |s| && HeadingAt(s, i) == Some(h)
    ensures HeadingScan(s, i) == [h] + HeadingScan(s, h.end)
  {
  }

  /** The `j`-th heading of `hs` spans the index `p`. */
  predicate HeadingCovering(hs: seq<Heading>, j: nat, p: nat) {
    j < |hs| && hs[j].start <= p < hs[j].end
  }

  lemma HeadingCoveringCons(h: Heading, rest: seq<Heading>, k: nat, p: nat)
    requires HeadingCovering(rest, k, p)
    ensures HeadingCovering([h] + rest, k + 1, p)
  {
  }

  /** A heading the scan does not report lies inside one it reports: `j` is the index of
      that reported heading. */
  lemma {:induction false} HeadingScanCovers(s: string, i: nat, p: nat) returns (j: nat)
    requires i <= p <= |s| && HeadingAt(s, p).Some?
    ensures HeadingCovering(HeadingScan(s, i), j, p)
    decreases |s| - i, 1
  {
    match HeadingAt(s, i)
    case Some(h) =>
      j := HeadingCoversFrom(s, i, p, h);
    case None =>
      assert HeadingScan(s, i) == HeadingScan(s, i + 1);
      j := HeadingScanCovers(s, i + 1, p);
  }

  /** `HeadingScanCovers` when the scan finds the heading `h` at `i`. */
  lemma {:induction false} HeadingCoversFrom(s: string, i: nat, p: nat, h: Heading) returns (j: nat)
    requires i <= p <= |s| && HeadingAt(s, p).Some? && HeadingAt(s, i) == Some(h)
    ensures HeadingCovering(HeadingScan(s, i), j, p)
    decreases |s| - i, 0
  {
    HeadingScanStep(s, i, h);
    if p < h.end {
      j := 0;
    } else {
      var k := HeadingScanCovers(s, h.end, p);
      HeadingCoveringCons(h, HeadingScan(s, h.end), k, p);
      j := k + 1;
    }
  }

  /** `list(HEADING_PATTERN.finditer(s))` */
  function HeadingMatches(s: string): seq<Heading> {
    HeadingScan(s, 0)
  }

  /** The scan finds nothing exactly when the pattern matches nowhere. */
  lemma HeadingMatchesEmpty(s: string)
    ensures HeadingMatches(s) == [] <==> forall p: nat :: p <= |s| ==> HeadingAt(s, p).None?
  {
    forall p: nat | p <= |s| && HeadingAt(s, p).Some? ensures HeadingMatches(s) != [] {
      var j := HeadingScanCovers(s, 0, p);
    }
    if HeadingMatches(s) != [] {
      HeadingScanFound(s, 0, 0);
    }
  }

}
