/**
 * The Python string operations the two services rely on, restricted to ASCII:
 * the character classes `\w` and `\s`, `lower()`, `title()`, `find`, `in`,
 * `replace`, `strip()`, `split(sep)`, `split()` (word count) and `join`.
 */
module Text {

  /** `str.isspace()`, `str.strip()`, `str.split()` and the regex class `\s` agree on ASCII:
      space, \t \n \v \f \r and the four separators \x1c-\x1f. */
  predicate IsSpace(c: char) {
    c == ' ' || (9 <= c as int <= 13) || (28 <= c as int <= 31)
  }

  predicate IsUpper(c: char) { 'A' <= c <= 'Z' }
  predicate IsLower(c: char) { 'a' <= c <= 'z' }
  predicate IsLetter(c: char) { IsUpper(c) || IsLower(c) }
  predicate IsDigit(c: char) { '0' <= c <= '9' }

  /** The regex class `\w`. */
  predicate IsWordChar(c: char) { IsLetter(c) || IsDigit(c) || c == '_' }

  function LowerChar(c: char): char {
    if IsUpper(c) then (c as int + 32) as char else c
  }

  function UpperChar(c: char): char {
    if IsLower(c) then (c as int - 32) as char else c
  }

  /** `s.lower()` */
  function Lower(s: string): (r: string)
    ensures |r| == |s|
  {
    seq(|s|, k requires 0 <= k < |s| => LowerChar(s[k]))
  }

  /** `s.title()`: a letter is upper-cased when it starts the string or follows a
      non-letter, and lower-cased otherwise; other characters are kept. */
  function Title(s: string): (r: string)
    ensures |r| == |s|
  {
    seq(|s|, k requires 0 <= k < |s| =>
      if !IsLetter(s[k]) then s[k]
      else if k == 0 || !IsLetter(s[k - 1]) then UpperChar(s[k])
      else LowerChar(s[k]))
  }

  /** `pat` occurs in `s` at index `i`. */
  predicate OccursAt(s: string, pat: string, i: nat) {
    i + |pat| <= |s| && s[i..i + |pat|] == pat
  }

  /** `pat in s` */
  predicate Contains(s: string, pat: string) {
    exists i: nat | i <= |s| :: OccursAt(s, pat, i)
  }

  /** `s.startswith(pre)` */
  predicate StartsWith(s: string, pre: string) {
    OccursAt(s, pre, 0)
  }

  /** `s.find(pat, i)`: the least index at or after `i` where `pat` occurs, or -1. */
  function FindFrom(s: string, pat: string, i: nat): (r: int)
    requires i <= |s|
    ensures r == -1 || (i <= r && OccursAt(s, pat, r))
    ensures r == -1 ==> forall j: nat :: i <= j ==> !OccursAt(s, pat, j)
    ensures r != -1 ==> forall j: nat :: i <= j < r ==> !OccursAt(s, pat, j)
    decreases |s| - i
  {
    if OccursAt(s, pat, i) then i
    else if i == |s| then -1
    else FindFrom(s, pat, i + 1)
  }

  /** `s.find(pat)` */
  function Find(s: string, pat: string): (r: int)
    ensures r == -1 || (0 <= r && OccursAt(s, pat, r))
    ensures r != -1 ==> forall j: nat :: j < r ==> !OccursAt(s, pat, j)
    ensures r >= 0 <==> Contains(s, pat)
  {
    FindFrom(s, pat, 0)
  }

  /** `s.replace(pat, v)`: every non-overlapping occurrence, scanning left to right. */
  function ReplaceAll(s: string, pat: string, v: string): string
    requires |pat| > 0
    decreases |s|
  {
    if |s| < |pat| then s
    else if s[..|pat|] == pat then v + ReplaceAll(s[|pat|..], pat, v)
    else [s[0]] + ReplaceAll(s[1..], pat, v)
  }

  /** `s.replace(pat, v, 1)`: only the first occurrence. */
  function ReplaceFirst(s: string, pat: string, v: string): string {
    var i := Find(s, pat);
    if i < 0 then s else s[..i] + v + s[i + |pat|..]
  }

  lemma {:induction false} ReplaceAllAbsent(s: string, pat: string, v: string)
    requires |pat| > 0 && !Contains(s, pat)
    ensures ReplaceAll(s, pat, v) == s
    decreases |s|
  {
    if |s| >= |pat| {
      assert !OccursAt(s, pat, 0);
      assert !Contains(s[1..], pat) by {
        forall i: nat | i <= |s[1..]| ensures !OccursAt(s[1..], pat, i) {
          assert !OccursAt(s, pat, i + 1);
          if i + |pat| <= |s[1..]| {
            assert s[1..][i..i + |pat|] == s[i + 1..i + 1 + |pat|];
          }
        }
      }
      ReplaceAllAbsent(s[1..], pat, v);
    }
  }

  /** The characters of an occurrence of `pat` at `i`. */
  lemma OccursAtChar(s: string, pat: string, i: nat, j: nat)
    requires j < |pat|
    ensures OccursAt(s, pat, i) ==> s[i + j] == pat[j]
  {
    if OccursAt(s, pat, i) {
      assert s[i..i + |pat|][j] == s[i + j];
    }
  }

  /** Occurrences in a suffix are the occurrences in the whole text, shifted. */
  lemma OccursAtSuffix(s: string, d: nat, pat: string, i: nat)
    requires d <= |s|
    ensures OccursAt(s[d..], pat, i) <==> OccursAt(s, pat, d + i)
  {
    if d + i + |pat| <= |s| {
      assert s[d..][i..i + |pat|] == s[d + i..d + i + |pat|];
    }
  }

  /** Occurrences in a prefix are occurrences in the whole text. */
  lemma OccursAtPrefix(s: string, e: nat, pat: string, i: nat)
    requires e <= |s|
    ensures OccursAt(s[..e], pat, i) ==> OccursAt(s, pat, i)
  {
    if i + |pat| <= e {
      assert s[..e][i..i + |pat|] == s[i..i + |pat|];
    }
  }

  /** `w` occurs in `a + w + b` right after `a`. */
  lemma OccursBetween(a: string, w: string, b: string)
    ensures OccursAt(a + w + b, w, |a|)
  {
    assert (a + w + b)[|a|..|a| + |w|] == w;
  }

  /** No occurrence of `pat` in `s` starts before the index `c` and ends after it. */
  predicate NoneAcross(s: string, pat: string, c: nat) {
    forall i: nat :: i < c < i + |pat| ==> !OccursAt(s, pat, i)
  }

  /** Cutting `d` characters off the front keeps the straddle-freedom of a later index. */
  lemma NoneAcrossSuffix(s: string, d: nat, pat: string, c: nat)
    requires d <= c && d <= |s| && NoneAcross(s, pat, c)
    ensures NoneAcross(s[d..], pat, c - d)
  {
    forall i: nat | i < c - d < i + |pat| ensures !OccursAt(s[d..], pat, i) {
      OccursAtSuffix(s, d, pat, i);
    }
  }

  /** `s.replace(pat, v)` works on the two sides of an index separately when no occurrence of
      `pat` straddles that index. */
  lemma {:induction false} ReplaceAllSplit(a: string, b: string, pat: string, v: string)
    requires |pat| > 0 && NoneAcross(a + b, pat, |a|)
    ensures ReplaceAll(a + b, pat, v) == ReplaceAll(a, pat, v) + ReplaceAll(b, pat, v)
    decreases |a|, 1
  {
    var s := a + b;
    if a == [] {
      assert s == b;
    } else if |s| < |pat| {
      assert ReplaceAll(a, pat, v) == a && ReplaceAll(b, pat, v) == b;
    } else if s[..|pat|] == pat {
      ReplaceAllSplitMatch(a, b, pat, v);
    } else {
      ReplaceAllSplitSkip(a, b, pat, v);
    }
  }

  /** `ReplaceAllSplit` when an occurrence of `pat` starts the text. */
  lemma {:induction false} ReplaceAllSplitMatch(a: string, b: string, pat: string, v: string)
    requires |pat| > 0 && NoneAcross(a + b, pat, |a|) && a != []
    requires |a + b| >= |pat| && (a + b)[..|pat|] == pat
    ensures ReplaceAll(a + b, pat, v) == ReplaceAll(a, pat, v) + ReplaceAll(b, pat, v)
    decreases |a|, 0
  {
    var s := a + b;
    assert OccursAt(s, pat, 0);
    var a' := a[|pat|..];
    assert s[|pat|..] == a' + b;
    assert a[..|pat|] == pat;
    NoneAcrossSuffix(s, |pat|, pat, |a|);
    ReplaceAllSplit(a', b, pat, v);
  }

  /** `ReplaceAllSplit` when the text does not start with `pat`. */
  lemma {:induction false} ReplaceAllSplitSkip(a: string, b: string, pat: string, v: string)
    requires |pat| > 0 && NoneAcross(a + b, pat, |a|) && a != []
    requires |a + b| >= |pat| && (a + b)[..|pat|] != pat
    ensures ReplaceAll(a + b, pat, v) == ReplaceAll(a, pat, v) + ReplaceAll(b, pat, v)
    decreases |a|, 0
  {
    var s := a + b;
    var a' := a[1..];
    assert s[1..] == a' + b;
    assert ReplaceAll(s, pat, v) == [a[0]] + ReplaceAll(a' + b, pat, v);
    NoneAcrossSuffix(s, 1, pat, |a|);
    ReplaceAllSplit(a', b, pat, v);
    if |a| < |pat| {
      assert ReplaceAll(a, pat, v) == a;
      assert ReplaceAll(a', pat, v) == a';
      assert a == [a[0]] + a';
    } else {
      assert a[..|pat|] == s[..|pat|];
      assert ReplaceAll(a, pat, v) == [a[0]] + ReplaceAll(a', pat, v);
    }
  }

  /** An occurrence of `w` that holds no `pat` and that no occurrence of `pat` straddles is
      carried over verbatim by `s.replace(pat, v)`. */
  lemma ReplaceAllAround(s: string, pat: string, v: string, w: string, p: nat)
    requires |pat| > 0 && OccursAt(s, w, p) && !Contains(w, pat)
    requires NoneAcross(s, pat, p) && NoneAcross(s, pat, p + |w|)
    ensures ReplaceAll(s, pat, v)
         == ReplaceAll(s[..p], pat, v) + w + ReplaceAll(s[p + |w|..], pat, v)
  {
    var e := p + |w|;
    assert s == s[..e] + s[e..];
    ReplaceAllSplit(s[..e], s[e..], pat, v);
    assert s[..e] == s[..p] + w;
    forall i: nat | i < p < i + |pat| ensures !OccursAt(s[..e], pat, i) {
      OccursAtPrefix(s, e, pat, i);
    }
    ReplaceAllSplit(s[..p], w, pat, v);
    ReplaceAllAbsent(w, pat, v);
  }

  function TrimStart(s: string): (r: string)
    ensures |r| <= |s| && r == s[|s| - |r|..]
    ensures forall k :: 0 <= k < |s| - |r| ==> IsSpace(s[k])
    ensures r == [] || !IsSpace(r[0])
  {
    if |s| > 0 && IsSpace(s[0]) then TrimStart(s[1..]) else s
  }

  function TrimEnd(s: string): (r: string)
    ensures |r| <= |s| && r == s[..|r|]
    ensures forall k :: |r| <= k < |s| ==> IsSpace(s[k])
    ensures r == [] || !IsSpace(r[|r| - 1])
  {
    if |s| > 0 && IsSpace(s[|s| - 1]) then TrimEnd(s[..|s| - 1]) else s
  }

  /** `s.strip()`: the result neither starts nor ends with whitespace. */
  function Strip(s: string): (r: string)
    ensures |r| <= |s|
    ensures r == [] || (!IsSpace(r[0]) && !IsSpace(r[|r| - 1]))
  {
    TrimEnd(TrimStart(s))
  }

  /** A slice of a slice is a slice of the whole. */
  lemma SliceJoin(s: string, a: nat, b: nat, c: nat)
    requires a <= b <= c <= |s|
    ensures s[a..c] == s[a..b] + s[b..c]
  {
  }

  lemma SubSlice(s: string, a: nat, b: nat, c: nat, d: nat)
    requires a <= b <= |s| && c <= d <= b - a
    ensures s[a..b][c..d] == s[a + c..a + d]
  {
    forall k | 0 <= k < d - c ensures s[a..b][c..d][k] == s[a + c..a + d][k] {
      assert s[a..b][c..d][k] == s[a..b][c + k] == s[a + c + k];
    }
  }

  /** `c` is the slice `s[a..a + |c|]` of `s[lo..hi]`, with only whitespace around it. */
  predicate TrimmedSlice(s: string, lo: nat, hi: nat, a: nat, c: string) {
    lo <= a && a + |c| <= hi <= |s| && c == s[a..a + |c|]
    && (forall k :: lo <= k < a ==> IsSpace(s[k]))
    && (forall k :: a + |c| <= k < hi ==> IsSpace(s[k]))
  }

  /** `c == s[lo:hi].strip()` is a slice of `s` between `lo` and `hi` with only whitespace
      around it; `a` is where it starts. */
  lemma StrippedSlice(s: string, lo: nat, hi: nat, c: string) returns (a: nat)
    requires lo <= hi <= |s| && c == Strip(s[lo..hi])
    ensures TrimmedSlice(s, lo, hi, a, c)
  {
    a := StripOfSlice(s, lo, hi, s[lo..hi], c);
  }

  /** `StrippedSlice` with the slice `x == s[lo..hi]` named. */
  lemma StripOfSlice(s: string, lo: nat, hi: nat, x: string, c: string) returns (a: nat)
    requires lo <= hi <= |s| && x == s[lo..hi] && c == Strip(x)
    ensures TrimmedSlice(s, lo, hi, a, c)
  {
    var k := StripIsSlice(x);
    SliceAround(s, lo, hi, x, k, c);
    a := lo + k;
  }

  /** A piece of the slice `x == s[lo..hi]` with only whitespace around it within `x`. */
  lemma SliceAround(s: string, lo: nat, hi: nat, x: string, k: nat, c: string)
    requires lo <= hi <= |s| && x == s[lo..hi] && TrimmedSlice(x, 0, |x|, k, c)
    ensures TrimmedSlice(s, lo, hi, lo + k, c)
  {
    SubSlice(s, lo, hi, k, k + |c|);
    forall j | lo <= j < lo + k ensures IsSpace(s[j]) {
      assert s[j] == x[j - lo];
    }
    forall j | lo + k + |c| <= j < hi ensures IsSpace(s[j]) {
      assert s[j] == x[j - lo];
    }
  }

  /** `s.strip()` is the slice of `s` left once the whitespace at both ends is cut off;
      `k` is where that slice starts. */
  lemma StripIsSlice(s: string) returns (k: nat)
    ensures TrimmedSlice(s, 0, |s|, k, Strip(s))
  {
    var a := TrimStart(s);
    k := |s| - |a|;
    var r := TrimEnd(a);
    assert r == Strip(s);
    assert s[k..k + |r|] == a[..|r|] == r;
    forall j | k + |r| <= j < |s| ensures IsSpace(s[j]) {
      assert s[j] == a[j - k];
    }
  }

  /** Stripping never brings in a character. */
  lemma StripWithout(s: string, c: char)
    requires c !in s
    ensures c !in Strip(s)
  {
    var k := StripIsSlice(s);
  }

  /** `s.split(sep)` for a one-character separator; there is always at least one piece. */
  function SplitOn(s: string, sep: char): (r: seq<string>)
    ensures |r| >= 1
    decreases |s|
  {
    if |s| == 0 then [""]
    else
      var rest := SplitOn(s[1..], sep);
      if s[0] == sep then [""] + rest else [[s[0]] + rest[0]] + rest[1..]
  }

  lemma {:induction false} SplitOnWithout(s: string, sep: char)
    requires sep !in s
    ensures SplitOn(s, sep) == [s]
    decreases |s|
  {
    if |s| > 0 {
      SplitOnWithout(s[1..], sep);
      assert [s[0]] + s[1..] == s;
    }
  }

  /** The first piece is the text before the first separator; the rest is the split of what follows it. */
  lemma {:induction false} SplitOnFirst(a: string, b: string, sep: char)
    requires sep !in a
    ensures SplitOn(a + [sep] + b, sep) == [a] + SplitOn(b, sep)
    decreases |a|
  {
    var s := a + [sep] + b;
    if |a| == 0 {
      assert s[1..] == b;
    } else {
      assert s[1..] == a[1..] + [sep] + b;
      SplitOnFirst(a[1..], b, sep);
      assert [a[0]] + a[1..] == a;
    }
  }

  /** The first piece runs up to the first separator, and the other pieces are the split of
      what follows it. */
  lemma SplitOnHead(s: string, sep: char)
    ensures SplitOn(s, sep)[0] == s[..FirstFrom(s, 0, sep)]
    ensures FirstFrom(s, 0, sep) < |s| ==>
      SplitOn(s, sep)[1..] == SplitOn(s[FirstFrom(s, 0, sep) + 1..], sep)
  {
    var i := FirstFrom(s, 0, sep);
    if i == |s| {
      SplitOnWithout(s, sep);
      assert s[..i] == s;
    } else {
      assert sep !in s[..i];
      assert s == s[..i] + [sep] + s[i + 1..];
      SplitOnFirst(s[..i], s[i + 1..], sep);
    }
  }

  /** `sep.join(ss)` */
  function JoinWith(ss: seq<string>, sep: string): string {
    if |ss| == 0 then ""
    else if |ss| == 1 then ss[0]
    else ss[0] + sep + JoinWith(ss[1..], sep)
  }

  /** No piece of `s.split(sep)` holds the separator. */
  lemma {:induction false} SplitOnPieces(s: string, sep: char)
    ensures forall i :: 0 <= i < |SplitOn(s, sep)| ==> sep !in SplitOn(s, sep)[i]
    decreases |s|
  {
    if |s| > 0 {
      SplitOnPieces(s[1..], sep);
    }
  }

  /** Joining pieces that lack `c` with a separator that lacks `c` never produces `c`. */
  lemma {:induction false} JoinWithout(ss: seq<string>, sep: string, c: char)
    requires forall i :: 0 <= i < |ss| ==> c !in ss[i]
    requires c !in sep
    ensures c !in JoinWith(ss, sep)
    decreases |ss|
  {
    if |ss| > 1 {
      JoinWithout(ss[1..], sep, c);
    }
  }

  /** A word of `s.split()` starts at index `i`. */
  predicate WordStartsAt(s: string, i: nat)
    requires i < |s|
  {
    !IsSpace(s[i]) && (i == 0 || IsSpace(s[i - 1]))
  }

  /** `len(s.split())`: the number of maximal runs of non-whitespace characters. */
  function WordCount(s: string): (n: nat)
    ensures n <= |s|
  {
    if |s| == 0 then 0
    else WordCount(s[..|s| - 1]) + (if WordStartsAt(s, |s| - 1) then 1 else 0)
  }

  /** The end of the maximal run of `\w` characters starting at `i`. */
  function WordEnd(s: string, i: nat): (j: nat)
    requires i <= |s|
    ensures i <= j <= |s|
    ensures forall k :: i <= k < j ==> IsWordChar(s[k])
    ensures j == |s| || !IsWordChar(s[j])
    decreases |s| - i
  {
    if i < |s| && IsWordChar(s[i]) then WordEnd(s, i + 1) else i
  }

  /** The end of the maximal run of `\s` characters starting at `i`. */
  function SpaceEnd(s: string, i: nat): (j: nat)
    requires i <= |s|
    ensures i <= j <= |s|
    ensures forall k :: i <= k < j ==> IsSpace(s[k])
    ensures j == |s| || !IsSpace(s[j])
    decreases |s| - i
  {
    if i < |s| && IsSpace(s[i]) then SpaceEnd(s, i + 1) else i
  }

  /** The end of the maximal run of the character `c` starting at `i`. */
  function RunEnd(s: string, i: nat, c: char): (j: nat)
    requires i <= |s|
    ensures i <= j <= |s|
    ensures forall k :: i <= k < j ==> s[k] == c
    ensures j == |s| || s[j] != c
    decreases |s| - i
  {
    if i < |s| && s[i] == c then RunEnd(s, i + 1, c) else i
  }

  /** The first index at or after `i` holding `c`, or `|s|`: the end of the maximal run of `[^c]`. */
  function FirstFrom(s: string, i: nat, c: char): (j: nat)
    requires i <= |s|
    ensures i <= j <= |s|
    ensures forall k :: i <= k < j ==> s[k] != c
    ensures j == |s| || s[j] == c
    decreases |s| - i
  {
    if i < |s| && s[i] != c then FirstFrom(s, i + 1, c) else i
  }

  /** `FirstFrom` is characterised by its postconditions. */
  lemma {:induction false} FirstFromIs(s: string, i: nat, j: nat, c: char)
    requires i <= j <= |s| && (j == |s| || s[j] == c)
    requires forall k :: i <= k < j ==> s[k] != c
    ensures FirstFrom(s, i, c) == j
    decreases j - i
  {
    if i < j { FirstFromIs(s, i + 1, j, c); }
  }

  lemma PrefixOfSuffix(s: string, i: nat, j: nat)
    requires i <= j <= |s|
    ensures s[i..][..j - i] == s[i..j]
  {
  }

  /** The second piece of a split runs from the first separator to the next one. */
  lemma SplitOnSecond(s: string, sep: char)
    requires FirstFrom(s, 0, sep) < |s|
    ensures var i := FirstFrom(s, 0, sep);
      |SplitOn(s, sep)| >= 2 && SplitOn(s, sep)[1] == s[i + 1..FirstFrom(s, i + 1, sep)]
  {
    var i := FirstFrom(s, 0, sep);
    SplitOnHead(s, sep);
    SplitOnHead(s[i + 1..], sep);
    FirstFromSuffix(s, i + 1, sep);
    PrefixOfSuffix(s, i + 1, FirstFrom(s, i + 1, sep));
  }

  lemma FirstFromSuffix(s: string, i: nat, c: char)
    requires i <= |s|
    ensures FirstFrom(s[i..], 0, c) == FirstFrom(s, i, c) - i
  {
    var f := FirstFrom(s, i, c);
    var t := s[i..];
    forall k | 0 <= k < f - i ensures t[k] != c {
      assert t[k] == s[i + k];
    }
    if f < |s| {
      assert t[f - i] == s[f];
    }
    FirstFromIs(t, 0, f - i, c);
  }

  /** `s.replace(c, c + sep + x, 1)` inserts `sep + x` right after the first occurrence of `c`,
      wherever in `s` that is. */
  lemma ReplaceFirstAppends(s: string, c: string, sep: string, x: string)
    requires Contains(s, c)
    ensures var e := Find(s, c) + |c|;
      ReplaceFirst(s, c, c + sep + x) == s[..e] + sep + x + s[e..]
  {
    var i := Find(s, c);
    var rest := s[i + |c|..];
    assert s[i..i + |c|] == c;
    assert s[..i + |c|] == s[..i] + c;
    calc {
      ReplaceFirst(s, c, c + sep + x);
      s[..i] + (c + sep + x) + rest;
      (s[..i] + c) + sep + x + rest;
      s[..i + |c|] + sep + x + rest;
    }
  }

}
