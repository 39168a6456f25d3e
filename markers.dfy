/**
 * The simple variable-marker pattern `\{\{(\w+)\}\}|\[(\w+)\]`, which both services use
 * (`extract_variables_simple` in the template parser, `VARIABLE_PATTERN` in the document
 * generator).
 */
module Markers {
  import opened Wrappers
  import opened Text
  import opened StringOrder

  /** A variable name: one or more `\w` characters. */
  predicate IsName(n: string) {
    |n| > 0 && forall k :: 0 <= k < |n| ==> IsWordChar(n[k])
  }

  /** The literal markers `{{n}}` and `[n]`. */
  function BraceLiteral(n: string): string { "{{" + n + "}}" }

  function BracketLiteral(n: string): string { "[" + n + "]" }

  /** `n` is a name whose literal marker `{{n}}` or `[n]` occurs somewhere in `s`. */
  predicate Marked(s: string, n: string) {
    IsName(n) && (Contains(s, BraceLiteral(n)) || Contains(s, BracketLiteral(n)))
  }

  /** One match of the simple pattern: its span and the name it captured. */
  datatype NameMatch = NameMatch(start: nat, end: nat, name: string)

  /** The simple pattern tried at index `p`, the brace alternative first. */
  function NameAt(s: string, p: nat): (r: Option<NameMatch>)
    requires p <= |s|
    ensures r.Some? ==> r.value.start == p < r.value.end <= |s|
  {
    if p + 2 <= |s| && s[p] == '{' && s[p + 1] == '{'
       && p + 2 < WordEnd(s, p + 2) && OccursAt(s, "}}", WordEnd(s, p + 2)) then
      Some(NameMatch(p, WordEnd(s, p + 2) + 2, s[p + 2..WordEnd(s, p + 2)]))
    else if p < |s| && s[p] == '['
       && p + 1 < WordEnd(s, p + 1) && OccursAt(s, "]", WordEnd(s, p + 1)) then
      Some(NameMatch(p, WordEnd(s, p + 1) + 1, s[p + 1..WordEnd(s, p + 1)]))
    else None
  }

  /** Every match is the literal marker of the name it captured. */
  lemma NameAtIsLiteral(s: string, p: nat)
    requires p <= |s| && NameAt(s, p).Some?
    ensures var m := NameAt(s, p).value;
      IsName(m.name) &&
      ((OccursAt(s, BraceLiteral(m.name), p) && m.end == p + |BraceLiteral(m.name)|) ||
       (OccursAt(s, BracketLiteral(m.name), p) && m.end == p + |BracketLiteral(m.name)|))
  {
    if p + 2 <= |s| && s[p] == '{' && s[p + 1] == '{'
       && p + 2 < WordEnd(s, p + 2) && OccursAt(s, "}}", WordEnd(s, p + 2)) {
      LiteralAround(s, p, 2, WordEnd(s, p + 2), 2);
      assert s[p..p + 2] == "{{";
    } else {
      LiteralAround(s, p, 1, WordEnd(s, p + 1), 1);
      assert s[p..p + 1] == "[";
    }
  }

  /** The text from `p` to `q + c` is the `o` characters before `q`'s run, the run, and the
      `c` characters after it. */
  lemma LiteralAround(s: string, p: nat, o: nat, q: nat, c: nat)
    requires p + o <= q && q + c <= |s|
    ensures s[p..q + c] == s[p..p + o] + s[p + o..q] + s[q..q + c]
  {
    SliceJoin(s, p, p + o, q + c);
    SliceJoin(s, p + o, q, q + c);
  }

  /** Every literal marker of a name is a match of the simple pattern at its index. */
  lemma LiteralIsNameAt(s: string, p: nat, n: string)
    requires p <= |s| && IsName(n)
    requires OccursAt(s, BraceLiteral(n), p) || OccursAt(s, BracketLiteral(n), p)
    ensures NameAt(s, p).Some? && NameAt(s, p).value.name == n
  {
    if OccursAt(s, BraceLiteral(n), p) {
      BraceLiteralIsNameAt(s, p, n);
    } else {
      BracketLiteralIsNameAt(s, p, n);
    }
  }

  lemma BraceLiteralIsNameAt(s: string, p: nat, n: string)
    requires p <= |s| && IsName(n) && OccursAt(s, BraceLiteral(n), p)
    ensures NameAt(s, p).Some? && NameAt(s, p).value.name == n
  {
    var lit := BraceLiteral(n);
    var q := p + 2 + |n|;
    assert s[p..p + |lit|] == lit;
    assert s[p] == '{' && s[p + 1] == '{' by {
      assert s[p] == lit[0] && s[p + 1] == lit[1];
    }
    assert s[p + 2..q] == n by {
      forall k | 0 <= k < |n| ensures s[p + 2 + k] == n[k] {
        assert s[p + 2 + k] == lit[2 + k];
      }
    }
    assert s[q..q + 2] == "}}" by {
      assert s[q..q + 2] == s[p..p + |lit|][2 + |n|..];
    }
    IsWordRunEnd(s, p + 2, q);
  }

  lemma BracketLiteralIsNameAt(s: string, p: nat, n: string)
    requires p <= |s| && IsName(n) && OccursAt(s, BracketLiteral(n), p)
    ensures NameAt(s, p).Some? && NameAt(s, p).value.name == n
  {
    var lit := BracketLiteral(n);
    var q := p + 1 + |n|;
    assert s[p..p + |lit|] == lit;
    assert s[p] == '[' by {
      assert s[p] == lit[0];
    }
    assert s[p + 1..q] == n by {
      forall k | 0 <= k < |n| ensures s[p + 1 + k] == n[k] {
        assert s[p + 1 + k] == lit[1 + k];
      }
    }
    assert s[q..q + 1] == "]" by {
      assert s[q..q + 1] == s[p..p + |lit|][1 + |n|..];
    }
    assert !(s[p] == '{');
    IsWordRunEnd(s, p + 1, q);
  }

  /** The run `s[i..j]` of `\w` characters followed by a non-word character is the maximal one. */
  lemma {:induction false} IsWordRunEnd(s: string, i: nat, j: nat)
    requires i <= j <= |s|
    requires forall k :: i <= k < j ==> IsWordChar(s[k])
    requires j == |s| || !IsWordChar(s[j])
    ensures WordEnd(s, i) == j
    decreases j - i
  {
    if i < j { IsWordRunEnd(s, i + 1, j); }
  }

  /** No match of the simple pattern starts strictly inside another one. */
  lemma NameAtNoneInside(s: string, p: nat, q: nat)
    requires p <= |s| && NameAt(s, p).Some?
    requires p < q < NameAt(s, p).value.end
    ensures NameAt(s, q).None?
  {
    var m := NameAt(s, p).value;
    if p + 2 <= |s| && s[p] == '{' && s[p + 1] == '{'
       && p + 2 < WordEnd(s, p + 2) && OccursAt(s, "}}", WordEnd(s, p + 2)) {
      var w := WordEnd(s, p + 2);
      OccursAtChar(s, "}}", w, 0);
      OccursAtChar(s, "}}", w, 1);
      assert q == p + 1 ==> IsWordChar(s[p + 2]);
    } else {
      var w := WordEnd(s, p + 1);
      assert s[w..w + 1] == "]";
    }
  }

  /** `re.findall` / `re.finditer` of the simple pattern from index `i`:
      left to right, resuming after each match. */
  function NameScan(s: string, i: nat): (ms: seq<NameMatch>)
    requires i <= |s|
    ensures forall j :: 0 <= j < |ms| ==> i <= ms[j].start <= |s| && NameAt(s, ms[j].start) == Some(ms[j])
    decreases |s| - i
  {
    if i == |s| then []
    else match NameAt(s, i)
      case Some(m) => [m] + NameScan(s, m.end)
      case None => NameScan(s, i + 1)
  }

  /** The scan misses no match: none can start inside a reported one. */
  lemma {:induction false} NameScanFinds(s: string, i: nat, p: nat)
    requires i <= p <= |s| && NameAt(s, p).Some?
    ensures NameAt(s, p).value in NameScan(s, i)
    decreases |s| - i
  {
    if i < |s| {
      match NameAt(s, i)
      case Some(m) =>
        if p != i {
          if p < m.end { NameAtNoneInside(s, i, p); }
          NameScanFinds(s, m.end, p);
        }
      case None =>
        NameScanFinds(s, i + 1, p);
    }
  }

  /** The captured names, in scan order, duplicates included. */
  function ScanNames(s: string): (ns: seq<string>)
    ensures |ns| == |NameScan(s, 0)|
  {
    var ms := NameScan(s, 0);
    seq(|ms|, j requires 0 <= j < |ms| => ms[j].name)
  }

  /** `sorted(set(findall(...)))`: the sorted, duplicate-free captured names. */
  function SimpleNames(s: string): seq<string> {
    SortedUnique(ScanNames(s))
  }

  /** The names the scan captures are exactly the names whose literal marker occurs. */
  lemma ScanNamesMarked(s: string, n: string)
    ensures n in ScanNames(s) <==> Marked(s, n)
  {
    var ms := NameScan(s, 0);
    if n in ScanNames(s) {
      var j :| 0 <= j < |ms| && ms[j].name == n;
      NameAtIsLiteral(s, ms[j].start);
      var m := ms[j];
      if OccursAt(s, BraceLiteral(n), m.start) {
        assert Contains(s, BraceLiteral(n));
      } else {
        assert Contains(s, BracketLiteral(n));
      }
    }
    if Marked(s, n) {
      var p: nat;
      if Contains(s, BraceLiteral(n)) {
        p :| p <= |s| && OccursAt(s, BraceLiteral(n), p);
      } else {
        p :| p <= |s| && OccursAt(s, BracketLiteral(n), p);
      }
      LiteralIsNameAt(s, p, n);
      NameScanFinds(s, 0, p);
      var j :| 0 <= j < |ms| && ms[j] == NameAt(s, p).value;
      assert ScanNames(s)[j] == n;
    }
  }

  /** The loop both services run over the simple pattern's `findall`: each match's name goes
      into a set, and the set is returned sorted. */
  method ExtractNames(s: string) returns (names: seq<string>)
    ensures names == SimpleNames(s)
    ensures StrictlySorted(names)
    ensures forall n :: n in names <==> Marked(s, n)
  {
    var found := ScanNames(s);
    var acc: set<string> := {};
    var i := 0;
    while i < |found|
      invariant 0 <= i <= |found|
      invariant forall n :: n in acc <==> n in found[..i]
    {
      assert found[..i + 1] == found[..i] + [found[i]];
      acc := acc + {found[i]};
      i := i + 1;
    }
    assert found[..i] == found;
    names := Sorted(acc);
    SortedOfFound(s, acc, names);
  }

  /** A strictly sorted list of the captured names is the simple extraction. */
  lemma SortedOfFound(s: string, acc: set<string>, names: seq<string>)
    requires forall n :: n in acc <==> n in ScanNames(s)
    requires StrictlySorted(names) && forall n :: n in names <==> n in acc
    ensures names == SimpleNames(s)
    ensures forall n :: n in names <==> Marked(s, n)
  {
    SortedUniqueSpec(ScanNames(s));
    SortedUniqueness(names, SimpleNames(s));
    SimpleNamesSpec(s);
  }

  /** The simple extraction is sorted without duplicates and lists exactly the names
      whose literal `{{name}}` or `[name]` occurs in the text. */
  lemma SimpleNamesSpec(s: string)
    ensures StrictlySorted(SimpleNames(s))
    ensures forall n :: n in SimpleNames(s) <==> Marked(s, n)
  {
    SortedUniqueSpec(ScanNames(s));
    forall n ensures n in SimpleNames(s) <==> Marked(s, n) {
      ScanNamesMarked(s, n);
    }
  }

  /** The simple extraction is empty exactly when no marker of the simple pattern occurs. */
  lemma SimpleNamesEmpty(s: string)
    ensures SimpleNames(s) == [] <==> forall p: nat :: p <= |s| ==> NameAt(s, p).None?
  {
    SimpleNamesSpec(s);
    if SimpleNames(s) != [] {
      var n := SimpleNames(s)[0];
      assert Marked(s, n);
      var p: nat;
      if Contains(s, BraceLiteral(n)) {
        p :| p <= |s| && OccursAt(s, BraceLiteral(n), p);
      } else {
        p :| p <= |s| && OccursAt(s, BracketLiteral(n), p);
      }
      LiteralIsNameAt(s, p, n);
    }
    forall p: nat | p <= |s| && NameAt(s, p).Some? ensures SimpleNames(s) != [] {
      NameAtIsLiteral(s, p);
      var n := NameAt(s, p).value.name;
      if OccursAt(s, BraceLiteral(n), p) {
        assert Contains(s, BraceLiteral(n));
      } else {
        assert Contains(s, BracketLiteral(n));
      }
      assert n in SimpleNames(s);
    }
  }

}
