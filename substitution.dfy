/**
 * The template parser's sequential literal substitution of `{{name}}` and `[name]`
 * (`substitute_variables`), and what it does to the markers of a template.
 */
module Substitution {
  import opened Text
  import opened StringOrder
  import opened Markers
  import opened VariablePatterns

  /** One turn of the substitution loop: `{{k}}` and then `[k]` replaced by `v` everywhere. */
  function SubstituteOne(s: string, k: string, v: string): string {
    ReplaceAll(ReplaceAll(s, BraceLiteral(k), v), BracketLiteral(k), v)
  }

  /** The text after the substitution loop has handled the pairs of `values` in order. */
  function Substitute(s: string, values: seq<(string, string)>): string
    decreases |values|
  {
    if values == [] then s
    else
      var last := values[|values| - 1];
      SubstituteOne(Substitute(s, values[..|values| - 1]), last.0, last.1)
  }

  /** Keys none of whose literal markers occur leave the text as it is. */
  lemma {:induction false} SubstituteAbsent(s: string, values: seq<(string, string)>)
    requires forall i :: 0 <= i < |values| ==>
      !Contains(s, BraceLiteral(values[i].0)) && !Contains(s, BracketLiteral(values[i].0))
    ensures Substitute(s, values) == s
    decreases |values|
  {
    if values != [] {
      var last := values[|values| - 1];
      SubstituteAbsent(s, values[..|values| - 1]);
      ReplaceAllAbsent(s, BraceLiteral(last.0), last.1);
      ReplaceAllAbsent(s, BracketLiteral(last.0), last.1);
    }
  }

  /** The literal marker `{{n}}` (`brace`) or `[n]`. */
  function Literal(brace: bool, n: string): string {
    if brace then BraceLiteral(n) else BracketLiteral(n)
  }

  /** The four characters the markers are made of. */
  predicate IsDelim(c: char) { c == '{' || c == '}' || c == '[' || c == ']' }

  /** A text holding none of the marker characters. */
  predicate Plain(t: string) { forall j :: 0 <= j < |t| ==> !IsDelim(t[j]) }

  lemma NamePlain(n: string)
    requires IsName(n)
    ensures Plain(n)
  {
  }

  /** The layout of a literal marker: `o` opening characters, the name, `o` closing ones. */
  lemma LiteralLayout(brace: bool, n: string)
    ensures var l := Literal(brace, n); var o := if brace then 2 else 1;
      |l| == 2 * o + |n| &&
      (forall j :: 0 <= j < o ==> l[j] == (if brace then '{' else '[')) &&
      (forall j :: 0 <= j < |n| ==> l[o + j] == n[j]) &&
      (forall j :: o + |n| <= j < |l| ==> l[j] == (if brace then '}' else ']'))
  {
  }

  /** A literal marker of a plain name that starts strictly inside another never occurs there. */
  lemma LiteralsApartBefore(t: string, b1: bool, k: string, i: nat, b2: bool, n: string, p: nat)
    requires Plain(k) && Plain(n) && i < p < i + |Literal(b1, k)|
    ensures !(OccursAt(t, Literal(b1, k), i) && OccursAt(t, Literal(b2, n), p))
  {
    var K, W := Literal(b1, k), Literal(b2, n);
    LiteralLayout(b1, k);
    LiteralLayout(b2, n);
    var d := p - i;
    OccursAtChar(t, K, i, d);
    OccursAtChar(t, W, p, 0);
    if b1 && d == 1 && b2 {
      OccursAtChar(t, K, i, 2);
      OccursAtChar(t, W, p, 1);
      assert K[2] != '{' by { if |k| > 0 { assert K[2] == k[0]; } }
    }
  }

  /** Two different literal markers of plain names never occur at the same index. */
  lemma LiteralsApartSame(t: string, b1: bool, k: string, b2: bool, n: string, p: nat)
    requires Plain(k) && Plain(n) && (b1, k) != (b2, n)
    ensures !(OccursAt(t, Literal(b1, k), p) && OccursAt(t, Literal(b2, n), p))
  {
    var K, W := Literal(b1, k), Literal(b2, n);
    LiteralLayout(b1, k);
    LiteralLayout(b2, n);
    var o := if b1 then 2 else 1;
    if b1 != b2 {
      OccursAtChar(t, K, p, 0);
      OccursAtChar(t, W, p, 0);
    } else if |k| < |n| {
      OccursAtChar(t, K, p, o + |k|);
      OccursAtChar(t, W, p, o + |k|);
    } else if |k| > |n| {
      OccursAtChar(t, K, p, o + |n|);
      OccursAtChar(t, W, p, o + |n|);
    } else {
      assert K[o..o + |k|] == k && W[o..o + |n|] == n;
    }
  }

  /** Literal markers of plain names overlap only where they are the same marker. */
  lemma LiteralsApart(t: string, b1: bool, k: string, i: nat, b2: bool, n: string, p: nat)
    requires Plain(k) && Plain(n) && (i, b1, k) != (p, b2, n)
    requires i < p + |Literal(b2, n)| && p < i + |Literal(b1, k)|
    ensures !(OccursAt(t, Literal(b1, k), i) && OccursAt(t, Literal(b2, n), p))
  {
    if i < p {
      LiteralsApartBefore(t, b1, k, i, b2, n, p);
    } else if p < i {
      LiteralsApartBefore(t, b2, n, p, b1, k, i);
    } else {
      LiteralsApartSame(t, b1, k, b2, n, p);
    }
  }

  /** Replacing the literal marker of `k` carries an occurrence of another marker over verbatim;
      `q` is where it lands. */
  lemma ReplaceKeepsLiteral(s: string, b1: bool, k: string, v: string, b2: bool, n: string, p: nat)
    returns (q: nat)
    requires Plain(k) && Plain(n) && (b1, k) != (b2, n) && OccursAt(s, Literal(b2, n), p)
    ensures OccursAt(ReplaceAll(s, Literal(b1, k), v), Literal(b2, n), q)
  {
    var K, W := Literal(b1, k), Literal(b2, n);
    forall i: nat | i < p < i + |K| ensures !OccursAt(s, K, i) {
      LiteralsApart(s, b1, k, i, b2, n, p);
    }
    forall i: nat | i < p + |W| < i + |K| ensures !OccursAt(s, K, i) {
      LiteralsApart(s, b1, k, i, b2, n, p);
    }
    forall i: nat | i <= |W| ensures !OccursAt(W, K, i) {
      assert OccursAt(W, W, 0);
      if i < |W| {
        LiteralsApart(W, b1, k, i, b2, n, 0);
      }
    }
    ReplaceAllAround(s, K, v, W, p);
    OccursBetween(ReplaceAll(s[..p], K, v), W, ReplaceAll(s[p + |W|..], K, v));
    q := |ReplaceAll(s[..p], K, v)|;
  }

  /** One turn of the loop for a plain key other than `n` leaves `n` marked. */
  lemma SubstituteOneKeeps(t: string, k: string, v: string, n: string)
    requires Plain(k) && k != n && Marked(t, n)
    ensures Marked(SubstituteOne(t, k, v), n)
  {
    NamePlain(n);
    var b: bool, p: nat :| OccursAt(t, Literal(b, n), p);
    var q1 := ReplaceKeepsLiteral(t, true, k, v, b, n, p);
    var t1 := ReplaceAll(t, BraceLiteral(k), v);
    var q2 := ReplaceKeepsLiteral(t1, false, k, v, b, n, q1);
    assert OccursAt(SubstituteOne(t, k, v), Literal(b, n), q2);
  }

  /** `k` is one of the keys of `values`. */
  predicate IsKey(values: seq<(string, string)>, k: string) {
    exists i :: 0 <= i < |values| && values[i].0 == k
  }

  /** Substitution never removes the marker of a name that is not a key, whatever the values,
      as long as the keys hold no marker characters. */
  lemma {:induction false} SubstituteKeeps(s: string, values: seq<(string, string)>, n: string)
    requires forall i :: 0 <= i < |values| ==> Plain(values[i].0)
    requires Marked(s, n) && !IsKey(values, n)
    ensures Marked(Substitute(s, values), n)
    decreases |values|
  {
    if values != [] {
      var init, last := values[..|values| - 1], values[|values| - 1];
      assert forall i :: 0 <= i < |init| ==> init[i] == values[i];
      SubstituteKeeps(s, init, n);
      SubstituteOneKeeps(Substitute(s, init), last.0, last.1, n);
    }
  }

  /** A template read as a sequence of pieces: plain text, or the literal marker of a name. */
  datatype Piece = Chars(text: string) | Marker(brace: bool, name: string)

  function PieceText(q: Piece): string {
    match q
    case Chars(c) => c
    case Marker(b, n) => Literal(b, n)
  }

  function Render(ps: seq<Piece>): string
    decreases |ps|
  {
    if ps == [] then "" else PieceText(ps[0]) + Render(ps[1..])
  }

  /** Plain pieces hold no marker character and markers carry `\w+` names: every brace and
      bracket of the rendered text belongs to a marker. */
  predicate WellFormedPiece(q: Piece) {
    match q
    case Chars(c) => Plain(c)
    case Marker(_, n) => IsName(n)
  }

  predicate WellFormed(ps: seq<Piece>) {
    forall j :: 0 <= j < |ps| ==> WellFormedPiece(ps[j])
  }

  predicate HasMarker(ps: seq<Piece>, n: string) {
    exists j :: 0 <= j < |ps| && ps[j].Marker? && ps[j].name == n
  }

  /** A literal marker of a plain name that starts inside a piece is that piece, at its start. */
  lemma PieceStartsApart(q: Piece, rest: string, b: bool, k: string, i: nat)
    requires WellFormedPiece(q) && Plain(k) && i < |PieceText(q)|
    ensures OccursAt(PieceText(q) + rest, Literal(b, k), i) ==> q == Marker(b, k) && i == 0
  {
    var t := PieceText(q) + rest;
    LiteralLayout(b, k);
    match q
    case Chars(c) =>
      OccursAtChar(t, Literal(b, k), i, 0);
      assert t[i] == c[i];
    case Marker(b2, n) =>
      NamePlain(n);
      assert OccursAt(t, Literal(b2, n), 0) by { assert t[..|Literal(b2, n)|] == Literal(b2, n); }
      if (b2, n) != (b, k) || i != 0 {
        LiteralsApart(t, b, k, i, b2, n, 0);
      }
  }

  /** The pieces after every marker `Literal(b, k)` is replaced by the plain text `v`. */
  function Replaced(ps: seq<Piece>, b: bool, k: string, v: string): (r: seq<Piece>)
    ensures |r| == |ps|
  {
    seq(|ps|, j requires 0 <= j < |ps| => ReplacedPiece(ps[j], b, k, v))
  }

  function ReplacedPiece(q: Piece, b: bool, k: string, v: string): Piece {
    if q == Marker(b, k) then Chars(v) else q
  }

  lemma ReplacedCons(ps: seq<Piece>, b: bool, k: string, v: string)
    requires ps != []
    ensures Render(Replaced(ps, b, k, v))
         == PieceText(ReplacedPiece(ps[0], b, k, v)) + Render(Replaced(ps[1..], b, k, v))
  {
    var r := Replaced(ps, b, k, v);
    assert r[1..] == Replaced(ps[1..], b, k, v);
  }

  lemma WellFormedTail(ps: seq<Piece>)
    requires WellFormed(ps) && ps != []
    ensures WellFormedPiece(ps[0]) && WellFormed(ps[1..])
  {
    forall j | 0 <= j < |ps| - 1 ensures WellFormedPiece(ps[1..][j]) { assert ps[1..][j] == ps[j + 1]; }
  }

  /** `s.replace` of a marker literal works on the first piece and the rest separately, and
      turns the first piece into `v` exactly when it is that literal. */
  lemma ReplaceHead(q: Piece, rest: string, b: bool, k: string, v: string)
    requires WellFormedPiece(q) && Plain(k)
    ensures ReplaceAll(PieceText(q) + rest, Literal(b, k), v)
         == PieceText(ReplacedPiece(q, b, k, v)) + ReplaceAll(rest, Literal(b, k), v)
  {
    var K, h := Literal(b, k), PieceText(q);
    forall i: nat | i < |h| < i + |K| ensures !OccursAt(h + rest, K, i) {
      PieceStartsApart(q, rest, b, k, i);
    }
    ReplaceAllSplit(h, rest, K, v);
    ReplacePiece(q, b, k, v);
  }

  /** `s.replace` of a marker literal on a single piece. */
  lemma ReplacePiece(q: Piece, b: bool, k: string, v: string)
    requires WellFormedPiece(q) && Plain(k)
    ensures ReplaceAll(PieceText(q), Literal(b, k), v) == PieceText(ReplacedPiece(q, b, k, v))
  {
    var K, h := Literal(b, k), PieceText(q);
    if q == Marker(b, k) {
      assert K[..|K|] == K && K[|K|..] == [];
    } else {
      forall i: nat | i <= |h| ensures !OccursAt(h, K, i) {
        if i < |h| {
          PieceStartsApart(q, [], b, k, i);
          assert h + [] == h;
        }
      }
      ReplaceAllAbsent(h, K, v);
    }
  }

  /** `s.replace` of a marker literal on a well-formed template replaces exactly the marker
      pieces that are that literal. */
  lemma {:induction false} ReplacePieces(ps: seq<Piece>, b: bool, k: string, v: string)
    requires WellFormed(ps) && Plain(k)
    ensures ReplaceAll(Render(ps), Literal(b, k), v) == Render(Replaced(ps, b, k, v))
    decreases |ps|
  {
    if ps != [] {
      WellFormedTail(ps);
      ReplaceHead(ps[0], Render(ps[1..]), b, k, v);
      ReplacePieces(ps[1..], b, k, v);
      ReplacedCons(ps, b, k, v);
    }
  }

  /** One turn of the loop on pieces: both markers of `k` become the plain text `v`. */
  function SubstitutePiecesOne(ps: seq<Piece>, k: string, v: string): seq<Piece> {
    Replaced(Replaced(ps, true, k, v), false, k, v)
  }

  /** The pieces after the substitution loop has handled the pairs of `values` in order. */
  function SubstitutePieces(ps: seq<Piece>, values: seq<(string, string)>): seq<Piece>
    decreases |values|
  {
    if values == [] then ps
    else
      var last := values[|values| - 1];
      SubstitutePiecesOne(SubstitutePieces(ps, values[..|values| - 1]), last.0, last.1)
  }

  /** One turn keeps the pieces well formed when the value is plain, and removes exactly the
      markers of `k`. */
  lemma SubstitutePiecesOneSpec(ps: seq<Piece>, k: string, v: string)
    requires WellFormed(ps) && Plain(k) && Plain(v)
    ensures Render(SubstitutePiecesOne(ps, k, v)) == SubstituteOne(Render(ps), k, v)
    ensures WellFormed(SubstitutePiecesOne(ps, k, v))
    ensures forall n :: HasMarker(SubstitutePiecesOne(ps, k, v), n) <==> HasMarker(ps, n) && n != k
  {
    var ps1 := Replaced(ps, true, k, v);
    ReplacePieces(ps, true, k, v);
    assert WellFormed(ps1) by {
      forall j | 0 <= j < |ps1| ensures WellFormedPiece(ps1[j]) { assert WellFormedPiece(ps[j]); }
    }
    ReplacePieces(ps1, false, k, v);
    var ps2 := Replaced(ps1, false, k, v);
    assert forall j :: 0 <= j < |ps| ==>
      ps2[j] == (if ps[j].Marker? && ps[j].name == k then Chars(v) else ps[j]);
    forall n ensures HasMarker(ps2, n) <==> HasMarker(ps, n) && n != k {
      if HasMarker(ps2, n) {
        var j :| 0 <= j < |ps2| && ps2[j].Marker? && ps2[j].name == n;
        assert ps[j] == ps2[j];
      }
      if HasMarker(ps, n) && n != k {
        var j :| 0 <= j < |ps| && ps[j].Marker? && ps[j].name == n;
        assert ps2[j] == ps[j];
      }
    }
  }

  /** The substitution loop on the rendered template is the loop on its pieces. */
  lemma {:induction false} SubstitutePiecesSpec(ps: seq<Piece>, values: seq<(string, string)>)
    requires WellFormed(ps)
    requires forall i :: 0 <= i < |values| ==> Plain(values[i].0) && Plain(values[i].1)
    ensures Render(SubstitutePieces(ps, values)) == Substitute(Render(ps), values)
    ensures WellFormed(SubstitutePieces(ps, values))
    ensures forall n :: HasMarker(SubstitutePieces(ps, values), n) <==> HasMarker(ps, n) && !IsKey(values, n)
    decreases |values|
  {
    if values != [] {
      var init, last := values[..|values| - 1], values[|values| - 1];
      assert forall i :: 0 <= i < |init| ==> init[i] == values[i];
      SubstitutePiecesSpec(ps, init);
      SubstitutePiecesOneSpec(SubstitutePieces(ps, init), last.0, last.1);
      forall n ensures IsKey(values, n) <==> IsKey(init, n) || last.0 == n {
        IsKeyInit(values, n);
      }
    }
  }

  lemma IsKeyInit(values: seq<(string, string)>, n: string)
    requires values != []
    ensures IsKey(values, n) <==> IsKey(values[..|values| - 1], n) || values[|values| - 1].0 == n
  {
    var init := values[..|values| - 1];
    if IsKey(values, n) {
      var i :| 0 <= i < |values| && values[i].0 == n;
      if i < |init| { assert init[i].0 == n; }
    }
    if IsKey(init, n) {
      var i :| 0 <= i < |init| && init[i].0 == n;
      assert values[i].0 == n;
    }
  }

  lemma HasMarkerCons(ps: seq<Piece>, n: string)
    requires ps != []
    ensures HasMarker(ps, n) <==> (ps[0].Marker? && ps[0].name == n) || HasMarker(ps[1..], n)
  {
    if HasMarker(ps, n) && !(ps[0].Marker? && ps[0].name == n) {
      var j :| 0 <= j < |ps| && ps[j].Marker? && ps[j].name == n;
      assert ps[1..][j - 1] == ps[j];
    }
    if HasMarker(ps[1..], n) {
      var j :| 0 <= j < |ps| - 1 && ps[1..][j].Marker? && ps[1..][j].name == n;
      assert ps[j + 1] == ps[1..][j];
    }
  }

  /** A name is marked in a piece followed by a text exactly when the piece is its marker or
      the text marks it. */
  lemma MarkedHead(q: Piece, rest: string, n: string)
    requires WellFormedPiece(q)
    ensures Marked(PieceText(q) + rest, n) <==> (q.Marker? && q.name == n) || Marked(rest, n)
  {
    var h := PieceText(q);
    var t := h + rest;
    assert t[|h|..] == rest;
    if Marked(t, n) {
      NamePlain(n);
      var b: bool, p: nat :| OccursAt(t, Literal(b, n), p);
      if p < |h| {
        PieceStartsApart(q, rest, b, n, p);
      } else {
        OccursAtSuffix(t, |h|, Literal(b, n), p - |h|);
      }
    }
    if q.Marker? && q.name == n {
      assert OccursAt(t, Literal(q.brace, n), 0) by { assert t[..|h|] == h; }
    }
    if Marked(rest, n) {
      var b: bool, p: nat :| OccursAt(rest, Literal(b, n), p);
      OccursAtSuffix(t, |h|, Literal(b, n), p);
    }
  }

  /** In a well-formed template the names marked are exactly the names of its marker pieces. */
  lemma {:induction false} RenderMarked(ps: seq<Piece>, n: string)
    requires WellFormed(ps)
    ensures Marked(Render(ps), n) <==> HasMarker(ps, n)
    decreases |ps|
  {
    if ps != [] {
      WellFormedTail(ps);
      MarkedHead(ps[0], Render(ps[1..]), n);
      HasMarkerCons(ps, n);
      RenderMarked(ps[1..], n);
    }
  }

  /** Substituting into a well-formed template with plain keys and plain values leaves marked
      exactly the names that were marked and are not keys. */
  lemma SubstituteWellFormed(ps: seq<Piece>, values: seq<(string, string)>, n: string)
    requires WellFormed(ps)
    requires forall i :: 0 <= i < |values| ==> Plain(values[i].0) && Plain(values[i].1)
    ensures Marked(Substitute(Render(ps), values), n) <==> Marked(Render(ps), n) && !IsKey(values, n)
  {
    SubstitutePiecesSpec(ps, values);
    RenderMarked(ps, n);
    RenderMarked(SubstitutePieces(ps, values), n);
  }

  /** The brace literal of a name never occurs in a defaulted brace marker `{{n:d}}`
      whose default holds no brace, so its replacement leaves that marker alone. */
  lemma BraceLiteralMissesDefaulted(n: string, d: string, k: string, v: string)
    requires IsName(n) && IsName(k)
    requires '{' !in d && '}' !in d
    ensures ReplaceAll("{{" + n + ":" + d + "}}", BraceLiteral(k), v) == "{{" + n + ":" + d + "}}"
  {
    var t := "{{" + n + ":" + d + "}}";
    var lit := BraceLiteral(k);
    assert forall j :: 2 <= j < 2 + |n| ==> t[j] == n[j - 2];
    assert t[2 + |n|] == ':';
    assert forall j :: 3 + |n| <= j < 3 + |n| + |d| ==> t[j] == d[j - 3 - |n|];
    assert forall j :: 3 + |n| + |d| <= j < |t| ==> t[j] == '}';
    forall i: nat | i <= |t| ensures !OccursAt(t, lit, i) {
      if i + |lit| <= |t| {
        var w := t[i..i + |lit|];
        if i == 0 {
          var j := 2 + |k|;
          if |k| < |n| {
            assert w[j] == t[j] == n[|k|];
            assert w[j] != lit[j];
          } else if |k| == |n| {
            assert w[j] == t[j] == ':';
            assert w[j] != lit[j];
          } else {
            assert w[2 + |n|] == ':';
            assert lit[2 + |n|] == k[|n|];
            assert w[2 + |n|] != lit[2 + |n|];
          }
        } else {
          assert w[1] == t[i + 1] != '{';
          assert w[1] != lit[1];
        }
      }
    }
    ReplaceAllAbsent(t, lit, v);
  }

  /** After the loop, the names `find_unreplaced_variables` reports are exactly the names the
      template marked that are not keys. */
  lemma UnreplacedAfterSubstitute(ps: seq<Piece>, values: seq<(string, string)>)
    requires WellFormed(ps)
    requires forall i :: 0 <= i < |values| ==> Plain(values[i].0) && Plain(values[i].1)
    ensures forall n :: n in SimpleNames(Substitute(Render(ps), values))
                   <==> n in SimpleNames(Render(ps)) && !IsKey(values, n)
  {
    SimpleNamesSpec(Substitute(Render(ps), values));
    SimpleNamesSpec(Render(ps));
    forall n ensures Marked(Substitute(Render(ps), values), n) <==> Marked(Render(ps), n) && !IsKey(values, n) {
      SubstituteWellFormed(ps, values, n);
    }
  }

  /** Round trip: values for every extracted name leave nothing unreplaced. */
  lemma RoundTrip(ps: seq<Piece>, values: seq<(string, string)>)
    requires WellFormed(ps)
    requires forall i :: 0 <= i < |values| ==> Plain(values[i].0) && Plain(values[i].1)
    requires forall n :: n in SimpleNames(Render(ps)) ==> IsKey(values, n)
    ensures SimpleNames(Substitute(Render(ps), values)) == []
  {
    var r := Substitute(Render(ps), values);
    UnreplacedAfterSubstitute(ps, values);
    SimpleNamesSpec(r);
    SortedUniqueness(SimpleNames(r), []);
  }

  lemma RenderCons(q: Piece, rest: seq<Piece>)
    ensures Render([q] + rest) == PieceText(q) + Render(rest)
  {
    assert ([q] + rest)[1..] == rest;
  }

  /** Five pieces render as their texts one after the other. */
  lemma RenderFive(q0: Piece, q1: Piece, q2: Piece, q3: Piece, q4: Piece)
    ensures Render([q0, q1, q2, q3, q4])
         == PieceText(q0) + (PieceText(q1) + (PieceText(q2) + (PieceText(q3) + PieceText(q4))))
  {
    RenderFour(q1, q2, q3, q4);
    assert [q0, q1, q2, q3, q4][1..] == [q1, q2, q3, q4];
    RenderStep([q0, q1, q2, q3, q4], PieceText(q1) + (PieceText(q2) + (PieceText(q3) + PieceText(q4))));
  }

  lemma RenderFour(q1: Piece, q2: Piece, q3: Piece, q4: Piece)
    ensures Render([q1, q2, q3, q4]) == PieceText(q1) + (PieceText(q2) + (PieceText(q3) + PieceText(q4)))
  {
    RenderThree(q2, q3, q4);
    assert [q1, q2, q3, q4][1..] == [q2, q3, q4];
    RenderStep([q1, q2, q3, q4], PieceText(q2) + (PieceText(q3) + PieceText(q4)));
  }

  lemma RenderThree(q2: Piece, q3: Piece, q4: Piece)
    ensures Render([q2, q3, q4]) == PieceText(q2) + (PieceText(q3) + PieceText(q4))
  {
    RenderStep([q4], "");
    assert [q3, q4][1..] == [q4];
    RenderStep([q3, q4], PieceText(q4));
    assert [q2, q3, q4][1..] == [q3, q4];
    RenderStep([q2, q3, q4], PieceText(q3) + PieceText(q4));
  }

  lemma RenderStep(ps: seq<Piece>, t: string)
    requires ps != [] && Render(ps[1..]) == t
    ensures Render(ps) == PieceText(ps[0]) + t
  {
  }

  /** The template `a{{x}}b{{y}}c` with plain texts `a`, `b`, `c`, read as pieces. */
  lemma TwoMarkers(a: string, x: string, b: string, y: string, c: string) returns (ps: seq<Piece>)
    requires Plain(a) && Plain(b) && Plain(c) && IsName(x) && IsName(y)
    ensures ps == [Chars(a), Marker(true, x), Chars(b), Marker(true, y), Chars(c)]
    ensures Render(ps) == a + (BraceLiteral(x) + (b + (BraceLiteral(y) + c))) && WellFormed(ps)
    ensures forall n :: HasMarker(ps, n) <==> n == x || n == y
  {
    ps := [Chars(a), Marker(true, x), Chars(b), Marker(true, y), Chars(c)];
    RenderFive(Chars(a), Marker(true, x), Chars(b), Marker(true, y), Chars(c));
    forall n ensures HasMarker(ps, n) <==> n == x || n == y {
      if n == x { assert ps[1].Marker? && ps[1].name == n; }
      if n == y { assert ps[3].Marker? && ps[3].name == n; }
    }
  }

  /** Two pairs of values are handled first the one, then the other. */
  lemma SubstituteTwo(s: string, x: string, v: string, y: string, w: string)
    ensures Substitute(s, [(x, v), (y, w)]) == SubstituteOne(SubstituteOne(s, x, v), y, w)
  {
    assert [(x, v), (y, w)][..1] == [(x, v)] && [(x, v)][..0] == [];
    assert Substitute(s, [(x, v)]) == SubstituteOne(Substitute(s, []), x, v);
  }

  /** Replacing `x` in `a{{x}}b{{y}}c` leaves the marker of `y`. */
  lemma FillFirst(a: string, x: string, b: string, y: string, c: string, v: string)
    requires x != y
    ensures SubstitutePiecesOne([Chars(a), Marker(true, x), Chars(b), Marker(true, y), Chars(c)], x, v)
         == [Chars(a), Chars(v), Chars(b), Marker(true, y), Chars(c)]
  {
    var r1 := Replaced([Chars(a), Marker(true, x), Chars(b), Marker(true, y), Chars(c)], true, x, v);
    assert r1 == [Chars(a), Chars(v), Chars(b), Marker(true, y), Chars(c)];
    assert Replaced(r1, false, x, v) == r1;
  }

  /** Replacing `y` then fills in the last marker. */
  lemma FillSecond(a: string, b: string, y: string, c: string, v: string, w: string)
    ensures SubstitutePiecesOne([Chars(a), Chars(v), Chars(b), Marker(true, y), Chars(c)], y, w)
         == [Chars(a), Chars(v), Chars(b), Chars(w), Chars(c)]
  {
    var r1 := Replaced([Chars(a), Chars(v), Chars(b), Marker(true, y), Chars(c)], true, y, w);
    assert r1 == [Chars(a), Chars(v), Chars(b), Chars(w), Chars(c)];
    assert Replaced(r1, false, y, w) == r1;
  }

  /** Values for both names of `a{{x}}b{{y}}c` fill them in. */
  lemma TwoMarkersFilled(a: string, x: string, b: string, y: string, c: string, v: string, w: string)
    requires Plain(a) && Plain(b) && Plain(c) && IsName(x) && IsName(y) && x != y
    requires Plain(v) && Plain(w)
    ensures Substitute(a + (BraceLiteral(x) + (b + (BraceLiteral(y) + c))), [(x, v), (y, w)]) == a + (v + (b + (w + c)))
  {
    var ps := TwoMarkers(a, x, b, y, c);
    NamePlain(x);
    NamePlain(y);
    SubstituteTwo(Render(ps), x, v, y, w);
    SubstitutePiecesOneSpec(ps, x, v);
    FillFirst(a, x, b, y, c, v);
    var ps1 := [Chars(a), Chars(v), Chars(b), Marker(true, y), Chars(c)];
    SubstitutePiecesOneSpec(ps1, y, w);
    FillSecond(a, b, y, c, v, w);
    RenderFive(Chars(a), Chars(v), Chars(b), Chars(w), Chars(c));
  }

  /** Text without any brace or bracket holds no literal marker. */
  lemma PlainUnmarked(t: string)
    requires Plain(t)
    ensures SimpleNames(t) == []
  {
    RenderStep([Chars(t)], "");
    SimpleNamesSpec(t);
    forall n ensures n !in SimpleNames(t) {
      RenderMarked([Chars(t)], n);
    }
    SortedUniqueness(SimpleNames(t), []);
  }

  lemma PlainJoin(a: string, b: string)
    requires Plain(a) && Plain(b)
    ensures Plain(a + b)
  {
    forall j | 0 <= j < |a + b| ensures !IsDelim((a + b)[j]) {
      if j < |a| { assert (a + b)[j] == a[j]; } else { assert (a + b)[j] == b[j - |a|]; }
    }
  }

  /** Replacing `x` in `a{{x}}b{{y}}c` leaves exactly `y` unreplaced. */
  lemma TwoMarkersPartial(a: string, x: string, b: string, y: string, c: string, v: string)
    requires Plain(a) && Plain(b) && Plain(c) && IsName(x) && IsName(y) && x != y && Plain(v)
    ensures SimpleNames(Substitute(a + (BraceLiteral(x) + (b + (BraceLiteral(y) + c))), [(x, v)])) == [y]
  {
    var values := [(x, v)];
    var ps := TwoMarkers(a, x, b, y, c);
    NamePlain(x);
    assert forall i :: 0 <= i < |values| ==> Plain(values[i].0) && Plain(values[i].1);
    var r := Substitute(Render(ps), values);
    forall n ensures Marked(r, n) <==> n == y {
      SubstituteWellFormed(ps, values, n);
      RenderMarked(ps, n);
      assert IsKey(values, n) <==> n == x by {
        if n == x { assert values[0].0 == n; }
      }
    }
    SimpleNamesSpec(r);
    assert forall n :: n in SimpleNames(r) <==> n in [y];
    SortedUniqueness(SimpleNames(r), [y]);
  }

  lemma SubstituteExampleParts()
    ensures Plain("Hello ") && Plain(", you work at ") && Plain(".") && Plain("Alice") && Plain("ACME")
    ensures IsName("name") && IsName("company") && "name" != "company"
  {
    assert "name"[0] != "company"[0];
  }

  lemma SubstituteExampleTemplate()
    ensures "Hello {{name}}, you work at {{company}}."
         == "Hello " + (BraceLiteral("name") + (", you work at " + (BraceLiteral("company") + ".")))
  {
  }

  lemma SubstituteExampleResult()
    ensures "Hello Alice, you work at ACME." == "Hello " + ("Alice" + (", you work at " + ("ACME" + ".")))
  {
  }

  /** The substitution example of the test suite: both names replaced, none left. */
  lemma SubstituteExample()
    ensures Substitute("Hello {{name}}, you work at {{company}}.", [("name", "Alice"), ("company", "ACME")])
         == "Hello Alice, you work at ACME."
    ensures SimpleNames("Hello Alice, you work at ACME.") == []
  {
    SubstituteExampleParts();
    SubstituteExampleTemplate();
    SubstituteExampleResult();
    TwoMarkersFilled("Hello ", "name", ", you work at ", "company", ".", "Alice", "ACME");
    PlainJoin("ACME", ".");
    PlainJoin(", you work at ", "ACME" + ".");
    PlainJoin("Alice", ", you work at " + ("ACME" + "."));
    PlainJoin("Hello ", "Alice" + (", you work at " + ("ACME" + ".")));
    PlainUnmarked("Hello " + ("Alice" + (", you work at " + ("ACME" + "."))));
  }

  lemma PartialExampleParts()
    ensures Plain("Hello ") && Plain(", ") && Plain("!") && Plain("Alice")
    ensures IsName("name") && IsName("greeting") && "name" != "greeting"
  {
    assert "name"[0] != "greeting"[0];
  }

  lemma PartialExampleTemplate()
    ensures "Hello {{name}}, {{greeting}}!" == "Hello " + (BraceLiteral("name") + (", " + (BraceLiteral("greeting") + "!")))
  {
  }

  /** The partial substitution example of the test suite: only `greeting` is left. */
  lemma PartialSubstituteExample()
    ensures SimpleNames(Substitute("Hello {{name}}, {{greeting}}!", [("name", "Alice")])) == ["greeting"]
  {
    PartialExampleParts();
    PartialExampleTemplate();
    TwoMarkersPartial("Hello ", "name", ", ", "greeting", "!", "Alice");
  }

  /** A single brace marker holds exactly its own name. */
  lemma OneMarker(x: string)
    requires IsName(x)
    ensures SimpleNames(BraceLiteral(x)) == [x]
  {
    var ps := [Marker(true, x)];
    RenderStep(ps, "");
    assert Render(ps) == BraceLiteral(x) && WellFormed(ps);
    SimpleNamesSpec(BraceLiteral(x));
    forall n ensures n in SimpleNames(BraceLiteral(x)) <==> n in [x] {
      RenderMarked(ps, n);
      if n == x { assert ps[0].name == n; }
    }
    SortedUniqueness(SimpleNames(BraceLiteral(x)), [x]);
  }

  /** Substituting `x` for `x` in `{{{{x}}}}` leaves `{{x}}`. */
  lemma NestedStep(x: string)
    requires IsName(x)
    ensures Substitute("{{" + BraceLiteral(x) + "}}", [(x, x)]) == BraceLiteral(x)
  {
    var s := "{{" + BraceLiteral(x) + "}}";
    NestedBrace(x);
    NestedBracket(x);
    assert [(x, x)][..0] == [];
    assert Substitute(s, [(x, x)]) == SubstituteOne(Substitute(s, []), x, x);
  }

  lemma NestedBrace(x: string)
    requires IsName(x)
    ensures ReplaceAll("{{" + BraceLiteral(x) + "}}", BraceLiteral(x), x) == BraceLiteral(x)
  {
    var pat := BraceLiteral(x);
    NestedApart(x);
    ReplaceAllSplit("{{", pat + "}}", pat, x);
    assert (pat + "}}")[..|pat|] == pat && (pat + "}}")[|pat|..] == "}}";
    assert ReplaceAll(pat + "}}", pat, x) == x + ReplaceAll("}}", pat, x);
    assert ReplaceAll("}}", pat, x) == "}}" && ReplaceAll("{{", pat, x) == "{{";
  }

  lemma NestedApart(x: string)
    requires IsName(x)
    ensures "{{" + BraceLiteral(x) + "}}" == "{{" + (BraceLiteral(x) + "}}")
    ensures NoneAcross("{{" + BraceLiteral(x) + "}}", BraceLiteral(x), 2)
  {
    var pat := BraceLiteral(x);
    var s := "{{" + pat + "}}";
    LiteralLayout(true, x);
    forall i: nat | i < 2 < i + |pat| ensures !OccursAt(s, pat, i) {
      OccursAtChar(s, pat, i, 2 - i);
      assert s[2] == '{' && pat[2] == x[0];
    }
  }

  lemma NestedBracket(x: string)
    requires IsName(x)
    ensures ReplaceAll(BraceLiteral(x), BracketLiteral(x), x) == BraceLiteral(x)
  {
    var pat := BraceLiteral(x);
    LiteralLayout(true, x);
    forall i: nat | i <= |pat| ensures !OccursAt(pat, BracketLiteral(x), i) {
      OccursAtChar(pat, BracketLiteral(x), i, 0);
    }
    ReplaceAllAbsent(pat, BracketLiteral(x), x);
  }

  /** In `{{{{k}}}}` only `k` is marked. */
  lemma NestedMarked()
    ensures forall n :: Marked("{{{{k}}}}", n) <==> n == "k"
  {
    var s := "{{{{k}}}}";
    assert forall i :: 0 <= i < |s| && i != 4 ==> s[i] == '{' || s[i] == '}';
    forall n, p: nat ensures !OccursAt(s, BracketLiteral(n), p) {
      OccursAtChar(s, BracketLiteral(n), p, 0);
    }
    forall n, p: nat | IsName(n) ensures OccursAt(s, BraceLiteral(n), p) ==> n == "k" {
      LiteralLayout(true, n);
      OccursAtChar(s, BraceLiteral(n), p, 2);
      if |n| >= 2 { OccursAtChar(s, BraceLiteral(n), p, 3); }
    }
    assert OccursAt(s, BraceLiteral("k"), 2);
  }

  /** Values for every extracted name can still leave a marker: in `{{{{k}}}}` only `k` is
      marked, and replacing `{{k}}` by `k` joins the braces around it into a new `{{k}}`. */
  lemma NestedMarkerRecreated()
    ensures forall n :: Marked("{{{{k}}}}", n) <==> n == "k"
    ensures Substitute("{{{{k}}}}", [("k", "k")]) == "{{k}}"
    ensures SimpleNames(Substitute("{{{{k}}}}", [("k", "k")])) == ["k"]
  {
    NestedMarked();
    assert IsName("k");
    assert "{{{{k}}}}" == "{{" + BraceLiteral("k") + "}}" && "{{k}}" == BraceLiteral("k");
    NestedStep("k");
    OneMarker("k");
  }

  /** A default may hold `{`: `{{a:{{k}}` is a defaulted brace marker, and replacing `{{k}}`
      changes it. */
  lemma BraceLiteralInDefault()
    ensures IsMarkerText("{{a:{{k}}", BraceOpen, BraceClose)
    ensures ReplaceAll("{{a:{{k}}", BraceLiteral("k"), "v") == "{{a:v"
  {
    var s := "{{a:{{k}}";
    var g := s[2..7];
    assert g == "a:{{k";
    assert WordEnd(g, 0) == 1 by { assert IsWordChar(g[0]) && !IsWordChar(g[1]); }
    var pat := BraceLiteral("k");
    assert s == "{{a:" + "{{k}}";
    forall i: nat | i < 4 < i + |pat| ensures !OccursAt(s, pat, i) {
      OccursAtChar(s, pat, i, 2);
      OccursAtChar(s, pat, i, 1);
    }
    ReplaceAllSplit("{{a:", "{{k}}", pat, "v");
    assert ReplaceAll(pat, pat, "v") == "v" by { assert pat[..|pat|] == pat && pat[|pat|..] == []; }
  }

}
