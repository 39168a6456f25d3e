/**
 * The template parser service: variable markers with defaults, the fixed policy headings,
 * the required-heading check, the template report, sequential substitution and the
 * markers left over after it.
 */
module TemplateParser {
  import opened Wrappers
  import opened Text
  import opened StringOrder
  import opened Markers
  import opened Substitution
  import opened VariablePatterns

  const RequiredSections: seq<string> := ["## Your Role", "## Input", "## Output Requirements"]

  const OptionalSections: seq<string> :=
    ["## Context", "## Constraints", "## Examples", "## Step-by-Step Instructions",
     "## Success Criteria", "## Notes"]

  const AllSections: seq<string> := RequiredSections + OptionalSections

  datatype Syntax = DoubleBrace | SingleBracket

  /** One marker occurrence; the positions are those of the whole marker. */
  datatype TemplateVariable =
    TemplateVariable(name: string, syntax: Syntax, startPos: nat, endPos: nat, defaultValue: Option<string>)

  /** A `{{...}}` match: the name is the group up to its first `:`, and the default is the piece
      between the first and the second `:` (`group(1).split(':')[1]`). */
  function BraceVariable(m: MarkerMatch): TemplateVariable {
    TemplateVariable(SplitOn(m.group, ':')[0], DoubleBrace, m.start, m.end, DefaultOf(m.group))
  }

  /** `group(1).split(':')[1] if ':' in group(1) else None` */
  function DefaultOf(g: string): Option<string> {
    if ':' in g then SplitOnSecond(g, ':'); Some(SplitOn(g, ':')[1]) else None
  }

  /** A `[...]` match: the name is the whole group, default included, and there is no default. */
  function BracketVariable(m: MarkerMatch): TemplateVariable {
    TemplateVariable(m.group, SingleBracket, m.start, m.end, None)
  }

  function BraceVariables(s: string): (vs: seq<TemplateVariable>)
    ensures |vs| == |BraceMatches(s)|
  {
    var ms := BraceMatches(s);
    seq(|ms|, j requires 0 <= j < |ms| => BraceVariable(ms[j]))
  }

  function BracketVariables(s: string): (vs: seq<TemplateVariable>)
    ensures |vs| == |BracketMatches(s)|
  {
    var ms := BracketMatches(s);
    seq(|ms|, j requires 0 <= j < |ms| => BracketVariable(ms[j]))
  }

  /** Every occurrence of either syntax: all brace occurrences, then all bracket occurrences. */
  function Occurrences(s: string): seq<TemplateVariable> {
    BraceVariables(s) + BracketVariables(s)
  }

  lemma MarkerScanIncreasing(s: string, i: nat, open: string, close: string)
    requires i <= |s| && |close| > 0
    ensures var ms := MarkerScan(s, i, open, close);
      forall j, k :: 0 <= j < k < |ms| ==> ms[j].start < ms[k].start
  {
    var ms := MarkerScan(s, i, open, close);
    forall j, k | 0 <= j < k < |ms| ensures ms[j].start < ms[k].start {
      assert ms[j].start < ms[j].end <= ms[k].start;
    }
  }

  /** Within each syntax the occurrences have strictly increasing start positions. */
  lemma VariablesIncreasing(s: string)
    ensures var bs := BraceVariables(s);
      forall j, k :: 0 <= j < k < |bs| ==> bs[j].startPos < bs[k].startPos
    ensures var bs := BracketVariables(s);
      forall j, k :: 0 <= j < k < |bs| ==> bs[j].startPos < bs[k].startPos
  {
    MarkerScanIncreasing(s, 0, BraceOpen, BraceClose);
    MarkerScanIncreasing(s, 0, BracketOpen, BracketClose);
  }

  /** An occurrence that starts after all those listed, or has another syntax than all of them,
      is not yet listed. */
  lemma NotListed(vs: seq<TemplateVariable>, v: TemplateVariable)
    requires forall j :: 0 <= j < |vs| ==> vs[j].startPos < v.startPos || vs[j].syntax != v.syntax
    ensures v !in vs
  {
  }

  /** `extract_variables`: the two `finditer` loops, each appending an occurrence not yet
      listed. No occurrence repeats, so nothing is dropped. */
  method ExtractVariables(content: string) returns (variables: seq<TemplateVariable>)
    ensures variables == Occurrences(content)
  {
    variables := [];
    var braces := BraceMatches(content);
    ghost var braceVars := BraceVariables(content);
    VariablesIncreasing(content);
    var i := 0;
    while i < |braces|
      invariant 0 <= i <= |braces|
      invariant variables == braceVars[..i]
    {
      var v := BraceVariable(braces[i]);
      NotListed(variables, v);
      if v !in variables {
        variables := variables + [v];
      }
      assert braceVars[..i + 1] == braceVars[..i] + [v];
      i := i + 1;
    }
    assert variables == braceVars;
    var brackets := BracketMatches(content);
    ghost var bracketVars := BracketVariables(content);
    i := 0;
    while i < |brackets|
      invariant 0 <= i <= |brackets|
      invariant variables == braceVars + bracketVars[..i]
    {
      var v := BracketVariable(brackets[i]);
      NotListed(variables, v);
      if v !in variables {
        variables := variables + [v];
      }
      assert bracketVars[..i + 1] == bracketVars[..i] + [v];
      i := i + 1;
    }
    assert bracketVars[..i] == bracketVars;
  }

  /** Brace occurrences come first; within each syntax the start positions strictly increase. */
  lemma OccurrencesOrdered(s: string)
    ensures var vs := Occurrences(s);
      forall i, j :: 0 <= i < j < |vs| ==>
        (vs[i].syntax == SingleBracket ==> vs[j].syntax == SingleBracket)
        && (vs[i].syntax == vs[j].syntax ==> vs[i].startPos < vs[j].startPos)
  {
    MarkerScanIncreasing(s, 0, BraceOpen, BraceClose);
    MarkerScanIncreasing(s, 0, BracketOpen, BracketClose);
    var b := |BraceVariables(s)|;
    var vs := Occurrences(s);
    forall i | 0 <= i < |vs| ensures vs[i].syntax == DoubleBrace <==> i < b {
      if i < b { assert vs[i] == BraceVariables(s)[i]; }
      else { assert vs[i] == BracketVariables(s)[i - b]; }
    }
  }

  /** The name and default read off the text `g` between the braces of a marker, by
      position: the name is `g` up to its first `:` and is a `\w+` run; there is a default
      exactly when `g` holds a `:`, and it runs from there to the next `:` or the end. */
  predicate NameAndDefault(g: string, name: string, default: Option<string>) {
    var i := FirstFrom(g, 0, ':');
    IsName(name) && name == g[..i]
    && default == (if i == |g| then None else Some(g[i + 1..FirstFrom(g, i + 1, ':')]))
  }

  /** The fields of a brace occurrence `v` in `s`: `content[start_pos:end_pos]` is the whole
      marker, and the name and default are those of the text between the braces. */
  predicate BraceFields(s: string, v: TemplateVariable) {
    v.syntax == DoubleBrace && v.startPos + 4 <= v.endPos <= |s|
    && IsMarkerText(s[v.startPos..v.endPos], BraceOpen, BraceClose)
    && NameAndDefault(s[v.startPos + 2..v.endPos - 2], v.name, v.defaultValue)
  }

  /** The `j`-th brace occurrence has the fields of its marker. */
  lemma BraceOccurrence(s: string, j: nat)
    requires j < |BraceVariables(s)|
    ensures BraceFields(s, BraceVariables(s)[j])
  {
    var m := BraceMatches(s)[j];
    assert BraceVariables(s)[j] == BraceVariable(m);
    MarkerScanFound(s, 0, BraceOpen, BraceClose, j);
    BraceMatchFields(s, m);
  }

  lemma BraceMatchFields(s: string, m: MarkerMatch)
    requires m.start <= |s| && MarkerAt(s, m.start, BraceOpen, BraceClose) == Some(m)
    ensures BraceFields(s, BraceVariable(m))
  {
    MarkerAtSound(s, m.start, BraceOpen, BraceClose);
    assert |BraceOpen| == 2 && |BraceClose| == 2;
    BraceGroupFields(m.group);
  }

  /** What `split(':')` makes of the text inside a brace marker. */
  lemma BraceGroupFields(g: string)
    requires IsGroup(g, '}')
    ensures NameAndDefault(g, SplitOn(g, ':')[0], DefaultOf(g))
  {
    FirstFromIs(g, 0, WordEnd(g, 0), ':');
    SplitOnHead(g, ':');
    if FirstFrom(g, 0, ':') < |g| {
      SplitOnSecond(g, ':');
    }
  }

  /** The fields of a bracket occurrence `v` in `s`: `content[start_pos:end_pos]` is the whole
      marker; the name is the whole text between the brackets, so a `:default` stays part of
      the name; there is never a default. */
  predicate BracketFields(s: string, v: TemplateVariable) {
    v.syntax == SingleBracket && v.startPos + 2 <= v.endPos <= |s|
    && IsMarkerText(s[v.startPos..v.endPos], BracketOpen, BracketClose)
    && v.name == s[v.startPos + 1..v.endPos - 1] && v.defaultValue == None
  }

  /** The `j`-th bracket occurrence has the fields of its marker. */
  lemma BracketOccurrence(s: string, j: nat)
    requires j < |BracketVariables(s)|
    ensures BracketFields(s, BracketVariables(s)[j])
  {
    var m := BracketMatches(s)[j];
    assert BracketVariables(s)[j] == BracketVariable(m);
    MarkerScanFound(s, 0, BracketOpen, BracketClose, j);
    BracketMatchFields(s, m);
  }

  lemma BracketMatchFields(s: string, m: MarkerMatch)
    requires m.start <= |s| && MarkerAt(s, m.start, BracketOpen, BracketClose) == Some(m)
    ensures BracketFields(s, BracketVariable(m))
  {
    MarkerAtSound(s, m.start, BracketOpen, BracketClose);
    assert |BracketOpen| == 1 && |BracketClose| == 1;
  }

  /** Every text of either pattern in `s` lies inside an occurrence of the same syntax that
      the extraction reports. */
  lemma OccurrencesCover(s: string, p: nat, e: nat, brace: bool)
    requires p <= e <= |s|
    requires brace ==> IsMarkerText(s[p..e], BraceOpen, BraceClose)
    requires !brace ==> IsMarkerText(s[p..e], BracketOpen, BracketClose)
    ensures exists i :: 0 <= i < |Occurrences(s)| && CoversAt(Occurrences(s)[i], p, brace)
  {
    if brace {
      var j := MatchCovering(s, p, e, BraceOpen, BraceClose);
      assert Occurrences(s)[j] == BraceVariable(BraceMatches(s)[j]);
      assert CoversAt(Occurrences(s)[j], p, brace);
    } else {
      var j := MatchCovering(s, p, e, BracketOpen, BracketClose);
      var b := |BraceVariables(s)|;
      assert Occurrences(s)[b + j] == BracketVariable(BracketMatches(s)[j]);
      assert CoversAt(Occurrences(s)[b + j], p, brace);
    }
  }

  /** The occurrence `v`, of the brace syntax when `brace` holds and of the bracket syntax
      otherwise, spans index `p`. */
  predicate CoversAt(v: TemplateVariable, p: nat, brace: bool) {
    v.startPos <= p < v.endPos && v.syntax == (if brace then DoubleBrace else SingleBracket)
  }

  /** The index of the reported match that covers a text of the pattern. */
  lemma MatchCovering(s: string, p: nat, e: nat, open: string, close: string) returns (j: nat)
    requires p <= e <= |s| && ValidClose(close) && IsMarkerText(s[p..e], open, close)
    ensures MarkerCovering(MarkerScan(s, 0, open, close), j, p)
  {
    MarkerAtComplete(s, p, e, open, close);
    j := MarkerScanCovers(s, 0, p, open, close);
  }

  /** `extract_variables_simple`: the sorted, duplicate-free names of the simple pattern. */
  method ExtractVariablesSimple(content: string) returns (names: seq<string>)
    ensures names == SimpleNames(content)
    ensures StrictlySorted(names)
    ensures forall n :: n in names <==> Marked(content, n)
  {
    names := ExtractNames(content);
  }

  /** A detected heading and its span `(pos, pos + len(heading))` in the text. */
  datatype DetectedSection = DetectedSection(heading: string, start: nat, end: nat)

  /** The dictionary `detect_sections` fills for the headings `hs`, in insertion order, over
      the lower-cased text `lc`. */
  function DetectAmong(lc: string, hs: seq<string>): seq<DetectedSection>
    decreases |hs|
  {
    if hs == [] then []
    else
      var rest := DetectAmong(lc, hs[..|hs| - 1]);
      var h := hs[|hs| - 1];
      var pos := Find(lc, Lower(h));
      if pos != -1 then rest + [DetectedSection(h, pos, pos + |h|)] else rest
  }

  function Detected(content: string): seq<DetectedSection> {
    DetectAmong(Lower(content), AllSections)
  }

  function Keys(ds: seq<DetectedSection>): (ks: seq<string>)
    ensures |ks| == |ds|
  {
    seq(|ds|, i requires 0 <= i < |ds| => ds[i].heading)
  }

  lemma KeysAppend(ds: seq<DetectedSection>, d: DetectedSection)
    ensures Keys(ds + [d]) == Keys(ds) + [d.heading]
  {
  }

  /** Each detected heading is mapped to the span of the first occurrence of its
      lower-cased form in the lower-cased text. */
  lemma {:induction false} DetectAmongSpans(lc: string, hs: seq<string>)
    ensures forall d :: d in DetectAmong(lc, hs) ==>
      d.heading in hs && 0 <= Find(lc, Lower(d.heading)) == d.start && d.end == d.start + |d.heading|
    decreases |hs|
  {
    if hs != [] {
      DetectAmongSpans(lc, hs[..|hs| - 1]);
      assert hs == hs[..|hs| - 1] + [hs[|hs| - 1]];
    }
  }

  /** A heading is detected exactly when its lower-cased form occurs in the lower-cased text. */
  lemma {:induction false} DetectAmongKeys(lc: string, hs: seq<string>, h: string)
    requires h in hs
    ensures Contains(lc, Lower(h)) <==> h in Keys(DetectAmong(lc, hs))
    decreases |hs|
  {
    var init := hs[..|hs| - 1];
    var last := hs[|hs| - 1];
    var rest := DetectAmong(lc, init);
    var pos := Find(lc, Lower(last));
    assert hs == init + [last];
    if pos != -1 {
      KeysAppend(rest, DetectedSection(last, pos, pos + |last|));
    }
    if h in init {
      DetectAmongKeys(lc, init, h);
    } else if h in Keys(rest) {
      KeysAmong(lc, init, h);
    }
  }

  /** Only headings of `hs` are detected. */
  lemma KeysAmong(lc: string, hs: seq<string>, x: string)
    requires x in Keys(DetectAmong(lc, hs))
    ensures x in hs
  {
    var ds := DetectAmong(lc, hs);
    var i :| 0 <= i < |ds| && Keys(ds)[i] == x;
    DetectAmongSpans(lc, hs);
    assert ds[i] in ds;
  }

  /** `x` comes before `y` in `hs`. */
  predicate Before(hs: seq<string>, x: string, y: string) {
    exists a, b :: 0 <= a < b < |hs| && hs[a] == x && hs[b] == y
  }

  /** The detected headings keep the order of `hs`. */
  lemma {:induction false} DetectAmongOrdered(lc: string, hs: seq<string>)
    ensures forall i, j :: 0 <= i < j < |DetectAmong(lc, hs)| ==>
      Before(hs, DetectAmong(lc, hs)[i].heading, DetectAmong(lc, hs)[j].heading)
    decreases |hs|
  {
    if hs != [] {
      var init := hs[..|hs| - 1];
      var rest := DetectAmong(lc, init);
      DetectAmongOrdered(lc, init);
      DetectAmongSpans(lc, init);
      var ds := DetectAmong(lc, hs);
      forall i, j | 0 <= i < j < |ds| ensures Before(hs, ds[i].heading, ds[j].heading) {
        assert ds[i] == rest[i];
        if j < |rest| {
          assert Before(init, rest[i].heading, rest[j].heading);
          var a, b :| 0 <= a < b < |init| && init[a] == rest[i].heading && init[b] == rest[j].heading;
          assert hs[a] == init[a] && hs[b] == init[b];
        } else {
          assert rest[i] in rest;
          var a :| 0 <= a < |init| && init[a] == rest[i].heading;
          assert hs[a] == ds[i].heading && hs[|hs| - 1] == ds[j].heading;
        }
      }
    }
  }

  /** `detect_sections`: each policy heading whose lower-cased form occurs in the lower-cased
      text, with the span of its first occurrence there. */
  method DetectSections(content: string) returns (sections: seq<DetectedSection>)
    ensures sections == Detected(content)
  {
    sections := DetectAmongLoop(Lower(content), AllSections);
  }

  /** The loop of `detect_sections` over the headings `hs`, against the lower-cased text `lc`. */
  method DetectAmongLoop(lc: string, hs: seq<string>) returns (sections: seq<DetectedSection>)
    ensures sections == DetectAmong(lc, hs)
  {
    sections := [];
    var i := 0;
    while i < |hs|
      invariant 0 <= i <= |hs|
      invariant sections == DetectAmong(lc, hs[..i])
    {
      var section := hs[i];
      var pos := Find(lc, Lower(section));
      ghost var prev := sections;
      if pos != -1 {
        sections := sections + [DetectedSection(section, pos, pos + |section|)];
      }
      DetectAmongStep(lc, hs, i, prev, sections);
      i := i + 1;
    }
    assert hs[..i] == hs;
  }

  /** One more heading examined by the loop of `detect_sections`. */
  lemma DetectAmongStep(lc: string, hs: seq<string>, i: nat, prev: seq<DetectedSection>, next: seq<DetectedSection>)
    requires i < |hs| && prev == DetectAmong(lc, hs[..i])
    requires var pos := Find(lc, Lower(hs[i]));
      next == if pos != -1 then prev + [DetectedSection(hs[i], pos, pos + |hs[i]|)] else prev
    ensures next == DetectAmong(lc, hs[..i + 1])
  {
    assert hs[..i + 1][..i] == hs[..i];
  }

  function MissingAmong(ds: seq<DetectedSection>, req: seq<string>): seq<string>
    decreases |req|
  {
    if req == [] then []
    else
      var rest := MissingAmong(ds, req[..|req| - 1]);
      var h := req[|req| - 1];
      if h !in Keys(ds) then rest + [h] else rest
  }

  function Missing(content: string): seq<string> {
    MissingAmong(Detected(content), RequiredSections)
  }

  lemma {:induction false} MissingAmongSpec(ds: seq<DetectedSection>, req: seq<string>)
    ensures forall h :: h in MissingAmong(ds, req) <==> h in req && h !in Keys(ds)
    ensures |MissingAmong(ds, req)| <= |req|
    decreases |req|
  {
    if req != [] {
      MissingAmongSpec(ds, req[..|req| - 1]);
      assert req == req[..|req| - 1] + [req[|req| - 1]];
    }
  }

  /** A required heading is missing exactly when its lower-cased form does not occur in the
      lower-cased text; the missing ones keep the order of the required list. */
  lemma MissingSpec(content: string)
    ensures forall h :: h in Missing(content) <==>
      h in RequiredSections && !Contains(Lower(content), Lower(h))
    ensures Missing(content) == [] <==>
      forall h :: h in RequiredSections ==> Contains(Lower(content), Lower(h))
  {
    var ds := Detected(content);
    MissingAmongSpec(ds, RequiredSections);
    forall h | h in RequiredSections ensures Contains(Lower(content), Lower(h)) <==> h in Keys(ds) {
      assert h in AllSections;
      DetectAmongKeys(Lower(content), AllSections, h);
    }
    if Missing(content) != [] {
      assert Missing(content)[0] in Missing(content);
    }
  }

  /** Missing headings keep the order of the required list: `MissingAmong` keeps a
      subsequence of `req`. */
  lemma {:induction false} MissingAmongOrdered(ds: seq<DetectedSection>, req: seq<string>)
    ensures forall i, j :: 0 <= i < j < |MissingAmong(ds, req)| ==>
      Before(req, MissingAmong(ds, req)[i], MissingAmong(ds, req)[j])
    decreases |req|
  {
    if req != [] {
      var init := req[..|req| - 1];
      MissingAmongOrdered(ds, init);
      MissingAmongSpec(ds, init);
      var rest := MissingAmong(ds, init);
      var ms := MissingAmong(ds, req);
      forall i, j | 0 <= i < j < |ms| ensures Before(req, ms[i], ms[j]) {
        assert ms[i] == rest[i];
        if j < |rest| {
          assert Before(init, rest[i], rest[j]);
          var a, b :| 0 <= a < b < |init| && init[a] == rest[i] && init[b] == rest[j];
          assert req[a] == init[a] && req[b] == init[b];
        } else {
          assert rest[i] in rest;
          var a :| 0 <= a < |init| && init[a] == rest[i];
          assert req[a] == ms[i] && req[|req| - 1] == ms[j];
        }
      }
    }
  }

  /** `check_required_sections`: `(len(missing) == 0, missing)`. */
  method CheckRequiredSections(content: string) returns (ok: bool, missing: seq<string>)
    ensures missing == Missing(content)
    ensures ok <==> missing == []
    ensures forall h :: h in missing <==> h in RequiredSections && !Contains(Lower(content), Lower(h))
  {
    var sections := DetectSections(content);
    var keys := Keys(sections);
    missing := [];
    var i := 0;
    while i < |RequiredSections|
      invariant 0 <= i <= |RequiredSections|
      invariant missing == MissingAmong(sections, RequiredSections[..i])
    {
      var section := RequiredSections[i];
      ghost var prev := missing;
      if section !in keys {
        missing := missing + [section];
      }
      i := i + 1;
      MissingAmongStep(sections, RequiredSections, i, prev, missing);
    }
    assert RequiredSections[..i] == RequiredSections;
    ok := |missing| == 0;
    MissingSpec(content);
  }

  /** One more heading examined by the loop of `check_required_sections`. */
  lemma MissingAmongStep(ds: seq<DetectedSection>, req: seq<string>, n: nat, prev: seq<string>, next: seq<string>)
    requires 0 < n <= |req| && prev == MissingAmong(ds, req[..n - 1])
    requires next == if req[n - 1] !in Keys(ds) then prev + [req[n - 1]] else prev
    ensures next == MissingAmong(ds, req[..n])
  {
    assert req[..n][..n - 1] == req[..n - 1];
  }

  datatype TemplateError = MissingRequiredSections(missing: seq<string>)

  datatype TemplateWarning = NoVariablesFound

  /** The per-occurrence entry of the report. */
  datatype VariableSummary = VariableSummary(name: string, syntax: Syntax, hasDefault: bool)

  datatype TemplateReport = TemplateReport(
    isValid: bool,
    errors: seq<TemplateError>,
    warnings: seq<TemplateWarning>,
    variables: seq<VariableSummary>,
    sections: seq<string>)

  /** The report's entry for one occurrence: its name, its syntax and whether it has a default. */
  function Summary(v: TemplateVariable): VariableSummary
  {
    VariableSummary(v.name, v.syntax, v.defaultValue.Some?)
  }

  /** `validate_template`: invalid exactly when a required heading is missing, with one error
      naming the missing headings; a warning exactly when there is no occurrence; one summary
      per occurrence; the detected headings in policy order. */
  method ValidateTemplate(content: string) returns (result: TemplateReport)
    ensures result.isValid <==> Missing(content) == []
    ensures result.errors == (if Missing(content) == [] then [] else [MissingRequiredSections(Missing(content))])
    ensures result.warnings == (if Occurrences(content) == [] then [NoVariablesFound] else [])
    ensures |result.variables| == |Occurrences(content)|
    ensures forall i :: 0 <= i < |result.variables| ==> result.variables[i] == Summary(Occurrences(content)[i])
    ensures result.sections == Keys(Detected(content))
  {
    result := TemplateReport(true, [], [], [], []);
    var isValid, missing := CheckRequiredSections(content);
    if !isValid {
      result := result.(isValid := false, errors := result.errors + [MissingRequiredSections(missing)]);
    }
    var variables := ExtractVariables(content);
    result := result.(variables := seq(|variables|, i requires 0 <= i < |variables| => Summary(variables[i])));
    if variables == [] {
      result := result.(warnings := result.warnings + [NoVariablesFound]);
    }
    var sections := DetectSections(content);
    result := result.(sections := Keys(sections));
  }

  /** `substitute_variables`: for each pair in order, `{{k}}` and then `[k]` replaced everywhere. */
  method SubstituteVariables(content: string, values: seq<(string, string)>) returns (result: string)
    ensures result == Substitute(content, values)
  {
    result := content;
    var i := 0;
    while i < |values|
      invariant 0 <= i <= |values|
      invariant result == Substitute(content, values[..i])
    {
      var (varName, value) := values[i];
      assert values[..i + 1][..i] == values[..i];
      result := ReplaceAll(result, BraceLiteral(varName), value);
      result := ReplaceAll(result, BracketLiteral(varName), value);
      i := i + 1;
    }
    assert values[..i] == values;
  }

  /** `find_unreplaced_variables`: the simple extraction, kept where a literal marker occurs,
      which every extracted name's marker does. */
  method FindUnreplacedVariables(content: string) returns (unreplaced: seq<string>)
    ensures unreplaced == SimpleNames(content)
    ensures StrictlySorted(unreplaced)
    ensures forall n :: n in unreplaced <==> Marked(content, n)
  {
    var variables := ExtractVariablesSimple(content);
    unreplaced := [];
    var i := 0;
    while i < |variables|
      invariant 0 <= i <= |variables|
      invariant unreplaced == variables[..i]
    {
      var v := variables[i];
      assert Marked(content, v);
      if Contains(content, BraceLiteral(v)) || Contains(content, BracketLiteral(v)) {
        unreplaced := unreplaced + [v];
      }
      assert variables[..i + 1] == variables[..i] + [v];
      i := i + 1;
    }
    assert variables[..i] == variables;
  }

}
