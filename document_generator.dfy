/**
 * The document generator service: it cuts a template into sections at its Markdown
 * headings, turns each section into wizard questions, validates what the user writes for a
 * section as it is typed, assembles the final document and scores its compliance with the
 * prompt structure (a role, an input and an output-requirements section, every marker
 * filled in).
 */
module DocumentGenerator {
  import opened Wrappers
  import opened Text
  import opened StringOrder
  import opened Markers
  import opened Substitution
  import opened Headings
  import opened Sequences
  import TemplateParser

  const MinSectionWords: nat := 10
  const MinMeaningfulLength: nat := 20

  /** The longest section description, and the length kept when one is cut short. */
  const DescriptionLimit: nat := 150
  const DescriptionCut: nat := 147

  /** The longest section content shown as a step's preview. */
  const PreviewLimit: nat := 500

  /** Documents shorter than this many words lose points. */
  const MinDocumentWords: nat := 50

  /** The headings `validate_document_compliance` requires, in the order it reports them. */
  const ComplianceSections: seq<string> := ["## Your Role", "## Input", "## Output Requirements"]

  const RoleKeywords: seq<string> := ["responsibility", "task", "goal", "objective", "you will"]
  const InputKeywords: seq<string> := ["provide", "given", "receive", "include"]
  const OutputKeywords: seq<string> := ["format", "structure", "include", "return", "produce"]

  /** A section of a template: the text from one heading match to the next. `startPos` is
      where its heading starts and `endPos` where the next heading (or the text) starts. */
  datatype TemplateSection = TemplateSection(
    name: string, level: nat, content: string, description: string,
    startPos: nat, endPos: nat, variables: seq<string>)

  // ---------------------------------------------------------------------------------
  // Section descriptions

  /** A line the description leaves out: a heading, a list item or a link, told apart by
      its first one or two characters. */
  predicate IsStructural(t: string) {
    |t| > 0 && (t[0] == '#' || t[0] == '-' || t[0] == '*' || t[0] == '['
                || (t[0] == '1' && |t| > 1 && t[1] == '.'))
  }

  /** `t.startswith(('#', '-', '*', '1.', '['))` */
  lemma IsStructuralPrefixes(t: string)
    ensures IsStructural(t) <==>
      StartsWith(t, "#") || StartsWith(t, "-") || StartsWith(t, "*") || StartsWith(t, "1.")
      || StartsWith(t, "[")
  {
    if |t| > 1 && t[0] == '1' && t[1] == '.' {
      assert t[0..2] == "1.";
    }
    if |t| > 0 {
      assert t[0..1] == [t[0]];
    }
  }

  /** A stripped line the description keeps. */
  predicate Kept(t: string) {
    t != "" && !IsStructural(t)
  }

  /** The stripped lines of `lines` that are kept, in order. */
  function KeptLines(lines: seq<string>): seq<string>
    decreases |lines|
  {
    if lines == [] then []
    else
      var rest := KeptLines(lines[..|lines| - 1]);
      var t := Strip(lines[|lines| - 1]);
      if Kept(t) then rest + [t] else rest
  }

  /** `content.strip().split('\n')[:3]` */
  function FirstLines(c: string): seq<string> {
    var lines := SplitOn(Strip(c), '\n');
    if |lines| <= 3 then lines else lines[..3]
  }

  /** The first lines are at most three, and they open the split. */
  lemma FirstLinesPrefix(c: string)
    ensures var ls := FirstLines(c);
      |ls| <= 3 && |ls| <= |SplitOn(Strip(c), '\n')| && ls == SplitOn(Strip(c), '\n')[..|ls|]
  {
  }

  /** The lines the description is made of. */
  function DescriptionLines(c: string): seq<string> {
    KeptLines(FirstLines(c))
  }

  /** What `_generate_section_description` returns for `c`. */
  function Description(c: string): string {
    Truncated(JoinWith(DescriptionLines(c), " "))
  }

  /** The joined lines cut down to the description limit. */
  function Truncated(d: string): string {
    if |d| > DescriptionLimit then d[..DescriptionCut] + "..." else d
  }

  /** `x` is one of `lines` once stripped. */
  predicate LineOf(lines: seq<string>, x: string) {
    exists k :: 0 <= k < |lines| && Strip(lines[k]) == x
  }

  /** One more line examined: the kept lines so far, and the new one if it is kept. */
  lemma KeptLinesLast(lines: seq<string>)
    requires lines != []
    ensures KeptLines(lines) ==
      var t := Strip(lines[|lines| - 1]);
      if Kept(t) then KeptLines(lines[..|lines| - 1]) + [t] else KeptLines(lines[..|lines| - 1])
  {
  }

  /** The kept lines are no more than the lines, and every one of them is kept. */
  lemma {:induction false} KeptLinesSpec(lines: seq<string>)
    ensures |KeptLines(lines)| <= |lines|
    ensures forall i :: 0 <= i < |KeptLines(lines)| ==> Kept(KeptLines(lines)[i])
    decreases |lines|
  {
    if lines != [] {
      KeptLinesSpec(lines[..|lines| - 1]);
      KeptLinesLast(lines);
    }
  }

  /** A stripped line is among the kept lines exactly when it is kept. */
  lemma {:induction false} KeptLinesHas(lines: seq<string>, x: string)
    ensures x in KeptLines(lines) <==> Kept(x) && LineOf(lines, x)
    decreases |lines|
  {
    if lines != [] {
      var init := lines[..|lines| - 1];
      KeptLinesHas(init, x);
      KeptLinesLast(lines);
      if LineOf(lines, x) {
        var k :| 0 <= k < |lines| && Strip(lines[k]) == x;
        if k < |lines| - 1 {
          assert init[k] == lines[k];
        }
      }
      if LineOf(init, x) {
        var k :| 0 <= k < |init| && Strip(init[k]) == x;
        assert lines[k] == init[k];
      }
    }
  }

  /** The kept lines carry no newline: each comes from one piece of the split. */
  lemma {:induction false} KeptLinesSingle(lines: seq<string>)
    requires forall i :: 0 <= i < |lines| ==> '\n' !in lines[i]
    ensures forall i :: 0 <= i < |KeptLines(lines)| ==> '\n' !in KeptLines(lines)[i]
    decreases |lines|
  {
    if lines != [] {
      var init := lines[..|lines| - 1];
      assert forall i :: 0 <= i < |init| ==> init[i] == lines[i];
      KeptLinesSingle(init);
      StripWithout(lines[|lines| - 1], '\n');
    }
  }

  /** A description is one line of at most 150 characters: the kept lines joined by spaces
      when that fits, otherwise its first 147 characters followed by `...`. */
  lemma DescriptionSpec(c: string)
    ensures |Description(c)| <= DescriptionLimit
    ensures '\n' !in Description(c)
    ensures var j := JoinWith(DescriptionLines(c), " ");
      (|j| <= DescriptionLimit && Description(c) == j)
      || (|j| > DescriptionLimit && |Description(c)| == DescriptionLimit
          && Description(c)[..DescriptionCut] == j[..DescriptionCut]
          && Description(c)[DescriptionCut..] == "...")
  {
    DescriptionJoinSingle(c);
    TruncatedSpec(JoinWith(DescriptionLines(c), " "));
  }

  /** The space-joined description lines hold no newline. */
  lemma DescriptionJoinSingle(c: string)
    ensures '\n' !in JoinWith(DescriptionLines(c), " ")
  {
    FirstLinesSingle(c);
    KeptLinesSingle(FirstLines(c));
    JoinWithout(DescriptionLines(c), " ", '\n');
  }

  /** The lines looked at hold no newline: they are pieces of the split at newlines. */
  lemma FirstLinesSingle(c: string)
    ensures forall i :: 0 <= i < |FirstLines(c)| ==> '\n' !in FirstLines(c)[i]
  {
    var lines := SplitOn(Strip(c), '\n');
    SplitOnPieces(Strip(c), '\n');
    FirstLinesPrefix(c);
    var first := FirstLines(c);
    forall i | 0 <= i < |first| ensures '\n' !in first[i] {
      assert first[i] == lines[i];
    }
  }

  /** Cutting a one-line text down keeps it on one line, within the limit, and either leaves
      it as it is or keeps its first 147 characters and adds `...`. */
  lemma TruncatedSpec(d: string)
    requires '\n' !in d
    ensures |Truncated(d)| <= DescriptionLimit && '\n' !in Truncated(d)
    ensures (|d| <= DescriptionLimit && Truncated(d) == d)
      || (|d| > DescriptionLimit && |Truncated(d)| == DescriptionLimit
          && Truncated(d)[..DescriptionCut] == d[..DescriptionCut] && Truncated(d)[DescriptionCut..] == "...")
  {
    if |d| > DescriptionLimit {
      assert '\n' !in d[..DescriptionCut];
      assert '\n' !in "...";
    }
  }

  /** The description uses only the first three lines of the stripped content, even when
      all three are left out: each of its lines is a kept one among them. */
  lemma DescriptionFirstLines(c: string, x: string)
    requires x in DescriptionLines(c)
    ensures Kept(x)
    ensures exists k :: 0 <= k < |SplitOn(Strip(c), '\n')| && k < 3 && Strip(SplitOn(Strip(c), '\n')[k]) == x
  {
    var first := FirstLines(c);
    FirstLinesPrefix(c);
    KeptLinesHas(first, x);
    var k :| 0 <= k < |first| && Strip(first[k]) == x;
    assert first[k] == SplitOn(Strip(c), '\n')[k];
  }

  /** There are at most three description lines. */
  lemma DescriptionLinesCount(c: string)
    ensures |DescriptionLines(c)| <= 3
  {
    FirstLinesPrefix(c);
    KeptLinesSpec(FirstLines(c));
  }

  /** One more line examined by the loop of `_generate_section_description`. */
  lemma KeptStep(lines: seq<string>, i: nat, prev: seq<string>, next: seq<string>)
    requires i < |lines| && prev == KeptLines(lines[..i])
    requires next == if Kept(Strip(lines[i])) then prev + [Strip(lines[i])] else prev
    ensures next == KeptLines(lines[..i + 1])
  {
    assert lines[..i + 1][..i] == lines[..i];
    KeptLinesLast(lines[..i + 1]);
  }

  /** `_generate_section_description` */
  method GenerateSectionDescription(content: string) returns (description: string)
    ensures description == Description(content)
  {
    var lines := SplitOn(Strip(content), '\n');
    var first := if |lines| <= 3 then lines else lines[..3];
    assert first == FirstLines(content);
    var kept := KeepLines(first);
    ghost var joined := JoinWith(kept, " ");
    description := JoinWith(kept, " ");
    if |description| > DescriptionLimit {
      description := description[..DescriptionCut] + "...";
    }
    assert description == Truncated(joined);
  }

  /** The loop of `_generate_section_description` over the lines looked at: the stripped lines
      that are non-empty and not structural, in order. */
  method KeepLines(first: seq<string>) returns (kept: seq<string>)
    ensures kept == KeptLines(first)
  {
    kept := [];
    var i := 0;
    while i < |first|
      invariant 0 <= i <= |first|
      invariant kept == KeptLines(first[..i])
    {
      var line := Strip(first[i]);
      ghost var prev := kept;
      if Kept(line) {
        kept := kept + [line];
      }
      KeptStep(first, i, prev, kept);
      i := i + 1;
    }
    assert first[..i] == first;
  }

  // ---------------------------------------------------------------------------------
  // Sections

  /** `_extract_variables_from_text`: the sorted, duplicate-free names of the simple pattern. */
  method ExtractVariablesFromText(text: string) returns (variables: seq<string>)
    ensures variables == SimpleNames(text)
  {
    variables := ExtractNames(text);
  }

  /** Where the section of the `i`-th heading match ends: at the next match, or at the end. */
  function SectionEnd(s: string, i: nat): (e: nat)
    requires i < |HeadingMatches(s)|
    ensures HeadingMatches(s)[i].end <= e <= |s|
  {
    var hs := HeadingMatches(s);
    if i + 1 < |hs| then hs[i + 1].start else |s|
  }

  /** The section the `i`-th heading match opens. */
  function SectionOf(s: string, i: nat): TemplateSection
    requires i < |HeadingMatches(s)|
  {
    var h := HeadingMatches(s)[i];
    var e := SectionEnd(s, i);
    var c := Strip(s[h.end..e]);
    TemplateSection(Strip(s[h.nameStart..h.end]), h.level, c, Description(c), h.start, e,
                    SimpleNames(c))
  }

  /** What `extract_sections` returns for `s`: one section per heading match, in order. */
  function Sections(s: string): (ss: seq<TemplateSection>)
    ensures |ss| == |HeadingMatches(s)|
  {
    seq(|HeadingMatches(s)|, i requires 0 <= i < |HeadingMatches(s)| => SectionOf(s, i))
  }

  /** `extract_sections` */
  method ExtractSections(content: string) returns (sections: seq<TemplateSection>)
    ensures sections == Sections(content)
  {
    sections := [];
    var matches := HeadingMatches(content);
    var i := 0;
    while i < |matches|
      invariant 0 <= i <= |matches|
      invariant sections == Sections(content)[..i]
    {
      var m := matches[i];
      var endPos := if i + 1 < |matches| then matches[i + 1].start else |content|;
      assert endPos == SectionEnd(content, i);
      var sectionContent := Strip(content[m.end..endPos]);
      var variables := ExtractVariablesFromText(sectionContent);
      var description := GenerateSectionDescription(sectionContent);
      var section := TemplateSection(Strip(content[m.nameStart..m.end]), m.level, sectionContent,
                                     description, m.start, endPos, variables);
      assert section == Sections(content)[i];
      PrefixStep(Sections(content), i, sections, section);
      sections := sections + [section];
      i := i + 1;
    }
    assert sections == Sections(content);
  }

  /** A template has no sections exactly when the heading pattern matches nowhere in it. */
  lemma SectionsEmpty(s: string)
    ensures Sections(s) == [] <==> forall p: nat :: p <= |s| ==> HeadingAt(s, p).None?
  {
    HeadingMatchesEmpty(s);
  }

  /** Each section starts at a match `h` of the heading pattern: its level is the length of
      the `#` run (1 to 6) and its name is the stripped rest of the heading line. */
  lemma SectionHeading(s: string, i: nat) returns (h: Heading)
    requires i < |Sections(s)|
    ensures HeadingAt(s, Sections(s)[i].startPos) == Some(h)
    ensures IsHeadingMatch(s, h.start, h.level, h.nameStart, h.end)
    ensures Sections(s)[i].level == h.level && 1 <= h.level <= 6
    ensures Sections(s)[i].name == Strip(s[h.nameStart..h.end])
    ensures Sections(s)[i].startPos < h.end <= Sections(s)[i].endPos <= |s|
  {
    var v := Sections(s)[i];
    h := HeadingMatches(s)[i];
    assert v == SectionOf(s, i);
    HeadingScanFound(s, 0, i);
    assert HeadingAt(s, v.startPos) == Some(h);
    HeadingAtSound(s, v.startPos);
  }

  /** Where the `i`-th section starts and ends, and its level. */
  lemma SectionBounds(s: string, i: nat)
    requires i < |Sections(s)|
    ensures Sections(s)[i].startPos == HeadingMatches(s)[i].start
    ensures Sections(s)[i].endPos == SectionEnd(s, i)
    ensures Sections(s)[i].level == HeadingMatches(s)[i].level
  {
    assert Sections(s)[i] == SectionOf(s, i);
  }

  /** Consecutive sections touch: each ends where the next one's heading starts, and the
      last one ends with the text. */
  lemma SectionsChain(s: string, i: nat)
    requires i < |Sections(s)|
    ensures i + 1 < |Sections(s)| ==> Sections(s)[i].endPos == Sections(s)[i + 1].startPos
    ensures i + 1 == |Sections(s)| ==> Sections(s)[i].endPos == |s|
  {
    SectionBounds(s, i);
    if i + 1 < |Sections(s)| {
      SectionBounds(s, i + 1);
    }
  }

  /** Sections come in text order and do not overlap. */
  lemma SectionsOrdered(s: string, i: nat, j: nat)
    requires i < j < |Sections(s)|
    ensures Sections(s)[i].startPos < Sections(s)[i].endPos <= Sections(s)[j].startPos
  {
    SectionBounds(s, i);
    SectionBounds(s, j);
    HeadingsOrdered(s, i, j);
  }

  lemma HeadingsOrdered(s: string, i: nat, j: nat)
    requires i < j < |HeadingMatches(s)|
    ensures HeadingMatches(s)[i].start < SectionEnd(s, i) <= HeadingMatches(s)[j].start
  {
    var hs := HeadingMatches(s);
    assert hs[i].end <= hs[i + 1].start;
    if i + 1 < j {
      assert hs[i + 1].end <= hs[j].start;
    }
  }

  /** A section's content is the text between its heading line and its end with the
      whitespace at both ends cut off; `a` is where it starts. */
  lemma SectionContent(s: string, i: nat) returns (a: nat)
    requires i < |Sections(s)|
    ensures TrimmedSlice(s, HeadingMatches(s)[i].end, Sections(s)[i].endPos, a, Sections(s)[i].content)
  {
    SectionContentIs(s, i);
    a := StrippedSlice(s, HeadingMatches(s)[i].end, Sections(s)[i].endPos, Sections(s)[i].content);
  }

  lemma SectionContentIs(s: string, i: nat)
    requires i < |Sections(s)|
    ensures HeadingMatches(s)[i].end <= Sections(s)[i].endPos <= |s|
    ensures Sections(s)[i].content == Strip(s[HeadingMatches(s)[i].end..Sections(s)[i].endPos])
  {
    var v := Sections(s)[i];
    assert v == SectionOf(s, i);
    assert v.endPos == SectionEnd(s, i);
  }

  /** A section's variables are the sorted names of the markers in its content, and its
      description is the one its content gives. */
  lemma SectionVariables(s: string, i: nat)
    requires i < |Sections(s)|
    ensures StrictlySorted(Sections(s)[i].variables)
    ensures forall n :: n in Sections(s)[i].variables <==> Marked(Sections(s)[i].content, n)
    ensures Sections(s)[i].description == Description(Sections(s)[i].content)
  {
    var v := Sections(s)[i];
    assert v == SectionOf(s, i);
    assert v.variables == SimpleNames(v.content);
    SimpleNamesSpec(v.content);
  }

  // ---------------------------------------------------------------------------------
  // Wizard questions

  datatype QuestionType = VariableInput | ContentInput

  /** A question dictionary (`labelText` is its `label`); `isTextarea` is `None` where the
      dictionary has no such key. */
  datatype Question = Question(
    kind: QuestionType, name: string, labelText: string, placeholder: string,
    required: bool, isTextarea: Option<bool>)

  /** The question asking for the value of variable `v`. */
  function VariableQuestion(v: string): Question {
    Question(VariableInput, v, Title(ReplaceAll(v, "_", " ")), "Enter value for " + v, true, None)
  }

  /** The question asking for the content of `section` itself. */
  function ContentQuestion(section: TemplateSection): Question {
    Question(ContentInput, "section_" + ReplaceAll(Lower(section.name), " ", "_"),
             "Content for '" + section.name + "'",
             if section.description != "" then section.description
             else "Enter content for " + section.name,
             false, Some(true))
  }

  function VariableQuestions(vs: seq<string>): (qs: seq<Question>)
    ensures |qs| == |vs|
  {
    seq(|vs|, i requires 0 <= i < |vs| => VariableQuestion(vs[i]))
  }

  /** What `get_section_questions` returns: a question per variable, then the content question. */
  function Questions(section: TemplateSection): seq<Question> {
    VariableQuestions(section.variables) + [ContentQuestion(section)]
  }

  /** `get_section_questions` */
  method GetSectionQuestions(section: TemplateSection) returns (questions: seq<Question>)
    ensures questions == Questions(section)
  {
    questions := [];
    if section.variables != [] {
      var i := 0;
      while i < |section.variables|
        invariant 0 <= i <= |section.variables|
        invariant questions == VariableQuestions(section.variables[..i])
      {
        VariableQuestionsStep(section.variables, i);
        questions := questions + [VariableQuestion(section.variables[i])];
        i := i + 1;
      }
      assert section.variables[..i] == section.variables;
    }
    questions := questions + [ContentQuestion(section)];
  }

  lemma VariableQuestionsStep(vs: seq<string>, i: nat)
    requires i < |vs|
    ensures VariableQuestions(vs[..i + 1]) == VariableQuestions(vs[..i]) + [VariableQuestion(vs[i])]
  {
    assert vs[..i + 1][i] == vs[i];
  }

  /** A section yields one required question per variable, in the order of its variables,
      then one optional textarea question for its content; every question has a placeholder,
      and the content question's placeholder is the description when there is one. */
  lemma QuestionsSpec(section: TemplateSection)
    ensures |Questions(section)| == |section.variables| + 1
    ensures forall i :: 0 <= i < |section.variables| ==>
      Questions(section)[i].kind == VariableInput && Questions(section)[i].name == section.variables[i]
    ensures Questions(section)[|section.variables|].kind == ContentInput
    ensures forall q :: q in Questions(section) ==>
      (q.required <==> q.kind == VariableInput) && (q.isTextarea == Some(true) <==> q.kind == ContentInput)
      && (q.isTextarea.Some? <==> q.kind == ContentInput) && q.placeholder != ""
    ensures section.description != "" ==>
      Questions(section)[|section.variables|].placeholder == section.description
  {
    var qs := Questions(section);
    forall q | q in qs ensures (q.required <==> q.kind == VariableInput)
      && (q.isTextarea == Some(true) <==> q.kind == ContentInput)
      && (q.isTextarea.Some? <==> q.kind == ContentInput) && q.placeholder != ""
    {
      var i :| 0 <= i < |qs| && qs[i] == q;
      if i < |section.variables| {
        assert q == VariableQuestion(section.variables[i]);
      } else {
        assert q == ContentQuestion(section);
      }
    }
  }

  // ---------------------------------------------------------------------------------
  // Real-time validation

  /** The issue, warning and suggestion messages, by kind; the text of each is the
      service's wording around the data carried here. */
  datatype SectionIssue = UnreplacedVariablesFound(names: seq<string>) | DocumentStillUnreplaced(names: seq<string>)

  datatype SectionWarning = SeemsShort(words: nat) | AppearsMinimal

  datatype Suggestion = SpecifyResponsibilities | SpecifyInputs | SpecifyOutputFormat

  /** The fields of a `RealTimeValidation`, as a value. */
  datatype Validation = Validation(
    isValid: bool, sectionName: string, issues: seq<SectionIssue>, warnings: seq<SectionWarning>,
    suggestions: seq<Suggestion>, unreplacedVariables: seq<string>)

  /** The validation result the service fills in step by step. */
  class RealTimeValidation {
    var isValid: bool
    var sectionName: string
    var issues: seq<SectionIssue>
    var warnings: seq<SectionWarning>
    var suggestions: seq<Suggestion>
    var unreplacedVariables: seq<string>

    constructor (isValid: bool, sectionName: string, issues: seq<SectionIssue>,
                 warnings: seq<SectionWarning>, suggestions: seq<Suggestion>,
                 unreplacedVariables: seq<string>)
      ensures View() == Validation(isValid, sectionName, issues, warnings, suggestions, unreplacedVariables)
    {
      this.isValid := isValid;
      this.sectionName := sectionName;
      this.issues := issues;
      this.warnings := warnings;
      this.suggestions := suggestions;
      this.unreplacedVariables := unreplacedVariables;
    }

    function View(): Validation
      reads this
    {
      Validation(isValid, sectionName, issues, warnings, suggestions, unreplacedVariables)
    }
  }

  /** The warnings about the length of `content`: too few words, then too little text. */
  function ContentWarnings(content: string): seq<SectionWarning> {
    LengthWarnings(WordCount(content), |Strip(content)|)
  }

  /** The length warnings for a text of `words` words and `meaningful` characters once stripped. */
  function LengthWarnings(words: nat, meaningful: nat): seq<SectionWarning> {
    (if words < MinSectionWords then [SeemsShort(words)] else [])
    + (if meaningful < MinMeaningfulLength then [AppearsMinimal] else [])
  }

  /** `any(word in text for word in words)` */
  predicate MentionsAny(text: string, words: seq<string>) {
    exists i :: 0 <= i < |words| && Contains(text, words[i])
  }

  /** The suggestions `_add_content_suggestions` adds for a section named `name`. */
  function ContentSuggestions(name: string, content: string): seq<Suggestion> {
    var n := Lower(name);
    var c := Lower(content);
    (if Contains(n, "role") && !MentionsAny(c, RoleKeywords) then [SpecifyResponsibilities] else [])
    + (if Contains(n, "input") && !MentionsAny(c, InputKeywords) then [SpecifyInputs] else [])
    + (if (Contains(n, "output") || Contains(n, "requirement")) && !MentionsAny(c, OutputKeywords)
       then [SpecifyOutputFormat] else [])
  }

  /** What `validate_section_content` reports for `content` typed into section `name`. */
  function SectionValidation(name: string, content: string): Validation {
    var u := SimpleNames(content);
    Validation(u == [], name, if u == [] then [] else [UnreplacedVariablesFound(u)],
               ContentWarnings(content), ContentSuggestions(name, content), u)
  }

  /** `_add_content_suggestions`: only the suggestions change. */
  method AddContentSuggestions(sectionName: string, content: string, result: RealTimeValidation)
    modifies result`suggestions
    ensures result.suggestions == old(result.suggestions) + ContentSuggestions(sectionName, content)
  {
    var sectionLower := Lower(sectionName);
    var contentLower := Lower(content);
    ghost var start := result.suggestions;
    if Contains(sectionLower, "role") {
      if !MentionsAny(contentLower, RoleKeywords) {
        result.suggestions := result.suggestions + [SpecifyResponsibilities];
      }
    }
    if Contains(sectionLower, "input") {
      if !MentionsAny(contentLower, InputKeywords) {
        result.suggestions := result.suggestions + [SpecifyInputs];
      }
    }
    if Contains(sectionLower, "output") || Contains(sectionLower, "requirement") {
      if !MentionsAny(contentLower, OutputKeywords) {
        result.suggestions := result.suggestions + [SpecifyOutputFormat];
      }
    }
  }

  /** `validate_section_content` */
  method ValidateSectionContent(sectionName: string, content: string) returns (result: RealTimeValidation)
    ensures fresh(result)
    ensures result.View() == SectionValidation(sectionName, content)
  {
    var unreplaced := ExtractVariablesFromText(content);
    result := new RealTimeValidation(true, sectionName, [], [], [], []);
    FlagUnreplaced(unreplaced, result);
    ghost var checked := result.View();
    AddLengthWarnings(content, result);
    ghost var warned := result.View();
    AddContentSuggestions(sectionName, content, result);
    SectionValidationIs(sectionName, content, unreplaced, checked, warned, result.View());
  }

  /** The unreplaced-variable check of `validate_section_content` on a fresh result. */
  method FlagUnreplaced(unreplaced: seq<string>, result: RealTimeValidation)
    modifies result`isValid, result`unreplacedVariables, result`issues
    requires result.View() == Validation(true, result.sectionName, [], [], [], [])
    ensures result.View() == if unreplaced == [] then old(result.View())
      else Validation(false, result.sectionName, [UnreplacedVariablesFound(unreplaced)], [], [], unreplaced)
  {
    if unreplaced != [] {
      result.isValid := false;
      result.unreplacedVariables := unreplaced;
      result.issues := result.issues + [UnreplacedVariablesFound(unreplaced)];
    }
  }

  /** The two length checks of `validate_section_content`: only the warnings change. */
  method AddLengthWarnings(content: string, result: RealTimeValidation)
    modifies result`warnings
    ensures result.warnings == old(result.warnings) + ContentWarnings(content)
  {
    ghost var start := result.warnings;
    var wordCount := WordCount(content);
    if wordCount < MinSectionWords {
      result.warnings := result.warnings + [SeemsShort(wordCount)];
    }
    ghost var short := result.warnings;
    var meaningful := |Strip(content)|;
    if meaningful < MinMeaningfulLength {
      result.warnings := result.warnings + [AppearsMinimal];
    }
    WarningsIs(wordCount, meaningful, start, short, result.warnings);
  }

  lemma WarningsIs(words: nat, meaningful: nat, start: seq<SectionWarning>, short: seq<SectionWarning>,
                   ws: seq<SectionWarning>)
    requires short == if words < MinSectionWords then start + [SeemsShort(words)] else start
    requires ws == if meaningful < MinMeaningfulLength then short + [AppearsMinimal] else short
    ensures ws == start + LengthWarnings(words, meaningful)
  {
    var a := if words < MinSectionWords then [SeemsShort(words)] else [];
    var b := if meaningful < MinMeaningfulLength then [AppearsMinimal] else [];
    assert short == start + a;
    assert ws == short + b;
  }

  /** How the steps of `validate_section_content` build up `SectionValidation`. */
  lemma SectionValidationIs(name: string, content: string, u: seq<string>, checked: Validation,
                            warned: Validation, done: Validation)
    requires u == SimpleNames(content)
    requires checked == if u == [] then Validation(true, name, [], [], [], [])
                        else Validation(false, name, [UnreplacedVariablesFound(u)], [], [], u)
    requires warned == checked.(warnings := ContentWarnings(content))
    requires done == warned.(suggestions := warned.suggestions + ContentSuggestions(name, content))
    ensures done == SectionValidation(name, content)
  {
    assert warned.suggestions + ContentSuggestions(name, content) == ContentSuggestions(name, content);
  }

  /** A section is valid exactly when no marker is left in what the user wrote; then there is
      no issue, and otherwise one issue naming every marker left, sorted. */
  lemma SectionValidationSpec(name: string, content: string)
    ensures SectionValidation(name, content).isValid <==> forall n :: !Marked(content, n)
    ensures SectionValidation(name, content).isValid <==> SectionValidation(name, content).issues == []
    ensures StrictlySorted(SectionValidation(name, content).unreplacedVariables)
    ensures forall n :: n in SectionValidation(name, content).unreplacedVariables <==> Marked(content, n)
    ensures SectionValidation(name, content).sectionName == name
  {
    var u := SimpleNames(content);
    SimpleNamesSpec(content);
    if u != [] {
      assert Marked(content, u[0]);
    }
  }

  /** Every literal marker in the content is detected: the section is invalid and the marker's
      name is among the unreplaced variables. */
  lemma SectionMarkerDetected(name: string, content: string, n: string, p: nat)
    requires IsName(n) && p <= |content|
    requires OccursAt(content, BraceLiteral(n), p) || OccursAt(content, BracketLiteral(n), p)
    ensures !SectionValidation(name, content).isValid
    ensures n in SectionValidation(name, content).unreplacedVariables
  {
    assert Marked(content, n);
    SectionValidationSpec(name, content);
  }

  /** The length warnings: a word-count warning exactly when there are fewer than 10 words,
      and a minimal-content warning exactly when the stripped text is under 20 characters. */
  lemma ContentWarningsSpec(content: string)
    ensures |ContentWarnings(content)| <= 2
    ensures forall w: nat :: SeemsShort(w) in ContentWarnings(content) <==>
      w == WordCount(content) && w < MinSectionWords
    ensures AppearsMinimal in ContentWarnings(content) <==> |Strip(content)| < MinMeaningfulLength
  {
  }

  /** A suggestion is made exactly when the section name mentions its topic (case-insensitively)
      and the content mentions none of the topic's keywords; there are at most three. */
  lemma ContentSuggestionsSpec(name: string, content: string)
    ensures |ContentSuggestions(name, content)| <= 3
    ensures SpecifyResponsibilities in ContentSuggestions(name, content) <==>
      Contains(Lower(name), "role") && forall w :: w in RoleKeywords ==> !Contains(Lower(content), w)
    ensures SpecifyInputs in ContentSuggestions(name, content) <==>
      Contains(Lower(name), "input") && forall w :: w in InputKeywords ==> !Contains(Lower(content), w)
    ensures SpecifyOutputFormat in ContentSuggestions(name, content) <==>
      (Contains(Lower(name), "output") || Contains(Lower(name), "requirement"))
      && forall w :: w in OutputKeywords ==> !Contains(Lower(content), w)
  {
    MentionsAnyIn(Lower(content), RoleKeywords);
    MentionsAnyIn(Lower(content), InputKeywords);
    MentionsAnyIn(Lower(content), OutputKeywords);
  }

  lemma MentionsAnyIn(text: string, words: seq<string>)
    ensures MentionsAny(text, words) <==> exists w :: w in words && Contains(text, w)
  {
    if exists w :: w in words && Contains(text, w) {
      var w :| w in words && Contains(text, w);
      var i :| 0 <= i < |words| && words[i] == w;
    }
  }

  // ---------------------------------------------------------------------------------
  // Document generation

  /** `section.name in section_data and section_data[section.name]` */
  predicate Provided(data: map<string, string>, name: string) {
    name in data && data[name] != ""
  }

  /** The text after the section loop of `generate_document` has handled `ss`, starting from
      `t`: for each section with user content whose own content is not blank, the user
      content goes after the first occurrence of that content. */
  function AppendSections(t: string, ss: seq<TemplateSection>, n: nat, data: map<string, string>): string
    requires n <= |ss|
  {
    if n == 0 then t else AppendSection(AppendSections(t, ss, n - 1, data), ss[n - 1], data)
  }

  /** One turn of that loop on the text `t`, for the section `v`. */
  function AppendSection(t: string, v: TemplateSection, data: map<string, string>): string {
    if Provided(data, v.name) && Strip(v.content) != "" then
      ReplaceFirst(t, v.content, v.content + "\n\n" + data[v.name])
    else t
  }

  /** The indices, among the first `n` sections of `ss`, of the sections with user content. */
  function ProvidedAmong(ss: seq<TemplateSection>, n: nat, data: map<string, string>): (ks: seq<nat>)
    requires n <= |ss|
    ensures forall i :: 0 <= i < |ks| ==> ks[i] < n && Provided(data, ss[ks[i]].name)
  {
    if n == 0 then []
    else ProvidedAmong(ss, n - 1, data) + if Provided(data, ss[n - 1].name) then [n - 1] else []
  }

  /** The validations the section loop collects over the first `n` sections of `ss`: one per
      section with user content, in the order of the sections. */
  function SectionValidations(ss: seq<TemplateSection>, n: nat, data: map<string, string>): seq<Validation>
    requires n <= |ss|
  {
    ValidationsOf(ss, ProvidedAmong(ss, n, data), data)
  }

  /** The validations of the user content of the sections at the indices `ks`, in order. */
  function ValidationsOf(ss: seq<TemplateSection>, ks: seq<nat>, data: map<string, string>): (vs: seq<Validation>)
    requires forall i :: 0 <= i < |ks| ==> ks[i] < |ss| && Provided(data, ss[ks[i]].name)
    ensures |vs| == |ks|
    decreases |ks|
  {
    if ks == [] then []
    else
      var k := ks[|ks| - 1];
      assert Provided(data, ss[k].name);
      ValidationsOf(ss, ks[..|ks| - 1], data) + [SectionValidation(ss[k].name, data[ss[k].name])]
  }

  /** The final validation added when the document still holds markers. */
  function DocumentValidation(names: seq<string>): Validation {
    Validation(false, "Document", [DocumentStillUnreplaced(names)], [], [], names)
  }

  /** The final pass over the document `doc`. */
  function FinalValidations(doc: string): seq<Validation> {
    var left := SimpleNames(doc);
    if left == [] then [] else [DocumentValidation(left)]
  }

  /** The document `generate_document` returns. */
  function Generated(template: string, data: map<string, string>, values: seq<(string, string)>): string {
    var base := Substitute(template, values);
    AppendSections(base, Sections(base), |Sections(base)|, data)
  }

  /** The validations `generate_document` returns. */
  function GeneratedValidations(template: string, data: map<string, string>,
                                values: seq<(string, string)>): seq<Validation>
  {
    var base := Substitute(template, values);
    SectionValidations(Sections(base), |Sections(base)|, data) + FinalValidations(Generated(template, data, values))
  }

  /** `generate_document`; the variable dictionary is given as its items in iteration order.
      Its substitution loop is the same as `substitute_variables` of the template parser. */
  method GenerateDocument(templateContent: string, sectionData: map<string, string>,
                          variableData: seq<(string, string)>)
    returns (result: string, validations: seq<RealTimeValidation>)
    ensures result == Generated(templateContent, sectionData, variableData)
    ensures Views(validations) == GeneratedValidations(templateContent, sectionData, variableData)
  {
    result := TemplateParser.SubstituteVariables(templateContent, variableData);
    var sections := ExtractSections(result);
    result, validations := FillSections(result, sections, sectionData);
    var finalUnreplaced := ExtractVariablesFromText(result);
    if finalUnreplaced != [] {
      var final := new RealTimeValidation(false, "Document", [DocumentStillUnreplaced(finalUnreplaced)],
                                          [], [], finalUnreplaced);
      ViewsAppend(validations, final);
      validations := validations + [final];
    }
  }

  /** The results the validation objects `vs` hold, in order. */
  function Views(vs: seq<RealTimeValidation>): (ws: seq<Validation>)
    reads set v | v in vs
  {
    if vs == [] then [] else Views(vs[..|vs| - 1]) + [vs[|vs| - 1].View()]
  }

  lemma ViewsAppend(vs: seq<RealTimeValidation>, v: RealTimeValidation)
    ensures Views(vs + [v]) == Views(vs) + [v.View()]
  {
    assert (vs + [v])[..|vs|] == vs;
  }

  /** The section loop of `generate_document` over `sections`, from the text `base`. */
  method FillSections(base: string, sections: seq<TemplateSection>, sectionData: map<string, string>)
    returns (result: string, validations: seq<RealTimeValidation>)
    ensures result == AppendSections(base, sections, |sections|, sectionData)
    ensures Views(validations) == SectionValidations(sections, |sections|, sectionData)
  {
    result := base;
    validations := [];
    var j := 0;
    while j < |sections|
      invariant 0 <= j <= |sections|
      invariant result == AppendSections(base, sections, j, sectionData)
      invariant Views(validations) == SectionValidations(sections, j, sectionData)
    {
      result, validations := FillSection(base, sections, j, sectionData, result, validations);
      j := j + 1;
    }
  }

  /** Turn `j` of the section loop of `generate_document`: with user content for section `j`,
      its validation is appended and, when the section's own content is not blank, the user
      content goes after the first occurrence of that content. */
  method FillSection(base: string, sections: seq<TemplateSection>, j: nat, sectionData: map<string, string>,
                     text: string, validations: seq<RealTimeValidation>)
    returns (result: string, validations': seq<RealTimeValidation>)
    requires j < |sections| && text == AppendSections(base, sections, j, sectionData)
    requires Views(validations) == SectionValidations(sections, j, sectionData)
    ensures result == AppendSections(base, sections, j + 1, sectionData)
    ensures Views(validations') == SectionValidations(sections, j + 1, sectionData)
  {
    var section := sections[j];
    ghost var prevViews := Views(validations);
    result, validations' := text, validations;
    if section.name in sectionData && sectionData[section.name] != "" {
      var userContent := sectionData[section.name];
      var validation := ValidateSectionContent(section.name, userContent);
      ViewsAppend(validations, validation);
      validations' := validations + [validation];
      if Strip(section.content) != "" {
        result := ReplaceFirst(result, section.content, section.content + "\n\n" + userContent);
      }
    }
    SectionLoopStep(base, sections, j, sectionData, text, result, prevViews, Views(validations'));
  }

  /** One more section handled by the loop of `generate_document`. */
  lemma SectionLoopStep(base: string, ss: seq<TemplateSection>, j: nat, data: map<string, string>,
                        prevText: string, nextText: string, prevViews: seq<Validation>,
                        nextViews: seq<Validation>)
    requires j < |ss| && prevText == AppendSections(base, ss, j, data)
    requires prevViews == SectionValidations(ss, j, data)
    requires nextText == AppendSection(prevText, ss[j], data)
    requires nextViews == if Provided(data, ss[j].name) then
      prevViews + [SectionValidation(ss[j].name, data[ss[j].name])] else prevViews
    ensures nextText == AppendSections(base, ss, j + 1, data)
    ensures nextViews == SectionValidations(ss, j + 1, data)
  {
    ValidationsStep(ss, j, data);
  }

  /** One more section handled: its validation is added exactly when it has user content. */
  lemma ValidationsStep(ss: seq<TemplateSection>, j: nat, data: map<string, string>)
    requires j < |ss|
    ensures SectionValidations(ss, j + 1, data) == if Provided(data, ss[j].name) then
      SectionValidations(ss, j, data) + [SectionValidation(ss[j].name, data[ss[j].name])]
      else SectionValidations(ss, j, data)
  {
    var ks, ks' := ProvidedAmong(ss, j, data), ProvidedAmong(ss, j + 1, data);
    if Provided(data, ss[j].name) {
      assert ks' == ks + [j];
      assert ks'[..|ks|] == ks;
    } else {
      assert ks' == ks;
    }
  }

  /** Sections without user content leave the text as it is and add no validation. */
  lemma {:induction false} AppendSectionsUntouched(t: string, ss: seq<TemplateSection>, n: nat,
                                                   data: map<string, string>)
    requires n <= |ss| && forall k :: 0 <= k < n ==> !Provided(data, ss[k].name)
    ensures AppendSections(t, ss, n, data) == t
    ensures SectionValidations(ss, n, data) == []
  {
    if n > 0 {
      AppendSectionsUntouched(t, ss, n - 1, data);
    }
  }

  /** The sections that get a validation are exactly those with user content, in order. */
  lemma {:induction false} ProvidedAmongSpec(ss: seq<TemplateSection>, n: nat, data: map<string, string>)
    requires n <= |ss|
    ensures forall k: nat :: k in ProvidedAmong(ss, n, data) <==> k < n && Provided(data, ss[k].name)
    ensures forall i, j :: 0 <= i < j < |ProvidedAmong(ss, n, data)| ==>
      ProvidedAmong(ss, n, data)[i] < ProvidedAmong(ss, n, data)[j]
  {
    if n > 0 {
      ProvidedAmongSpec(ss, n - 1, data);
    }
  }

  /** With no section content from the user, the document is the template with its variables
      substituted, and the only validation is the final one, present exactly when markers remain. */
  lemma GeneratedWithoutSectionData(template: string, values: seq<(string, string)>)
    ensures Generated(template, map[], values) == Substitute(template, values)
    ensures GeneratedValidations(template, map[], values) == FinalValidations(Substitute(template, values))
  {
    var base := Substitute(template, values);
    AppendSectionsUntouched(base, Sections(base), |Sections(base)|, map[]);
  }

  /** Every marker left in the document is reported: the final pass adds one validation,
      invalid and naming exactly the markers left; with no marker left it adds none. */
  lemma FinalValidationsSpec(doc: string)
    ensures (exists n :: Marked(doc, n)) ==>
      |FinalValidations(doc)| == 1 && !FinalValidations(doc)[0].isValid
      && FinalValidations(doc)[0].sectionName == "Document"
      && forall n :: n in FinalValidations(doc)[0].unreplacedVariables <==> Marked(doc, n)
    ensures (forall n :: !Marked(doc, n)) ==> FinalValidations(doc) == []
  {
    SimpleNamesSpec(doc);
    assert SimpleNames(doc) != [] ==> Marked(doc, SimpleNames(doc)[0]);
    if exists n :: Marked(doc, n) {
      var n :| Marked(doc, n);
      assert n in SimpleNames(doc);
    }
  }

  /** A section with user content and non-blank own content puts the user content, after a
      blank line, right behind the first occurrence of its own content in the text so far. */
  lemma AppendSectionInserts(t: string, v: TemplateSection, data: map<string, string>)
    requires Provided(data, v.name) && Strip(v.content) != "" && Contains(t, v.content)
    ensures var e := Find(t, v.content) + |v.content|;
      AppendSection(t, v, data) == t[..e] + "\n\n" + data[v.name] + t[e..]
  {
    ReplaceFirstAppends(t, v.content, "\n\n", data[v.name]);
  }

  /** In every other case the text stays as it is. */
  lemma AppendSectionKeeps(t: string, v: TemplateSection, data: map<string, string>)
    requires !(Provided(data, v.name) && Strip(v.content) != "" && Contains(t, v.content))
    ensures AppendSection(t, v, data) == t
  {
  }

  // ---------------------------------------------------------------------------------
  // Wizard steps

  /** One wizard step configuration: a dictionary with fixed keys in the service. */
  datatype WizardStep = WizardStep(
    stepNumber: nat, sectionName: string, sectionLevel: nat, description: string,
    variables: seq<string>, questions: seq<Question>, originalContent: string)

  /** The `original_content` of a step: the content cut to 500 characters and `...`. */
  function Preview(c: string): string {
    if |c| > PreviewLimit then c[..PreviewLimit] + "..." else c
  }

  /** The preview keeps the first 500 characters of the content and is at most three longer;
      it is the content itself exactly when that is short or already cut in the same way. */
  lemma PreviewSpec(c: string)
    ensures |Preview(c)| == if |c| > PreviewLimit then PreviewLimit + 3 else |c|
    ensures |c| <= PreviewLimit ==> Preview(c) == c
    ensures |c| > PreviewLimit ==>
      Preview(c)[..PreviewLimit] == c[..PreviewLimit] && Preview(c)[PreviewLimit..] == "..."
    ensures Preview(c) == c <==> |c| <= PreviewLimit || (|c| == PreviewLimit + 3 && c[PreviewLimit..] == "...")
  {
    if |c| > PreviewLimit {
      var p := Preview(c);
      assert p[..PreviewLimit] == c[..PreviewLimit];
      if |c| == PreviewLimit + 3 && c[PreviewLimit..] == "..." {
        assert c == c[..PreviewLimit] + c[PreviewLimit..];
      }
    }
  }

  /** The step for the `i`-th section of `s`. */
  function StepOf(s: string, i: nat): WizardStep
    requires i < |Sections(s)|
  {
    var section := Sections(s)[i];
    WizardStep(i + 1, section.name, section.level, section.description, section.variables,
               Questions(section), Preview(section.content))
  }

  /** The steps `get_wizard_steps` returns: one per section, in order. */
  function WizardSteps(s: string): seq<WizardStep> {
    seq(|Sections(s)|, i requires 0 <= i < |Sections(s)| => StepOf(s, i))
  }

  /** `get_wizard_steps` */
  method GetWizardSteps(content: string) returns (steps: seq<WizardStep>)
    ensures steps == WizardSteps(content)
  {
    var sections := ExtractSections(content);
    steps := [];
    var i := 0;
    while i < |sections|
      invariant 0 <= i <= |sections|
      invariant steps == WizardSteps(content)[..i]
    {
      var section := sections[i];
      var questions := GetSectionQuestions(section);
      var step := WizardStep(i + 1, section.name, section.level, section.description,
                             section.variables, questions, Preview(section.content));
      assert step == StepOf(content, i);
      PrefixStep(WizardSteps(content), i, steps, step);
      steps := steps + [step];
      i := i + 1;
    }
    assert steps == WizardSteps(content);
  }

  /** The steps are numbered 1, 2, ... in the order of the sections; each step carries its
      section's name, level and variables, one question per variable and then one for the
      content; there is no step exactly when no heading matches. */
  lemma WizardStepsSpec(s: string)
    ensures |WizardSteps(s)| == |Sections(s)|
    ensures forall i :: 0 <= i < |WizardSteps(s)| ==>
      WizardSteps(s)[i].stepNumber == i + 1
      && WizardSteps(s)[i].sectionName == Sections(s)[i].name
      && WizardSteps(s)[i].sectionLevel == Sections(s)[i].level
      && |WizardSteps(s)[i].questions| == |Sections(s)[i].variables| + 1
      && WizardSteps(s)[i].questions[|Sections(s)[i].variables|].kind == ContentInput
    ensures WizardSteps(s) == [] <==> forall p: nat :: p <= |s| ==> HeadingAt(s, p).None?
  {
    SectionsEmpty(s);
    forall i | 0 <= i < |WizardSteps(s)|
      ensures WizardSteps(s)[i].stepNumber == i + 1
      ensures WizardSteps(s)[i].sectionName == Sections(s)[i].name
      ensures WizardSteps(s)[i].sectionLevel == Sections(s)[i].level
      ensures |WizardSteps(s)[i].questions| == |Sections(s)[i].variables| + 1
      ensures WizardSteps(s)[i].questions[|Sections(s)[i].variables|].kind == ContentInput
    {
      StepOfSpec(s, i);
    }
  }

  lemma StepOfSpec(s: string, i: nat)
    requires i < |Sections(s)|
    ensures WizardSteps(s)[i].stepNumber == i + 1
    ensures WizardSteps(s)[i].sectionName == Sections(s)[i].name
    ensures WizardSteps(s)[i].sectionLevel == Sections(s)[i].level
    ensures |WizardSteps(s)[i].questions| == |Sections(s)[i].variables| + 1
    ensures WizardSteps(s)[i].questions[|Sections(s)[i].variables|].kind == ContentInput
  {
    assert WizardSteps(s)[i] == StepOf(s, i);
    QuestionsSpec(Sections(s)[i]);
  }

  // ---------------------------------------------------------------------------------
  // Document compliance

  /** The issue and warning messages of a compliance report, by kind. */
  datatype ComplianceIssue = MissingRequiredSection(section: string) | UnreplacedVariablesDetected(names: seq<string>)

  datatype ComplianceWarning = DocumentShort(words: nat)

  /** The report `validate_document_compliance` returns: a dictionary with fixed keys. */
  datatype ComplianceReport = ComplianceReport(
    isCompliant: bool, complianceScore: int, missingSections: seq<string>,
    unreplacedVariables: seq<string>, issues: seq<ComplianceIssue>, warnings: seq<ComplianceWarning>)

  /** The headings of `req` whose lower-case form does not occur in `lc`, in order. */
  function Absent(lc: string, req: seq<string>): seq<string> {
    if req == [] then []
    else
      var rest := Absent(lc, req[..|req| - 1]);
      var h := req[|req| - 1];
      if !Contains(lc, Lower(h)) then rest + [h] else rest
  }

  function MissingIssues(missing: seq<string>): (r: seq<ComplianceIssue>)
    ensures |r| == |missing|
  {
    seq(|missing|, i requires 0 <= i < |missing| => MissingRequiredSection(missing[i]))
  }

  /** The score before it is clamped at 0: 20 points per missing section, 15 per distinct
      marker left and 5 for a short document, taken from 100. */
  function RawScore(missing: nat, unreplaced: nat, words: nat): int {
    100 - 20 * missing - 15 * unreplaced - if words < MinDocumentWords then 5 else 0
  }

  /** The report on `content`. */
  function Compliance(content: string): ComplianceReport {
    var missing := Absent(Lower(content), ComplianceSections);
    var unreplaced := SimpleNames(content);
    var words := WordCount(content);
    var raw := RawScore(|missing|, |unreplaced|, words);
    ComplianceReport(
      missing == [] && unreplaced == [],
      if raw < 0 then 0 else raw,
      missing, unreplaced,
      MissingIssues(missing) + (if unreplaced == [] then [] else [UnreplacedVariablesDetected(unreplaced)]),
      if words < MinDocumentWords then [DocumentShort(words)] else [])
  }

  /** The loop of `validate_document_compliance` over the required headings `req`. */
  method CheckRequired(report: ComplianceReport, lc: string, req: seq<string>) returns (r: ComplianceReport)
    ensures r == report.(missingSections := report.missingSections + Absent(lc, req),
                         complianceScore := report.complianceScore - 20 * |Absent(lc, req)|,
                         issues := report.issues + MissingIssues(Absent(lc, req)))
  {
    r := report;
    var i := 0;
    while i < |req|
      invariant 0 <= i <= |req|
      invariant r == report.(missingSections := report.missingSections + Absent(lc, req[..i]),
                             complianceScore := report.complianceScore - 20 * |Absent(lc, req[..i])|,
                             issues := report.issues + MissingIssues(Absent(lc, req[..i])))
    {
      var section := req[i];
      ghost var before := Absent(lc, req[..i]);
      assert req[..i + 1][..i] == req[..i];
      if !Contains(lc, Lower(section)) {
        assert Absent(lc, req[..i + 1]) == before + [section];
        assert MissingIssues(before + [section]) == MissingIssues(before) + [MissingRequiredSection(section)];
        r := r.(missingSections := r.missingSections + [section],
                complianceScore := r.complianceScore - 20,
                issues := r.issues + [MissingRequiredSection(section)]);
      } else {
        assert Absent(lc, req[..i + 1]) == before;
      }
      i := i + 1;
    }
    assert req[..i] == req;
  }

  /** `validate_document_compliance` */
  method ValidateDocumentCompliance(content: string) returns (report: ComplianceReport)
    ensures report == Compliance(content)
  {
    report := ComplianceReport(true, 100, [], [], [], []);
    var contentLower := Lower(content);
    report := CheckRequired(report, contentLower, ComplianceSections);
    var unreplaced := ExtractVariablesFromText(content);
    if unreplaced != [] {
      report := report.(unreplacedVariables := unreplaced,
                        complianceScore := report.complianceScore - 15 * |unreplaced|,
                        issues := report.issues + [UnreplacedVariablesDetected(unreplaced)]);
    }
    var wordCount := WordCount(content);
    if wordCount < MinDocumentWords {
      report := report.(warnings := report.warnings + [DocumentShort(wordCount)],
                        complianceScore := report.complianceScore - 5);
    }
    if report.missingSections != [] || report.unreplacedVariables != [] {
      report := report.(isCompliant := false);
    }
    report := report.(complianceScore := if report.complianceScore < 0 then 0 else report.complianceScore);
  }

  /** The headings reported missing are exactly the required ones that do not occur, ignoring
      case, and at most all three. */
  lemma {:induction false} AbsentSpec(lc: string, req: seq<string>)
    ensures forall h :: h in Absent(lc, req) <==> h in req && !Contains(lc, Lower(h))
    ensures |Absent(lc, req)| <= |req|
  {
    if req != [] {
      var init := req[..|req| - 1];
      AbsentSpec(lc, init);
      assert req == init + [req[|req| - 1]];
    }
  }

  /** Every missing required section and every marker is detected, each missing section has
      its issue, and the document is compliant exactly when nothing was detected. */
  lemma ComplianceDetects(content: string)
    ensures forall h :: h in Compliance(content).missingSections <==>
      h in ComplianceSections && !Contains(Lower(content), Lower(h))
    ensures forall n :: n in Compliance(content).unreplacedVariables <==> Marked(content, n)
    ensures forall h :: MissingRequiredSection(h) in Compliance(content).issues <==>
      h in Compliance(content).missingSections
    ensures |Compliance(content).issues| ==
      |Compliance(content).missingSections| + if Compliance(content).unreplacedVariables == [] then 0 else 1
    ensures Compliance(content).isCompliant <==>
      (forall h :: h in ComplianceSections ==> Contains(Lower(content), Lower(h)))
      && forall n :: !Marked(content, n)
  {
    var r := Compliance(content);
    AbsentSpec(Lower(content), ComplianceSections);
    SimpleNamesSpec(content);
    assert SimpleNames(content) != [] ==> Marked(content, SimpleNames(content)[0]);
    forall h ensures MissingRequiredSection(h) in r.issues <==> h in r.missingSections {
      if h in r.missingSections {
        var i :| 0 <= i < |r.missingSections| && r.missingSections[i] == h;
        assert r.issues[i] == MissingRequiredSection(h);
      }
      if MissingRequiredSection(h) in r.issues {
        var i :| 0 <= i < |r.issues| && r.issues[i] == MissingRequiredSection(h);
        if i < |r.missingSections| {
          assert r.missingSections[i] == h;
        }
      }
    }
    if r.missingSections != [] {
      assert r.missingSections[0] in r.missingSections;
    }
  }

  /** The score stays within 0 to 100; it is 100 exactly for a compliant document of at least
      50 words; a compliant document scores at least 95 and any other at most 85. */
  lemma ComplianceScoreSpec(content: string)
    ensures 0 <= Compliance(content).complianceScore <= 100
    ensures Compliance(content).complianceScore == 100 <==>
      Compliance(content).isCompliant && WordCount(content) >= MinDocumentWords
    ensures Compliance(content).isCompliant ==> Compliance(content).complianceScore >= 95
    ensures !Compliance(content).isCompliant ==> Compliance(content).complianceScore <= 85
  {
    AbsentSpec(Lower(content), ComplianceSections);
  }

  /** The compliance check and the template parser's required-section check report the same
      missing headings, in the same order. */
  lemma ComplianceAgrees(content: string)
    ensures Compliance(content).missingSections == TemplateParser.Missing(content)
  {
    var lc := Lower(content);
    var ds := TemplateParser.Detected(content);
    forall h | h in ComplianceSections ensures h in TemplateParser.Keys(ds) <==> Contains(lc, Lower(h)) {
      assert h in TemplateParser.AllSections;
      TemplateParser.DetectAmongKeys(lc, TemplateParser.AllSections, h);
    }
    AbsentIsMissing(lc, ds, ComplianceSections);
  }

  lemma {:induction false} AbsentIsMissing(lc: string, ds: seq<TemplateParser.DetectedSection>, req: seq<string>)
    requires forall h :: h in req ==> (h in TemplateParser.Keys(ds) <==> Contains(lc, Lower(h)))
    ensures Absent(lc, req) == TemplateParser.MissingAmong(ds, req)
  {
    if req != [] {
      var init := req[..|req| - 1];
      assert forall h :: h in init ==> h in req;
      AbsentIsMissing(lc, ds, init);
    }
  }

  /** The partial document of the compliance tests: the role heading and one line. */
  const RoleOnly: string := "## Your Role\nJust a partial document.\n"

  lemma RoleOnlyLower()
    ensures Lower(RoleOnly) == "## your role\njust a partial document.\n"
  {
  }

  lemma RoleOnlyPlain()
    ensures Plain(RoleOnly) && |RoleOnly| < MinDocumentWords
  {
  }

  /** The lower-cased partial document holds `#` only in its first two characters, and they
      are followed by ` y`. */
  lemma RoleOnlyHashes()
    ensures var lc := Lower(RoleOnly);
      OnlyRoleHashes(lc, 0)
  {
    RoleOnlyLower();
  }

  lemma RoleOnlyHasRole()
    ensures Contains(Lower(RoleOnly), Lower("## Your Role"))
  {
    RoleOnlyLower();
    var lc := Lower(RoleOnly);
    assert Lower("## Your Role") == "## your role";
    assert lc[..12] == "## your role";
    assert OccursAt(lc, Lower("## Your Role"), 0);
  }

  /** `lc` holds `#` only at `o` and `o + 1`, and these are followed by ` y`. */
  predicate OnlyRoleHashes(lc: string, o: nat) {
    o + 3 < |lc| && lc[o + 2] == ' ' && lc[o + 3] == 'y' &&
    forall j :: 0 <= j < |lc| && j != o && j != o + 1 ==> lc[j] != '#'
  }

  /** A heading starting `## ` followed by anything but `y` does not occur in such a text. */
  lemma LacksHeading(lc: string, o: nat, h: string)
    requires OnlyRoleHashes(lc, o)
    requires |h| >= 4 && h[..3] == "## " && h[3] != 'y'
    ensures !Contains(lc, h)
  {
    forall j: nat ensures !OccursAt(lc, h, j) {
      assert h[0] == '#' && h[1] == '#';
      OccursAtChar(lc, h, j, 0);
      OccursAtChar(lc, h, j, 1);
      OccursAtChar(lc, h, j, 3);
    }
  }

  /** A text holding the role heading and neither of the others misses those two, in order. */
  lemma AbsentAllButRole(lc: string)
    requires Contains(lc, Lower("## Your Role"))
    requires !Contains(lc, Lower("## Input")) && !Contains(lc, Lower("## Output Requirements"))
    ensures Absent(lc, ComplianceSections) == ["## Input", "## Output Requirements"]
  {
    var one: seq<string> := ["## Your Role"];
    var two: seq<string> := ["## Your Role", "## Input"];
    assert one[..0] == [];
    assert Absent(lc, one) == [];
    assert two[..1] == one;
    assert Absent(lc, two) == ["## Input"];
    assert ComplianceSections[..2] == two;
  }

  /** The partial document misses the other two required headings, in the fixed order. */
  lemma AbsentRoleOnly()
    ensures Absent(Lower(RoleOnly), ComplianceSections) == ["## Input", "## Output Requirements"]
  {
    var lc := Lower(RoleOnly);
    RoleOnlyHasRole();
    RoleOnlyHashes();
    assert Lower("## Input") == "## input";
    LacksHeading(lc, 0, "## input");
    assert Lower("## Output Requirements") == "## output requirements";
    LacksHeading(lc, 0, "## output requirements");
    AbsentAllButRole(lc);
  }

  /** The compliance test on the partial document: not compliant, the two headings missing,
      nothing unreplaced, and a score of 100 - 2 * 20 - 5 = 55. */
  lemma RoleOnlyReport()
    ensures !Compliance(RoleOnly).isCompliant
    ensures Compliance(RoleOnly).missingSections == ["## Input", "## Output Requirements"]
    ensures Compliance(RoleOnly).unreplacedVariables == []
    ensures Compliance(RoleOnly).complianceScore == 55
  {
    AbsentRoleOnly();
    RoleOnlyPlain();
    PlainUnmarked(RoleOnly);
    ComplianceDetects(RoleOnly);
    ComplianceScoreSpec(RoleOnly);
  }

  /** The template parser's required-section check gives the same answer for that document. */
  lemma MissingRoleOnly()
    ensures TemplateParser.Missing(RoleOnly) == ["## Input", "## Output Requirements"]
  {
    ComplianceAgrees(RoleOnly);
    AbsentRoleOnly();
  }

  /** The partial template of the template parser's tests: a blank line, the role heading and
      one line. */
  const RoleDeveloper: string := "\n## Your Role\nDeveloper\n"

  lemma RoleDeveloperLower()
    ensures Lower(RoleDeveloper) == "\n" + "## your role" + "\ndeveloper\n"
  {
  }

  lemma RoleDeveloperHashes()
    ensures OnlyRoleHashes(Lower(RoleDeveloper), 1)
  {
    RoleDeveloperLower();
  }

  lemma RoleDeveloperHasRole()
    ensures Contains(Lower(RoleDeveloper), Lower("## Your Role"))
  {
    RoleDeveloperLower();
    var lc := Lower(RoleDeveloper);
    assert Lower("## Your Role") == "## your role";
    assert lc[1..13] == "## your role";
    assert OccursAt(lc, Lower("## Your Role"), 1);
  }

  /** `check_required_sections` on that template: not valid, the other two headings missing,
      in order. */
  lemma MissingRoleDeveloper()
    ensures TemplateParser.Missing(RoleDeveloper) == ["## Input", "## Output Requirements"]
  {
    var lc := Lower(RoleDeveloper);
    RoleDeveloperHasRole();
    RoleDeveloperHashes();
    assert Lower("## Input") == "## input";
    LacksHeading(lc, 1, "## input");
    assert Lower("## Output Requirements") == "## output requirements";
    LacksHeading(lc, 1, "## output requirements");
    AbsentAllButRole(lc);
    ComplianceAgrees(RoleDeveloper);
  }
}
