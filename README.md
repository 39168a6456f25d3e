# BMAD Forge template services in Dafny

This project models the two string services of BMAD Forge. BMAD Forge is a tool that turns Markdown prompt templates into filled-in prompt documents.

- **`TemplateParser`** reads a template and does five things.
  - It finds the variable markers `{{NAME}}`, `{{NAME:DEFAULT}}`, `[NAME]` and `[NAME:DEFAULT]`.
  - It finds the nine policy headings by case-insensitive search. Three of them are required: `## Your Role`, `## Input` and `## Output Requirements`.
  - It builds a validation report.
  - It substitutes values for markers, literally and in order.
  - It lists the markers that are still present.
- **`DocumentGenerator`** does six things.
  - It cuts a template into Markdown sections at lines that start with 1 to 6 `#` characters.
  - It gives each section a description of at most 150 characters.
  - It turns each section into a wizard step with questions.
  - It validates what the user types into a section: markers left, length warnings and keyword suggestions.
  - It assembles the final document from the section and variable inputs.
  - It scores the compliance of a document from 0 to 100 and gives a verdict.

Each service method becomes a Dafny `method` with the same loops as the Python code. Each method is proved equal to a specification function, and lemmas prove what the services promise about those functions. The regular expressions are written as hand-made matchers, one per pattern. Each matcher tries the pattern at one index and is proved equal to a declarative description of the pattern's language and of the engine's greedy choices. A left-to-right, non-overlapping scan (`finditer`) runs on top of each matcher.

Modules, one file each:

- `Wrappers`: `Option`.
- `Text`: the Python `str` operations used, modelled on ASCII: `lower`, `title`, `find`, `replace` (all occurrences or the first), `strip`, `split('\n')`, `' '.join`, word count and character runs.
- `StringOrder`: Python's ordering of strings, and `sorted()` of a set of names.
- `Sequences`: a fact about the loops that copy a sequence one element at a time.
- `Markers`: the simple pattern `\{\{(\w+)\}\}|\[(\w+)\]`, which both services use.
- `Substitution`: the sequential literal substitution, and what it does to the markers of a template. A template is read as a sequence of pieces: plain text, or the literal marker of a name.
- `VariablePatterns`: the template parser's two patterns with defaults.
- `Headings`: the heading pattern `^(#{1,6})\s+(.+)$` under `re.MULTILINE`.
- `TemplateParser` and `DocumentGenerator`: the two services.

`RealTimeValidation` is a class, because `validate_section_content` and `_add_content_suggestions` update its fields in place. The other results are Python dictionaries with fixed keys, and they are modelled as datatypes: the template report, wizard steps, questions and the compliance report. Messages are datatype constructors that carry the data the f-string interpolates.

## Model

| member | source | states |
|---|---|---|
| TemplateParser.ExtractVariables | bmad_forge/forge/services/template_parser.py:50-85 | The two `finditer` loops with their membership checks return exactly the brace occurrences, then the bracket occurrences, in scan order. No occurrence is dropped as a duplicate. |
| TemplateParser.VariablesIncreasing | bmad_forge/forge/services/template_parser.py:63-83 | Within each syntax, the start positions of the occurrences strictly increase. |
| TemplateParser.OccurrencesOrdered | bmad_forge/forge/services/template_parser.py:63-85 | No brace occurrence comes after a bracket occurrence. Two occurrences of the same syntax appear in order of their start positions. |
| TemplateParser.NotListed | bmad_forge/forge/services/template_parser.py:71-72 | An occurrence is not yet in the list when it starts after every listed occurrence of its syntax. So the `var not in variables` check never fires. |
| TemplateParser.BraceOccurrence | bmad_forge/forge/services/template_parser.py:63-72 | Each brace occurrence has these fields. `content[start_pos:end_pos]` is the whole `{{...}}` marker. The name is the text before the first `:` and is a `\w+` run. There is a default exactly when the inner text holds a `:`. The default runs from that `:` to the next `:` or to the end. |
| TemplateParser.BraceMatchFields | bmad_forge/forge/services/template_parser.py:64-70 | A match of the brace pattern gives an occurrence with the fields described for `BraceOccurrence`. |
| TemplateParser.BraceGroupFields | bmad_forge/forge/services/template_parser.py:65-69 | For the text inside a brace marker, `split(':')[0]` is the name and `split(':')[1]` is the default up to the second colon. |
| TemplateParser.BracketOccurrence | bmad_forge/forge/services/template_parser.py:75-83 | Each bracket occurrence has these fields. `content[start_pos:end_pos]` is the whole `[...]` marker. Its name is the whole inner text, so a `:default` stays part of the name. It never has a default. |
| TemplateParser.BracketMatchFields | bmad_forge/forge/services/template_parser.py:76-81 | A match of the bracket pattern gives an occurrence with the fields described for `BracketOccurrence`. |
| TemplateParser.OccurrencesCover | bmad_forge/forge/services/template_parser.py:63-83 | Every text of the brace pattern or the bracket pattern in the content lies inside a reported occurrence of the same syntax. |
| TemplateParser.MatchCovering | bmad_forge/forge/services/template_parser.py:63 | Every text of the pattern lies inside one of the matches that `finditer` reports. |
| TemplateParser.MarkerScanIncreasing | bmad_forge/forge/services/template_parser.py:63 | The matches of one scan have strictly increasing start positions. |
| TemplateParser.ExtractVariablesSimple | bmad_forge/forge/services/template_parser.py:88-103 | The result is strictly sorted, so it has no duplicates. It lists exactly the names whose literal `{{name}}` or `[name]` occurs in the content. |
| TemplateParser.DetectSections | bmad_forge/forge/services/template_parser.py:106-125 | The loop returns the dictionary of detected policy headings with their spans, in insertion order. |
| TemplateParser.DetectAmongLoop | bmad_forge/forge/services/template_parser.py:119-123 | The loop over the headings adds an entry exactly for each heading whose lower-cased form is found. |
| TemplateParser.DetectAmongSpans | bmad_forge/forge/services/template_parser.py:119-123 | Each detected heading maps to `(p, p + len(heading))`. Here `p` is the first occurrence of its lower-cased form in the lower-cased text. |
| TemplateParser.DetectAmongKeys | bmad_forge/forge/services/template_parser.py:119-123 | A policy heading is a key exactly when its lower-cased form occurs in the lower-cased text. |
| TemplateParser.KeysAmong | bmad_forge/forge/services/template_parser.py:116-125 | Only policy headings are keys. |
| TemplateParser.DetectAmongOrdered | bmad_forge/forge/services/template_parser.py:119-125 | The keys follow the order of `ALL_SECTIONS`. |
| TemplateParser.CheckRequiredSections | bmad_forge/forge/services/template_parser.py:128-145 | It returns `(len(missing) == 0, missing)`. A required heading is in `missing` exactly when its lower-cased form does not occur in the lower-cased text. |
| TemplateParser.MissingAmongSpec | bmad_forge/forge/services/template_parser.py:141-143 | A heading is missing exactly when it is required and not detected. There are never more missing headings than required ones. |
| TemplateParser.MissingSpec | bmad_forge/forge/services/template_parser.py:138-145 | A required heading is missing exactly when it does not occur, ignoring case. Nothing is missing exactly when all three required headings occur. |
| TemplateParser.MissingAmongOrdered | bmad_forge/forge/services/template_parser.py:141-143 | The missing headings keep the order of `REQUIRED_SECTIONS`. |
| TemplateParser.ValidateTemplate | bmad_forge/forge/services/template_parser.py:148-191 | The template is valid exactly when no required heading is missing. Otherwise there is exactly one error, and it names the missing headings. The "no variables" warning appears exactly when there are no occurrences. There is one summary per occurrence, in order. The sections are the detected keys. |
| TemplateParser.SubstituteVariables | bmad_forge/forge/services/template_parser.py:194-213 | For each pair in iteration order, every `{{k}}` and then every `[k]` is replaced by the value. |
| TemplateParser.FindUnreplacedVariables | bmad_forge/forge/services/template_parser.py:216-232 | The result equals `extract_variables_simple`, because every extracted name's literal marker is present. It is sorted and lists exactly the names whose marker is present. |
| Markers.NameAtIsLiteral | bmad_forge/forge/services/template_parser.py:98 | Every match of the simple pattern is the literal `{{n}}` or `[n]` of the `\w+` name `n` it captures. |
| Markers.LiteralIsNameAt | bmad_forge/forge/services/template_parser.py:98 | Conversely, at every literal `{{n}}` or `[n]` the simple pattern matches and captures `n`. |
| Markers.NameAtNoneInside | bmad_forge/forge/services/template_parser.py:98-99 | No match of the simple pattern starts strictly inside another match. |
| Markers.NameScanFinds | bmad_forge/forge/services/template_parser.py:99 | The `findall` scan misses no match of the pattern. |
| Markers.ScanNamesMarked | bmad_forge/forge/services/template_parser.py:98-102 | A name is captured exactly when its literal marker occurs. |
| Markers.ExtractNames | webapp/forge/services/document_generator.py:94-101 | The set loop returns the sorted, duplicate-free names whose literal markers occur. |
| Markers.SimpleNamesSpec | bmad_forge/forge/services/template_parser.py:98-103 | The simple extraction is strictly sorted, and a name is in it exactly when its literal `{{name}}` or `[name]` occurs. |
| Markers.SimpleNamesEmpty | bmad_forge/forge/services/template_parser.py:98-103 | The simple extraction is empty exactly when the pattern matches nowhere. |
| Substitution.SubstituteAbsent | bmad_forge/forge/services/template_parser.py:205-213 | Keys whose markers do not occur leave the text unchanged. This covers the empty dictionary. |
| Substitution.SubstituteKeeps | bmad_forge/forge/services/template_parser.py:207-213 | For any text and any values, the marker of a name that is not a key is still present after the loop, as long as the keys hold no brace or bracket. |
| Substitution.ReplacePieces | bmad_forge/forge/services/template_parser.py:209-211 | On a template whose every brace and bracket belongs to a literal `{{n}}` or `[n]` marker, `replace` of a marker turns exactly the pieces that are that marker into the value, and keeps every other piece. |
| Substitution.SubstituteWellFormed | bmad_forge/forge/services/template_parser.py:205-213 | On such a template, with values and keys free of braces and brackets, a name is still marked after the loop exactly when it was marked before and is not a key. |
| Substitution.UnreplacedAfterSubstitute | bmad_forge/forge/services/template_parser.py:205-232 | Under the same conditions, `find_unreplaced_variables` after the substitution reports exactly the names the template marked that are not keys. |
| Substitution.RoundTrip | bmad_forge/forge/services/template_parser.py:205-232 | Under the same conditions, values for every extracted name leave nothing unreplaced. |
| Substitution.SubstituteExample | webapp/tests/test_services.py:88-95 | `"Hello {{name}}, you work at {{company}}."` with `name` as `Alice` and `company` as `ACME` becomes `"Hello Alice, you work at ACME."`, in which no marker is left. |
| Substitution.PartialSubstituteExample | webapp/tests/test_services.py:97-106 | Substituting only `name` into `"Hello {{name}}, {{greeting}}!"` leaves exactly `["greeting"]` unreplaced. |
| Substitution.NestedMarkerRecreated | bmad_forge/forge/services/template_parser.py:205-213 | Without those conditions the round trip fails. In `{{{{k}}}}` only `k` is marked, yet replacing `{{k}}` by `k` gives `{{k}}`, which still marks `k`. |
| Substitution.BraceLiteralMissesDefaulted | bmad_forge/forge/services/template_parser.py:209 | For a `\w+` key `k` and a default without braces, replacing `{{k}}` leaves the defaulted marker `{{n:d}}` unchanged. |
| Substitution.BraceLiteralInDefault | bmad_forge/forge/services/template_parser.py:28 | A default may hold `{`: `{{a:{{k}}` is a defaulted brace marker, and replacing `{{k}}` by `v` turns it into `{{a:v`. |
| StringOrder.Sorted | bmad_forge/forge/services/template_parser.py:103 | `sorted(list(s))` of a set of names is strictly sorted and holds exactly the set's elements. |
| StringOrder.SortedUniqueSpec | bmad_forge/forge/services/template_parser.py:100-103 | The sorted, duplicate-free list of a list's names is strictly sorted and has the same elements. |
| StringOrder.SortedUniqueness | bmad_forge/forge/services/template_parser.py:103 | Two strictly sorted lists with the same elements are equal. |
| StringOrder.LessTotal | bmad_forge/forge/services/template_parser.py:103 | Python's string order is total on distinct strings. It is also irreflexive, by `LessIrreflexive`, and transitive, by `LessTransitive`. |
| VariablePatterns.MarkerAtSound | bmad_forge/forge/services/template_parser.py:28-29 | Every match found is a text of the pattern's language, and its `group(1)` is the text between the delimiters. |
| VariablePatterns.MarkerAtComplete | bmad_forge/forge/services/template_parser.py:28-29 | Every text of the pattern's language at an index is exactly the match found there. |
| VariablePatterns.MarkerScanFound | bmad_forge/forge/services/template_parser.py:63 | Each match that `finditer` reports is the pattern's match at its start. |
| VariablePatterns.MarkerScanCovers | bmad_forge/forge/services/template_parser.py:75 | A match of the pattern that the scan does not report lies inside one that it does report. |
| Headings.HeadingAtSound | webapp/forge/services/document_generator.py:40 | Every heading found is a match of `^(#{1,6})\s+(.+)$` under `re.MULTILINE`. |
| Headings.HeadingAtGreedy | webapp/forge/services/document_generator.py:40 | Wherever the pattern can match, a heading is found. The heading found has the only possible `#` run and the longest `\s+`. |
| Headings.HeadingNameOnNextLine | webapp/forge/services/document_generator.py:40 | `\s+` crosses a newline: a bare `#` line takes its name from the next line. |
| Headings.HeadingScanFound | webapp/forge/services/document_generator.py:59 | Each heading reported is the pattern's match at its start. |
| Headings.HeadingScanCovers | webapp/forge/services/document_generator.py:59 | A heading match that is not reported lies inside one that is. |
| Headings.HeadingMatchesEmpty | webapp/forge/services/document_generator.py:59 | The scan finds nothing exactly when the pattern matches nowhere. |
| Text.ReplaceFirstAppends | webapp/forge/services/document_generator.py:279-281 | Replacing the first `c` by `c + sep + x` puts `sep + x` right after the first occurrence of `c`. |
| Text.StrippedSlice | webapp/forge/services/document_generator.py:72 | `s[lo:hi].strip()` is a slice of `s` between `lo` and `hi`, with only whitespace around it. |
| DocumentGenerator.ExtractSections | webapp/forge/services/document_generator.py:48-91 | The loop returns one section per heading match, in order. |
| DocumentGenerator.SectionsEmpty | webapp/forge/services/document_generator.py:58-61 | There are no sections exactly when no line matches the heading pattern. |
| DocumentGenerator.SectionHeading | webapp/forge/services/document_generator.py:59-63 | Each section starts at a heading match. Its level is the `#` count, from 1 to 6. Its name is the stripped `group(2)`. |
| DocumentGenerator.SectionBounds | webapp/forge/services/document_generator.py:64-85 | `start_pos` is where the heading match starts, and `end_pos` is where the next match starts or the end of the text. |
| DocumentGenerator.SectionsChain | webapp/forge/services/document_generator.py:66-70 | Section i's `end_pos` is section i+1's `start_pos`. The last section's `end_pos` is the length of the content. |
| DocumentGenerator.SectionsOrdered | webapp/forge/services/document_generator.py:59-70 | Start positions strictly increase, and sections do not overlap. |
| DocumentGenerator.HeadingsOrdered | webapp/forge/services/document_generator.py:59-70 | A heading match starts before the end of its section, and that end comes no later than any later match. |
| DocumentGenerator.SectionContent | webapp/forge/services/document_generator.py:64-72 | A section's content is the text from the end of its heading match to `end_pos`, with the whitespace around it cut off. |
| DocumentGenerator.SectionContentIs | webapp/forge/services/document_generator.py:72 | The content is `content[match.end():end_pos].strip()`. |
| DocumentGenerator.SectionVariables | webapp/forge/services/document_generator.py:72-78 | A section's variables are the sorted names whose markers occur in its content. Its description is the one its content gives. |
| DocumentGenerator.ExtractVariablesFromText | webapp/forge/services/document_generator.py:94-101 | The result is the sorted, duplicate-free list of names of the simple pattern. |
| DocumentGenerator.GenerateSectionDescription | webapp/forge/services/document_generator.py:104-117 | The loop over the first three lines returns the specified description. |
| DocumentGenerator.KeepLines | webapp/forge/services/document_generator.py:109-112 | The loop over the lines looked at returns their stripped forms that are non-empty and not structural, in order. |
| DocumentGenerator.TruncatedSpec | webapp/forge/services/document_generator.py:114-117 | A one-line text stays on one line and within 150 characters. It is kept as it is when it fits, and otherwise cut to its first 147 characters followed by `...`. |
| DocumentGenerator.IsStructuralPrefixes | webapp/forge/services/document_generator.py:111 | A line is left out exactly when it starts with `#`, `-`, `*`, `1.` or `[`. |
| DocumentGenerator.FirstLinesPrefix | webapp/forge/services/document_generator.py:106-109 | The lines looked at are at most three. They are the first pieces of `content.strip().split('\n')`, empty pieces included. |
| DocumentGenerator.KeptLinesHas | webapp/forge/services/document_generator.py:109-112 | A stripped line is kept exactly when it is non-empty, has no structural prefix, and is one of the lines looked at. |
| DocumentGenerator.KeptLinesSpec | webapp/forge/services/document_generator.py:109-112 | The kept lines are at most the lines looked at, and each one is non-empty and not structural. |
| DocumentGenerator.KeptLinesSingle | webapp/forge/services/document_generator.py:106-112 | No kept line holds a newline. |
| DocumentGenerator.DescriptionSpec | webapp/forge/services/document_generator.py:114-117 | The description is at most 150 characters long and holds no newline. It is the space-joined kept lines when those fit in 150 characters. Otherwise it is their first 147 characters followed by `...`. |
| DocumentGenerator.DescriptionFirstLines | webapp/forge/services/document_generator.py:106-112 | Each description line is a kept one among the first three raw lines of the stripped content. |
| DocumentGenerator.DescriptionLinesCount | webapp/forge/services/document_generator.py:109 | There are at most three description lines. |
| DocumentGenerator.GetSectionQuestions | webapp/forge/services/document_generator.py:120-153 | The loop returns one question per variable, then the content question. |
| DocumentGenerator.QuestionsSpec | webapp/forge/services/document_generator.py:130-153 | There is one required question per variable, in the order of the variables. Then comes exactly one optional textarea question for the content. Only that last question has `is_textarea`. Every placeholder is non-empty, and the content question's placeholder is the description when there is one. |
| DocumentGenerator.RealTimeValidation.constructor | webapp/forge/services/document_generator.py:22-30 | The new object holds the six given fields. |
| DocumentGenerator.ValidateSectionContent | webapp/forge/services/document_generator.py:156-205 | The fresh result holds the specified section validation. |
| DocumentGenerator.FlagUnreplaced | webapp/forge/services/document_generator.py:178-184 | On a fresh result, markers left make the result invalid, record their names and add exactly one issue naming them. With no marker left the result is unchanged. |
| DocumentGenerator.AddLengthWarnings | webapp/forge/services/document_generator.py:187-200 | The word-count warning comes first, then the minimal-content warning. It appends to the warnings and changes no other field. |
| DocumentGenerator.AddContentSuggestions | webapp/forge/services/document_generator.py:207-237 | It appends the specified suggestions and changes no other field. |
| DocumentGenerator.SectionValidationSpec | webapp/forge/services/document_generator.py:178-185 | The section is valid exactly when no marker is left. It is valid exactly when there is no issue. The unreplaced variables are strictly sorted and are exactly the names whose markers are left. Warnings and suggestions do not affect validity. |
| DocumentGenerator.SectionMarkerDetected | webapp/forge/services/document_generator.py:178-185 | Every literal marker in the content makes the section invalid, and its name is listed. |
| DocumentGenerator.ContentWarningsSpec | webapp/forge/services/document_generator.py:187-200 | There are at most two warnings. The short-section warning, with its word count, appears exactly when there are fewer than 10 words. The minimal-content warning appears exactly when the stripped content is under 20 characters. |
| DocumentGenerator.ContentSuggestionsSpec | webapp/forge/services/document_generator.py:212-237 | There are at most three suggestions. Each is made exactly when the lower-cased name mentions its topic and the lower-cased content holds none of that topic's keywords. |
| DocumentGenerator.GenerateDocument | webapp/forge/services/document_generator.py:240-293 | It returns the specified document and the specified list of validations. |
| DocumentGenerator.FillSections | webapp/forge/services/document_generator.py:266-281 | The section loop gives the specified text, and one validation per section with user content. |
| DocumentGenerator.FillSection | webapp/forge/services/document_generator.py:267-281 | One turn of the section loop takes the text and the validations for the first `j` sections to those for the first `j + 1`. |
| DocumentGenerator.ValidationsStep | webapp/forge/services/document_generator.py:267-275 | Section `j` appends its validation to the list exactly when its name maps to a non-empty value. |
| DocumentGenerator.ProvidedAmongSpec | webapp/forge/services/document_generator.py:267-273 | The sections that get a validation are exactly those whose name maps to a non-empty value, in section order. |
| DocumentGenerator.AppendSectionsUntouched | webapp/forge/services/document_generator.py:266-281 | Sections without user content leave the text unchanged and add no validation. |
| DocumentGenerator.AppendSectionInserts | webapp/forge/services/document_generator.py:277-281 | For a section with user content and non-blank own content, `"\n\n"` and the user content go right after the first occurrence of the section's content anywhere in the text. |
| DocumentGenerator.AppendSectionKeeps | webapp/forge/services/document_generator.py:268-281 | In every other case the text stays unchanged. |
| DocumentGenerator.FinalValidationsSpec | webapp/forge/services/document_generator.py:283-291 | A final invalid `Document` validation is added exactly when markers remain in the output. It names exactly those markers. |
| DocumentGenerator.GeneratedWithoutSectionData | webapp/forge/services/document_generator.py:257-293 | With empty section data, the document is the sequentially substituted template. The only validation is then the final one. |
| DocumentGenerator.PreviewSpec | webapp/forge/services/document_generator.py:317 | `original_content` is the content itself when it has at most 500 characters. Otherwise it is the first 500 characters followed by `...`. |
| DocumentGenerator.GetWizardSteps | webapp/forge/services/document_generator.py:296-321 | It returns one step per extracted section, in order. |
| DocumentGenerator.WizardStepsSpec | webapp/forge/services/document_generator.py:306-321 | There is one step per section, and `step_number` is i+1. Each step carries its section's name and level. Its questions are one per variable plus one trailing content question. There is no step exactly when no heading matches. |
| DocumentGenerator.StepOfSpec | webapp/forge/services/document_generator.py:309-318 | The i-th step has the fields described for `WizardStepsSpec`. |
| DocumentGenerator.CheckRequired | webapp/forge/services/document_generator.py:352-356 | Each absent required heading is appended, costs 20 points, and gets one issue, in the fixed order. |
| DocumentGenerator.ValidateDocumentCompliance | webapp/forge/services/document_generator.py:324-381 | It returns the specified compliance report. |
| DocumentGenerator.AbsentSpec | webapp/forge/services/document_generator.py:352-356 | A heading is reported missing exactly when it is required and its lower-cased form does not occur in the lower-cased content. |
| DocumentGenerator.ComplianceDetects | webapp/forge/services/document_generator.py:348-378 | Every missing required section and every marker is detected. Each missing section has its issue. The number of issues is the number of missing sections plus one if markers remain. The document is compliant exactly when nothing is missing and no marker remains. |
| DocumentGenerator.ComplianceScoreSpec | webapp/forge/services/document_generator.py:355-379 | The score, 100 less 20 per missing section, 15 per distinct marker and 5 for a short document, floored at 0, lies in 0..100. It is 100 exactly for a compliant document of at least 50 words. A compliant document scores at least 95, and any other document at most 85. |
| DocumentGenerator.ComplianceAgrees | webapp/forge/services/document_generator.py:349-356 | The compliance check and the template parser's required-section check report the same missing headings, in the same order. |
| DocumentGenerator.AbsentRoleOnly | webapp/forge/services/document_generator.py:349-356 | The test document `"## Your Role\nJust a partial document.\n"` misses `## Input` and `## Output Requirements`, in that order. |
| DocumentGenerator.RoleOnlyReport | webapp/tests/test_services.py:361-372 | The compliance report of that document is not compliant. It misses exactly `## Input` and `## Output Requirements`, has no unreplaced variable, and scores 55: 40 points for the two headings and 5 for being short. |
| DocumentGenerator.MissingRoleOnly | bmad_forge/forge/services/template_parser.py:138-145 | The template parser's check of that document reports `['## Input', '## Output Requirements']` missing. |
| DocumentGenerator.MissingRoleDeveloper | webapp/tests/test_services.py:75-86 | The template parser's check of its test template `"\n## Your Role\nDeveloper\n"` reports exactly `['## Input', '## Output Requirements']` missing, so `is_valid` is false. |

## Left out

- The Django views, URL routing, models, the template-loading script and the GitHub sync service are not part of this model. They do I/O, persistence and networking.
- Unicode: `\w`, `\s`, `str.lower()`, `str.title()` and `str.split()` are modelled on ASCII characters only.
- Message wording: each issue, warning and suggestion is a datatype constructor carrying the data its f-string interpolates. The English text around that data is not modelled.
- `str(value)`: values are modelled as strings, so `str` is the identity.
- Dictionaries iterated in order (`values`, `variable_data`) are sequences of key/value pairs in iteration order. A dictionary that is only looked up (`section_data`) is a `map`. The sequence of pairs is not required to have unique keys, because Python's dictionary already guarantees that.
- `TemplateVariable` equality is the equality of its five fields, as for the Python dataclass.
- The template parser's report dictionary, the wizard step and question dictionaries, and the compliance report are datatypes. A question without an `is_textarea` key has `isTextarea == None`.
- DocumentGenerator.GenerateDocument: its variable substitution calls `TemplateParser.SubstituteVariables`, whose loop is the same as lines 261-263. The section loop is the separate method `FillSections`, and its body is the method `FillSection`.
- DocumentGenerator.KeepLines: the loop of `_generate_section_description` over the first three lines is a method of its own, called by `GenerateSectionDescription`.
- DocumentGenerator.FlagUnreplaced, DocumentGenerator.AddLengthWarnings: the unreplaced-variable check and the two length checks of `validate_section_content` are written as methods of their own. Each updates only the fields that its part of the Python method sets.
- The regex scans are proved complete by covering lemmas: every pattern text lies inside a reported match. There is no separate reference enumeration of the matches to compare the scans against.
- Concrete test examples: the substitution example, the partial-substitution example and the role-only document are proved as concrete lemmas. The section-validation example and the three-heading wizard example are not proved as concrete lemmas. Only the general lemmas about `SectionValidation` and `WizardSteps` cover them.
- Substitution.SubstituteWellFormed, Substitution.UnreplacedAfterSubstitute, Substitution.RoundTrip: these hold only for a template whose every brace and bracket belongs to a literal `{{n}}` or `[n]` marker, with values and keys free of braces and brackets. A template with defaulted markers, or values holding marker characters, is not covered. Without the conditions the round trip is false, as `Substitution.NestedMarkerRecreated` shows; the loop replaces literally and does not guard against this.
- Substitution.BraceLiteralMissesDefaulted: holds only for a `\w+` key and a default without braces. The default `[^}]+` may hold `{`, and then replacing `{{k}}` can change a defaulted marker, as `Substitution.BraceLiteralInDefault` shows.
- The `extract_variables_simple` test with defaults (`{{name:John}}`) is not a property of this model. The pattern at template_parser.py:98 cannot match that form, and the model follows the code.
