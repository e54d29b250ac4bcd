# Project stage counts and project reference labeling, in Dafny

This project models two parts of a project-board reporting tool.

- **The stage-count report** (`reports/project-stage-counts.ts`).
  - It narrows the board's issue cards by a chain of label filters and names the report after those labels.
  - It buckets the cards by workflow stage.
  - It compares each stage's card count with a configured work-in-progress limit and flags the stages that are over it.
  - Rendering is kept only as the per-row decisions: the type label, the count text with its flag marker, and the limit text.
- **The project reference labeler** (`processors/project-reference-labeler.ts`).
  - `cleanLabelName` derives a label name from a card title or board column.
  - `ensureOnlyLabel` decides which labels a linked issue should lose and gain. When the target has to be added, only one label with the given prefix remains (`OnlyTargetKeepsPrefix`); when the issue already carries the target, every label stays (`ExactMatchKeepsEveryLabel`). It only reports these decisions.
  - The global regular expression at line 80 finds the linked issues in a card body: `http(s)://` links preceded by a `-`, any white space (line breaks included), a `[`, and later a `]`, with no line break from the `[` up to the link. A `- [ ]` checklist item is the usual case, but the dash may sit on an earlier line or touch the bracket (`x-[y] http://a`).

Modules:

- `Wrappers`: `Option`.
- `JsText`: the JavaScript string operations the code relies on, over `seq<char>`. These are white space as `\s` and `trim` see it, `split`/`join`, ASCII lower-casing and decimal rendering.
- `Board`: the issue card and its labels.
- `ProjectStageCounts`: the stage-count report.
- `ProjectReferenceLabeler`: `cleanLabelName` and `ensureOnlyLabel`.
- `ChecklistReferences`: the line-80 search, written out as a scanner.

How the code is modelled:

- **Stage-count loops.** `Process` and `RenderRows` are methods with the source's loops. They are proved against specification functions: `LabelChain`, `FilterChain` and `Evaluate` for `Process`, and `CountText` and `LimitText` for `RenderRows`.
- **The report's inputs.** The report reads two library functions whose code is not part of this model, `filterByLabel` and `getProjectStageIssues`. They are parameters of `Process`.
- **`ensureOnlyLabel`.** It is the method `EnsureOnlyLabel`, which loops over the labels and appends one action per decision. It is proved equal to the function `Decisions`. `LabelsAfter` states what carrying out those decisions would leave on the issue.
- **Line 80.** The regular expression is modelled twice and the two are proved to agree:
  - a declarative reading of its look-behind (`Lookbehind`);
  - a left-to-right state machine (`MarkerAt`), which gives the match length at each position (`Hits`).

  The global search itself (`Scan`) is written once over those match lengths. It takes the first match, resumes where that match ended, and is proved ordered, sound and complete without looking inside the regular expression.

The model follows the code, not behaviours the code does not have although its comments (processors/project-reference-labeler.ts:25, 33, 55) and option names suggest them:

- No noise words are dropped. Lines 25 and 33 are commented out. So `Fix the Login (v2) [urgent]` gives `> Fix the Login`, not `> Fix Login` (`CleanLabelNameKeepsEveryWord`).
- There is no 50-character cap and no `"Invalid"` result.
  - A title with no word character makes `match` return `null`, and `join` then throws. The model returns `NoWords` for this case (`CleanLabelNameShape`; `CleanLabelNameEmptyTitle` for the empty title).
- The target label is matched with a case-sensitive `===`. There is no case-insensitive, trimmed lookup.
- An empty prefix is not rejected: it reports every label for removal (`RemovalsEmptyPrefix`).
- There is no write flag, no real label change and no `process-with-label` gate. The labeler only logs its decisions.
- The limit key keeps spaces. A stage `In Progress` looks up `in progress-limit`, which the default configuration lacks, so its limit is 0 and not 4 (`DefaultConfigurationLimits`).

## Model

| member | source | states |
|---|---|---|
| ProjectStageCounts.DrillNameReplacesSpaces | reports/project-stage-counts.ts:41 | the drill-in name is `limits-<type>-<stage>` with every space turned into a dash and every other character kept; it has the same length and holds no space |
| ProjectStageCounts.LabelChainIsJoin | reports/project-stage-counts.ts:55-59 | for a non-empty label list, the name loop accumulates the configured labels in order, joined by single spaces, with one trailing space |
| ProjectStageCounts.ReportNameIsTrimmedJoin | reports/project-stage-counts.ts:52-61 | the report name is the configured labels joined by single spaces, then trimmed |
| ProjectStageCounts.ReportNameOfPlainLabels | reports/project-stage-counts.ts:52-61 | when the labels do not start or end with white space, the report name is exactly the labels joined by single spaces |
| ProjectStageCounts.FilterChainNarrows | reports/project-stage-counts.ts:53-59 | applying the label filters in configuration order, each with the lower-cased label, never yields more cards than it was given, provided each filter keeps at most its input |
| ProjectStageCounts.LimitKeyShape | reports/project-stage-counts.ts:74 | the limit key is the stage name lower-cased character by character, followed by `-limit`; spaces and non-capital characters are kept |
| ProjectStageCounts.LimitLookup | reports/project-stage-counts.ts:75 | a configured limit (including -1) is used as it is; a missing one gives 0 |
| ProjectStageCounts.EvaluateFlag | reports/project-stage-counts.ts:74-76 | a stage bucket keeps its cards unchanged, carries the looked-up limit, and is flagged exactly when the limit is non-negative and below the card count |
| ProjectStageCounts.NegativeLimitNeverFlags | reports/project-stage-counts.ts:76 | a negative configured limit is kept and never flags, whatever the card count |
| ProjectStageCounts.MissingLimitFlagsAnyCard | reports/project-stage-counts.ts:75-76 | without a configured limit the limit is 0, so a stage is flagged exactly when it has a card |
| ProjectStageCounts.DefaultReportName | reports/project-stage-counts.ts:19 | the default report is named `Feature` |
| ProjectStageCounts.DefaultConfigurationLimits | reports/project-stage-counts.ts:15-25 | under the defaults `In-Progress` has limit 4 and `Done` has -1, while `In Progress` looks up `in progress-limit` and gets 0 |
| ProjectStageCounts.Process | reports/project-stage-counts.ts:44-82 | the report is named by the trimmed label chain and has exactly one entry per stage of the stage map, in order, each with that stage's cards unchanged and the limit and flag the stage evaluation gives |
| ProjectStageCounts.TypeLabel | reports/project-stage-counts.ts:97 | the heading's type label is empty exactly when the name is `*` or empty, and is the name otherwise |
| ProjectStageCounts.CountTextDecodes | reports/project-stage-counts.ts:107-110 | the count text reads back as the card count, followed by the flag marker exactly when the stage is flagged |
| ProjectStageCounts.LimitTextDecodes | reports/project-stage-counts.ts:111 | the limit text is empty exactly when the limit is negative, and otherwise reads back as the limit |
| ProjectStageCounts.RenderRows | reports/project-stage-counts.ts:100-113 | one row per stage in report order, with the stage name, its limit text and its count text |
| JsText.TrimIsSlice | reports/project-stage-counts.ts:60 | `trim` leaves a slice of the text with only white space cut away on either side |
| JsText.DecimalRoundTrip | reports/project-stage-counts.ts:107 | a rendered count reads back as the count |
| ProjectReferenceLabeler.StripParensGroup | processors/project-reference-labeler.ts:28 | a parenthesised group with no parenthesis inside is removed, and the text on either side is cleaned independently |
| ProjectReferenceLabeler.StripParensBefore | processors/project-reference-labeler.ts:28 | text running up to a `(` is cleaned independently of what follows: no group found in it reaches past that `(` |
| ProjectReferenceLabeler.StripParensWithoutGroups | processors/project-reference-labeler.ts:28 | text with no `(` is left as it is |
| ProjectReferenceLabeler.StripParensSinglePass | processors/project-reference-labeler.ts:28 | the removal is one pass: `((x))` loses only its inner group and leaves `()` |
| ProjectReferenceLabeler.RemoveFirstBracketSegment | processors/project-reference-labeler.ts:28 | the first bracketed segment is cut out together with the spaces right before it, and the text after it is kept, brackets included |
| ProjectReferenceLabeler.RemoveFirstBracketWithout | processors/project-reference-labeler.ts:28 | text with no `[` is left as it is |
| ProjectReferenceLabeler.AnnotationsStripped | processors/project-reference-labeler.ts:28 | a title's parenthesised note is removed and its bracketed tag is kept for the next step |
| ProjectReferenceLabeler.CleanTitleDropsAnnotations | processors/project-reference-labeler.ts:28 | a title followed by a parenthesised note and a bracketed tag is cleaned back to the title |
| ProjectReferenceLabeler.WordsKeepWordChars | processors/project-reference-labeler.ts:30 | the words found, put together, are exactly the word characters of the text, in order |
| ProjectReferenceLabeler.WordsAreWords | processors/project-reference-labeler.ts:30 | every word found is a non-empty run of letters, digits and `&` |
| ProjectReferenceLabeler.WordsEmpty | processors/project-reference-labeler.ts:30 | no word is found (the `null` match) exactly when the text has no word character |
| ProjectReferenceLabeler.WordsSeparated | processors/project-reference-labeler.ts:30 | a non-word character separates: the words on either side are found independently, so runs are maximal |
| ProjectReferenceLabeler.WordsOfJoin | processors/project-reference-labeler.ts:30 | words joined by single spaces are found again as the same words |
| ProjectReferenceLabeler.CleanLabelNameShape | processors/project-reference-labeler.ts:27-35 | a label is derived exactly when the cleaned title has a word character; it is the trimmed prefix, one space, and single-spaced text whose words are the cleaned title's words in order |
| ProjectReferenceLabeler.CleanLabelNameIdempotent | processors/project-reference-labeler.ts:27-35 | cleaning the word part of a derived label again gives the same label |
| ProjectReferenceLabeler.CleanLabelNameEmptyTitle | processors/project-reference-labeler.ts:30-34 | an empty title derives no label, whatever the prefix |
| ProjectReferenceLabeler.CleanLabelNameKeepsEveryWord | processors/project-reference-labeler.ts:27-35 | `Fix the Login (v2) [urgent]` under the column prefix gives `> Fix the Login`: annotations go and no word is dropped |
| ProjectReferenceLabeler.TrimColumnPrefix | processors/project-reference-labeler.ts:20 | the default column prefix trims to `>` |
| ProjectReferenceLabeler.TrimLinkedPrefix | processors/project-reference-labeler.ts:21 | the default linked prefix trims to `>>` |
| ProjectReferenceLabeler.DerivedLabelIsTrimmed | processors/project-reference-labeler.ts:34 | a label derived with a non-blank prefix is its own trim |
| ProjectReferenceLabeler.DerivedLabelStart | processors/project-reference-labeler.ts:34 | a label derived with a non-blank prefix starts, trimmed, with the trimmed prefix and one space |
| ProjectReferenceLabeler.LinkedLabelKeepsItsRole | processors/project-reference-labeler.ts:21 | under the defaults a label derived for a linked issue starts, trimmed, with the linked prefix and not with the column prefix |
| ProjectReferenceLabeler.ColumnLabelKeepsItsRole | processors/project-reference-labeler.ts:20 | under the defaults a label derived for a column starts, trimmed, with the column prefix and not with the linked prefix |
| ProjectReferenceLabeler.Named | processors/project-reference-labeler.ts:39 | the filter keeps exactly the labels whose name equals the target, case-sensitively |
| ProjectReferenceLabeler.EnsureOnlyLabel | processors/project-reference-labeler.ts:37-53 | the actions the loop reports are exactly the decisions function's, and the issue is a value the method does not change |
| ProjectReferenceLabeler.DecisionsWhenLabelExists | processors/project-reference-labeler.ts:39-52 | when some label is exactly the target, the only decision is that it already exists: no removal and no addition |
| ProjectReferenceLabeler.DecisionsWhenLabelMissing | processors/project-reference-labeler.ts:40-49 | otherwise removals come first and one addition of the target comes last; a name is reported for removal exactly when a label has it and its trimmed form starts with the prefix |
| ProjectReferenceLabeler.RemovalsMembers | processors/project-reference-labeler.ts:43-47 | a name is reported for removal exactly when some label has it and its trimmed form starts with the untrimmed prefix |
| ProjectReferenceLabeler.RemovalsAppend | processors/project-reference-labeler.ts:43-47 | removals are reported in label order |
| ProjectReferenceLabeler.RemovalsEmptyPrefix | processors/project-reference-labeler.ts:44 | an empty prefix reports every label for removal, in label order |
| ProjectReferenceLabeler.OnlyTargetKeepsPrefix | processors/project-reference-labeler.ts:37-53 | when no label is exactly the target and the target has the prefix, carrying out the decisions leaves exactly one label with the prefix: the target |
| ProjectReferenceLabeler.ExactMatchKeepsEveryLabel | processors/project-reference-labeler.ts:37-53 | when a label is exactly the target, carrying out the decisions keeps every label, in order, other prefixed labels included |
| ProjectReferenceLabeler.ExactMatchKeepsOtherPrefixed | processors/project-reference-labeler.ts:37-53 | so two labels with the prefix can remain: `> A` and `> B` both stay when the target is `> A` |
| ChecklistReferences.UnitsLenShape | processors/project-reference-labeler.ts:80 | the repeated part of a URL is path characters and `%XX` escapes, and it stops only where neither follows |
| ChecklistReferences.SchemeShape | processors/project-reference-labeler.ts:80 | the scheme is `https://` (8 characters) when present, else `http://` (7), else nothing |
| ChecklistReferences.UrlShape | processors/project-reference-labeler.ts:80 | a URL is matched exactly when a scheme is followed by at least one path character or escape, and it is as long as it can be |
| ChecklistReferences.DashMeaning | processors/project-reference-labeler.ts:80 | the state machine's dash state holds exactly when the text so far ends in a `-` and white space |
| ChecklistReferences.OpenMeaning | processors/project-reference-labeler.ts:80 | the open state holds exactly when a `[` follows such a dash run with no line break since |
| ChecklistReferences.ClosedMeaning | processors/project-reference-labeler.ts:80 | the closed state holds exactly when the look-behind holds: a dash run, a `[`, then a `]`, with no line break from the `[` on |
| ChecklistReferences.HitLenMeaning | processors/project-reference-labeler.ts:80 | a match is tried and taken at a position exactly when a URL starts there and the look-behind holds, and it is the whole URL |
| ChecklistReferences.Scan | processors/project-reference-labeler.ts:80 | every match of the global search lies in the text after the position it starts from |
| ChecklistReferences.ScanOrdered | processors/project-reference-labeler.ts:80 | the global search returns its matches in order of appearance and without overlap, each one starting where the previous ended or later |
| ChecklistReferences.ScanSpans | processors/project-reference-labeler.ts:80 | every match is as long as the match found at its start, and no match is empty |
| ChecklistReferences.ScanCovers | processors/project-reference-labeler.ts:80 | every position where a match could be taken lies in a match found, at its start or inside an earlier match |
| ChecklistReferences.ScanEmpty | processors/project-reference-labeler.ts:80 | where no position has a match, the search finds nothing |
| ChecklistReferences.MatchesOrdered | processors/project-reference-labeler.ts:80 | the URLs matched in a body are in order of appearance and do not overlap |
| ChecklistReferences.ScanSound | processors/project-reference-labeler.ts:80 | every match is a maximal URL at a position where the look-behind holds |
| ChecklistReferences.ScanComplete | processors/project-reference-labeler.ts:80 | nothing is missed: every position where a URL starts and the look-behind holds lies in some match |
| ChecklistReferences.References | processors/project-reference-labeler.ts:80-83 | an absent body yields no reference, and a present one yields one reference per match |
| ChecklistReferences.ReferenceShape | processors/project-reference-labeler.ts:80 | every reference is `http://` or `https://` followed by one or more path characters or escapes |
| ChecklistReferences.NoBracketNoReferences | processors/project-reference-labeler.ts:80 | a body with no `[` yields no reference: a bare URL is never taken |
| ChecklistReferences.LineBreakResets | processors/project-reference-labeler.ts:80 | after a line break, the look-behind fails until a new `[` appears |
| ChecklistReferences.NothingToFind | processors/project-reference-labeler.ts:80 | the search finds nothing where no position has both a URL and the look-behind |
| ChecklistReferences.ExampleChecklist | processors/project-reference-labeler.ts:80 | a checklist item's link is taken, and a link on the next line without a marker of its own is not |

## Left out

- `reports/drill-in.ts` is not part of this model. It is markdown and HTML presentation.
- The markdown table (`tablemark`), the `os.EOL` join, the heading text beyond its type label, and all `console.log` output. The labeler's logged decisions are the `Action` sequence instead.
- `filterByLabel` and `getProjectStageIssues` from the report library are not part of this model. `Process` takes them as function parameters.
- The stage map and the report's `data` object are ordered sequences of pairs in insertion order. JavaScript's reordering of integer-like object keys, and duplicate stage keys, are not modelled.
- LimitText, LimitTextDecodes: limits are assumed to be safe integers (at most 2^53 - 1), so `toString` gives plain decimal digits. JavaScript's double precision for larger configured values and the exponent notation `toString` uses from 10^21 on (`1e+21`) are not modelled.
- Configuration limits are integers. Non-numeric or fractional option values, and the other falsy values that `|| 0` turns into 0, are not modelled.
- `toLocaleLowerCase` and `toLowerCase` are modelled as ASCII lower-casing; locale-specific case mappings are not modelled.
- The `TypeError` that `join` throws on a `null` match is not modelled as an exception; `cleanLabelName` returns the result `NoWords` instead.
- The labeler's `process` driver loop is not modelled. This covers its awaits, the un-awaited `ensureOnlyLabel` calls, `github.getIssue`, the `new url.URL` check and its try/catch, and `moment`. These are network, library or asynchronous calls.
- When a card has no column, `ensureOnlyLabel` receives an undefined target. The model's target is always a string. An undefined target equals no label name, so `DecisionsWhenLabelMissing` describes that call, except that the reported addition names `undefined`.
- Only the ECMAScript Annex B reading of `[/-\w.]` (no `u` flag) is modelled: a slash, hyphen, dot, underscore, or ASCII letter or digit.
