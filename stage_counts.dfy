/**
 The project stage-count report: the issue cards are narrowed by a chain of label filters,
 bucketed by workflow stage, and each stage's card count is compared with a configured
 work-in-progress limit. Rendering keeps only the per-row decisions (the table text itself
 is produced by a markdown library that is not part of this model).
 */
module ProjectStageCounts {
  import opened JsText
  import opened Board

  /**
   The options the report reads: the ordered label filters (`report-on-labels`) and the
   integer-valued `<stage>-limit` entries, keyed by their full option name.
   */
  datatype Config = Config(reportOnLabels: seq<string>, limits: map<string, int>)

  /** One stage bucket: whether it is over its limit, the limit (-1 = unbounded) and its cards. */
  datatype StageData = StageData(flag: bool, limit: int, items: seq<Issue>)

  /** The report: the label-filter chain as a name, and one bucket per stage, in stage-map order. */
  datatype StageCountData = StageCountData(name: string, data: seq<(string, StageData)>)

  /** One rendered table row. */
  datatype StageRow = StageRow(stage: string, limit: string, count: string)

  /** The report's default configuration. */
  const DefaultConfiguration: Config :=
    Config(["Feature"],
           map["proposed-limit" := 0, "accepted-limit" := 0, "in-progress-limit" := 4, "done-limit" := -1])

  /** Appended to the count of a stage that is over its limit. */
  const FlagMarker: string := "  :triangular_flag_on_post:"

  // ---------------------------------------------------------------------------------------
  // Drill-in page names

  /** `limits-<cardType>-<stage>`, split on spaces and joined with dashes. */
  function DrillName(cardType: string, stage: string): string {
    Join(Split("limits-" + cardType + "-" + stage, ' '), "-")
  }

  /** A drill-in name is the `limits-` text with every space turned into a dash, and nothing else changed. */
  lemma DrillNameReplacesSpaces(cardType: string, stage: string)
    ensures var t := "limits-" + cardType + "-" + stage;
            var r := DrillName(cardType, stage);
            && |r| == |t|
            && (forall i :: 0 <= i < |t| ==> r[i] == if t[i] == ' ' then '-' else t[i])
            && ' ' !in r
            && r[..7] == "limits-"
  {
    var t := "limits-" + cardType + "-" + stage;
    JoinSplit(t, ' ', '-');
  }

  // ---------------------------------------------------------------------------------------
  // The report name and the label-filter chain

  /** What the filter loop accumulates: every label followed by one space, in configuration order. */
  function LabelChain(labels: seq<string>): string {
    if labels == [] then ""
    else LabelChain(labels[..|labels| - 1]) + labels[|labels| - 1] + " "
  }

  /** The report name: the accumulated label chain, trimmed. */
  function ReportName(labels: seq<string>): string {
    Trim(LabelChain(labels))
  }

  lemma {:induction false} LabelChainIsJoin(labels: seq<string>)
    requires labels != []
    ensures LabelChain(labels) == Join(labels, " ") + " "
  {
    if |labels| > 1 {
      LabelChainIsJoin(labels[..|labels| - 1]);
    }
  }

  /** The report name is the configured labels joined by single spaces, then trimmed. */
  lemma ReportNameIsTrimmedJoin(labels: seq<string>)
    ensures ReportName(labels) == Trim(Join(labels, " "))
  {
    if labels != [] {
      LabelChainIsJoin(labels);
      TrimAppendWhitespace(Join(labels, " "), ' ');
    }
  }

  lemma {:induction false} JoinStartsWithFirst(parts: seq<string>, sep: string)
    requires parts != []
    ensures parts[0] <= Join(parts, sep)
  {
    if |parts| > 1 {
      JoinStartsWithFirst(parts[..|parts| - 1], sep);
    }
  }

  /**
   When the first label does not start and the last label does not end with white space,
   the report name is exactly the labels joined by single spaces.
   */
  lemma ReportNameOfPlainLabels(labels: seq<string>)
    requires labels != [] && labels[0] != [] && labels[|labels| - 1] != []
    requires !IsWhitespace(labels[0][0])
    requires !IsWhitespace(labels[|labels| - 1][|labels[|labels| - 1]| - 1])
    ensures ReportName(labels) == Join(labels, " ")
  {
    ReportNameIsTrimmedJoin(labels);
    JoinStartsWithFirst(labels, " ");
    JoinEndsWithLast(labels, " ");
    var j, first, last := Join(labels, " "), labels[0], labels[|labels| - 1];
    assert j[0] == first[0];
    assert j[|j| - 1] == j[|j| - |last|..][|last| - 1] == last[|last| - 1];
    TrimOfTrimmed(j);
  }

  lemma {:induction false} JoinEndsWithLast(parts: seq<string>, sep: string)
    requires parts != []
    ensures var j, last := Join(parts, sep), parts[|parts| - 1];
            |last| <= |j| && j[|j| - |last|..] == last
  {
    if |parts| > 1 {
      var front := Join(parts[..|parts| - 1], sep) + sep;
      var last := parts[|parts| - 1];
      assert Join(parts, sep) == front + last;
      assert (front + last)[|front|..] == last;
    }
  }

  /** The cards left after applying the label filters in configuration order, each with the label lower-cased. */
  function FilterChain(items: seq<Issue>, labels: seq<string>,
                       filterByLabel: (seq<Issue>, string) -> seq<Issue>): seq<Issue>
  {
    if labels == [] then items
    else filterByLabel(FilterChain(items, labels[..|labels| - 1], filterByLabel),
                       AsciiLower(labels[|labels| - 1]))
  }

  /** A chain of filters that each keep at most the cards they are given keeps at most the input. */
  lemma {:induction false} FilterChainNarrows(items: seq<Issue>, labels: seq<string>,
                                              filterByLabel: (seq<Issue>, string) -> seq<Issue>)
    requires forall cards, name :: |filterByLabel(cards, name)| <= |cards|
    ensures |FilterChain(items, labels, filterByLabel)| <= |items|
  {
    if labels != [] {
      FilterChainNarrows(items, labels[..|labels| - 1], filterByLabel);
    }
  }

  // ---------------------------------------------------------------------------------------
  // Stage evaluation

  /** The option holding a stage's limit: the lower-cased stage name followed by `-limit`. */
  function LimitKey(stage: string): string {
    AsciiLower(stage) + "-limit"
  }

  /** `config[limitKey] || 0`: a missing or zero entry gives 0, any other configured value is kept. */
  function LimitFor(config: Config, stage: string): int {
    var key := LimitKey(stage);
    if key in config.limits && config.limits[key] != 0 then config.limits[key] else 0
  }

  /** One stage's bucket as the report loop builds it. */
  function Evaluate(config: Config, stage: string, cards: seq<Issue>): StageData {
    var limit := LimitFor(config, stage);
    StageData(limit > -1 && |cards| > limit, limit, cards)
  }

  /** The key keeps the stage name's length and its spaces; only ASCII capitals change. */
  lemma LimitKeyShape(stage: string)
    ensures var key := LimitKey(stage);
            && |key| == |stage| + 6
            && key[|stage|..] == "-limit"
            && (forall i :: 0 <= i < |stage| ==> key[i] == LowerChar(stage[i]))
            && (forall i :: 0 <= i < |stage| && stage[i] == ' ' ==> key[i] == ' ')
            && (forall i :: 0 <= i < |stage| && !('A' <= stage[i] <= 'Z') ==> key[i] == stage[i])
  {
  }

  /** The limit is the configured entry when there is one (including -1 and 0), and 0 otherwise. */
  lemma LimitLookup(config: Config, stage: string)
    ensures LimitKey(stage) in config.limits ==> LimitFor(config, stage) == config.limits[LimitKey(stage)]
    ensures LimitKey(stage) !in config.limits ==> LimitFor(config, stage) == 0
  {
  }

  /** A bucket keeps its cards unchanged, and is flagged exactly when its limit is not negative and is exceeded. */
  lemma EvaluateFlag(config: Config, stage: string, cards: seq<Issue>)
    ensures var d := Evaluate(config, stage, cards);
            && d.items == cards
            && d.limit == LimitFor(config, stage)
            && (d.flag <==> 0 <= d.limit < |cards|)
  {
  }

  /** A negative limit never flags a stage, whatever its card count. */
  lemma NegativeLimitNeverFlags(config: Config, stage: string, cards: seq<Issue>)
    requires LimitKey(stage) in config.limits && config.limits[LimitKey(stage)] < 0
    ensures Evaluate(config, stage, cards).limit == config.limits[LimitKey(stage)]
    ensures !Evaluate(config, stage, cards).flag
  {
  }

  /** Without a configured limit the limit is 0: every non-empty stage is flagged, an empty one is not. */
  lemma MissingLimitFlagsAnyCard(config: Config, stage: string, cards: seq<Issue>)
    requires LimitKey(stage) !in config.limits
    ensures Evaluate(config, stage, cards).limit == 0
    ensures Evaluate(config, stage, cards).flag <==> cards != []
  {
  }

  /** The default report is named after its one label filter, `Feature`. */
  lemma DefaultReportName()
    ensures ReportName(DefaultConfiguration.reportOnLabels) == "Feature"
  {
    ReportNameOfPlainLabels(["Feature"]);
  }

  /**
   Under the default configuration `In-Progress` finds its limit of 4 and `Done` is unbounded,
   while `In Progress` (with a space) looks up `in progress-limit`, which is absent, and gets 0.
   */
  lemma DefaultConfigurationLimits()
    ensures LimitFor(DefaultConfiguration, "In-Progress") == 4
    ensures LimitFor(DefaultConfiguration, "Done") == -1
    ensures LimitKey("In Progress") == "in progress-limit"
    ensures LimitFor(DefaultConfiguration, "In Progress") == 0
  {
    LimitKeyOf("In-Progress", "in-progress");
    LimitKeyOf("Done", "done");
    assert "in-progress" + "-limit" == "in-progress-limit";
    assert "done" + "-limit" == "done-limit";
    assert DefaultConfiguration.limits["in-progress-limit"] == 4;
    assert DefaultConfiguration.limits["done-limit"] == -1;
    LimitKeyOf("In Progress", "in progress");
    assert "in progress-limit" != "in-progress-limit" by {
      assert "in progress-limit"[2] != "in-progress-limit"[2];
    }
  }

  /** The limit key of a stage whose lower-cased form is known character by character. */
  lemma LimitKeyOf(s: string, lower: string)
    requires |s| == |lower| && forall i :: 0 <= i < |s| ==> LowerChar(s[i]) == lower[i]
    ensures LimitKey(s) == lower + "-limit"
  {
    assert AsciiLower(s) == lower;
  }

  /**
   The report: filters the cards label by label while building the name, buckets the
   filtered cards with `getProjectStageIssues`, and evaluates every stage.
   */
  method Process(config: Config, items: seq<Issue>,
                 filterByLabel: (seq<Issue>, string) -> seq<Issue>,
                 getProjectStageIssues: seq<Issue> -> seq<(string, seq<Issue>)>)
    returns (r: StageCountData)
    ensures r.name == ReportName(config.reportOnLabels)
    ensures var stages := getProjectStageIssues(FilterChain(items, config.reportOnLabels, filterByLabel));
            && |r.data| == |stages|
            && forall k :: 0 <= k < |stages| ==>
                 r.data[k] == (stages[k].0, Evaluate(config, stages[k].0, stages[k].1))
  {
    var prefix := "";
    var issues := items;
    var labels := config.reportOnLabels;
    for i := 0 to |labels|
      invariant prefix == LabelChain(labels[..i])
      invariant issues == FilterChain(items, labels[..i], filterByLabel)
    {
      assert labels[..i + 1][..i] == labels[..i];
      prefix := prefix + labels[i] + " ";
      issues := filterByLabel(issues, AsciiLower(labels[i]));
    }
    assert labels[..|labels|] == labels;
    prefix := Trim(prefix);

    var projData := getProjectStageIssues(issues);
    var data: seq<(string, StageData)> := [];
    for k := 0 to |projData|
      invariant |data| == k
      invariant forall j :: 0 <= j < k ==>
                  data[j] == (projData[j].0, Evaluate(config, projData[j].0, projData[j].1))
    {
      var stage := projData[k].0;
      var cards := projData[k].1;
      var limitKey := AsciiLower(stage) + "-limit";
      var limit := if limitKey in config.limits && config.limits[limitKey] != 0 then config.limits[limitKey] else 0;
      var flag := limit > -1 && |cards| > limit;
      data := data + [(stage, StageData(flag, limit, cards))];
    }
    r := StageCountData(prefix, data);
  }

  // ---------------------------------------------------------------------------------------
  // Rendering decisions

  /** The type label of the heading: the report name, except that `*` shows as nothing. */
  function TypeLabel(name: string): (r: string)
    ensures r == [] <==> name == "*" || name == []
    ensures r != [] ==> r == name
  {
    if name == "*" then "" else name
  }

  /** A row's count text: the number of cards, with the flag marker when the stage is flagged. */
  function CountText(count: nat, flagged: bool): string {
    NatToDecimal(count) + (if flagged then FlagMarker else "")
  }

  /** A row's limit text: the limit when it is not negative, nothing otherwise. */
  function LimitText(limit: int): string {
    if limit >= 0 then NatToDecimal(limit) else ""
  }

  /** The count text reads back as the count (its leading digits) followed by the marker exactly when flagged. */
  lemma CountTextDecodes(count: nat, flagged: bool)
    ensures var t := CountText(count, flagged);
            var k := LeadingDigits(t);
            && AllDigits(t[..k]) && DecimalValue(t[..k]) == count
            && (flagged <==> t[k..] == FlagMarker)
            && (!flagged <==> t[k..] == "")
  {
    var d := NatToDecimal(count);
    var t := CountText(count, flagged);
    LeadingDigitsOfDigits(d, if flagged then FlagMarker else "");
    assert t[..|d|] == d;
    DecimalRoundTrip(count);
  }

  lemma {:induction false} LeadingDigitsOfDigits(d: string, rest: string)
    requires AllDigits(d)
    requires rest == [] || !IsDigit(rest[0])
    ensures LeadingDigits(d + rest) == |d|
  {
    if d != [] {
      assert (d + rest)[1..] == d[1..] + rest;
      LeadingDigitsOfDigits(d[1..], rest);
    } else {
      assert d + rest == rest;
    }
  }

  /** The limit text is empty exactly for a negative limit, and otherwise reads back as the limit. */
  lemma LimitTextDecodes(limit: int)
    ensures LimitText(limit) == "" <==> limit < 0
    ensures limit >= 0 ==> AllDigits(LimitText(limit)) && DecimalValue(LimitText(limit)) == limit
  {
    if limit >= 0 {
      DecimalRoundTrip(limit);
    }
  }

  /** The table rows, one per stage in report order. */
  method RenderRows(data: seq<(string, StageData)>) returns (rows: seq<StageRow>)
    ensures |rows| == |data|
    ensures forall k :: 0 <= k < |data| ==>
              rows[k] == StageRow(data[k].0, LimitText(data[k].1.limit),
                                  CountText(|data[k].1.items|, data[k].1.flag))
  {
    rows := [];
    for k := 0 to |data|
      invariant |rows| == k
      invariant forall j :: 0 <= j < k ==>
                  rows[j] == StageRow(data[j].0, LimitText(data[j].1.limit),
                                      CountText(|data[j].1.items|, data[j].1.flag))
    {
      var stage := data[k].1;
      var count := NatToDecimal(|stage.items|);
      if stage.flag {
        count := count + FlagMarker;
      }
      var limit := if stage.limit >= 0 then NatToDecimal(stage.limit) else "";
      rows := rows + [StageRow(data[k].0, limit, count)];
    }
  }

}
