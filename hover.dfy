/**
  The hover text of one location (heatmap_app_final.py, lines 428-469):
  the crash total, the selected metric's label and formatted value, then
  one line per top factor, lines separated by "<br>".
*/
module Hover {
  import opened Seqs
  import opened Text
  import opened Ranking

  const BREAK := "<br>"

  /** The English ordinal suffix of `n`, the reference the suffix rule is compared against. */
  function EnglishSuffix(n: nat): string {
    if 11 <= n % 100 <= 13 then "th"
    else if n % 10 == 1 then "st"
    else if n % 10 == 2 then "nd"
    else if n % 10 == 3 then "rd"
    else "th"
  }

  /** The ordinal suffix the f-string chain picks for position `idx` (0-based). */
  function Suffix(idx: nat): (suffix: string)
    ensures |suffix| == 2
  {
    if idx == 0 then "st"
    else if idx == 1 then "nd"
    else if idx == 2 then "rd"
    else "th"
  }

  /**
    The suffix rule is the English one for the first twenty positions,
    which include every position a top-three list can reach.
  */
  lemma SuffixIsEnglish(idx: nat)
    requires idx < 20
    ensures Suffix(idx) == EnglishSuffix(idx + 1)
  {
  }

  /** From the twenty-first position on the rule and English part ways. */
  lemma SuffixDivergesAtTwentyFirst()
    ensures Suffix(20) == "th" && EnglishSuffix(21) == "st"
  {
  }

  /** `f"{idx+1}st Factor: {factor} ({count} instances)"` and its siblings. */
  function FactorLine(idx: nat, entry: FactorCount): string {
    NatToString(idx + 1) + Suffix(idx) + " Factor: " + entry.factor + " (" + NatToString(entry.count) + " instances)"
  }

  /**
    Everything a factor line shows can be read back from it: the position
    (1-based) with its English ordinal suffix, then the label, then the
    count, each at a fixed place. `n` and `c` name the numerals of the
    position and of the count.
  */
  lemma FactorLineReads(idx: nat, entry: FactorCount, line: string, n: string, c: string)
    requires line == FactorLine(idx, entry)
    requires n == NatToString(idx + 1) && c == NatToString(entry.count)
    ensures |line| == |n| + |entry.factor| + |c| + 24
    ensures line[..|n|] == n && DigitsValue(n) == idx + 1
    ensures idx < 20 ==> line[|n|..|n| + 2] == EnglishSuffix(idx + 1)
    ensures line[|n| + 11..|n| + 11 + |entry.factor|] == entry.factor
    ensures line[|n| + 13 + |entry.factor|..|n| + 13 + |entry.factor| + |c|] == c && DigitsValue(c) == entry.count
  {
    LineLayout(line, n, Suffix(idx), entry.factor, c);
    if idx < 20 {
      SuffixIsEnglish(idx);
    }
    NatToStringValue(idx + 1);
    NatToStringValue(entry.count);
  }

  /** Where each piece of a factor line sits. */
  lemma LineLayout(line: string, n: string, s: string, f: string, c: string)
    requires |s| == 2
    requires line == n + s + " Factor: " + f + " (" + c + " instances)"
    ensures |line| == |n| + |f| + |c| + 24
    ensures line[..|n|] == n
    ensures line[|n|..|n| + 2] == s
    ensures line[|n| + 11..|n| + 11 + |f|] == f
    ensures line[|n| + 13 + |f|..|n| + 13 + |f| + |c|] == c
  {
    assert forall k :: 0 <= k < |n| ==> line[k] == n[k];
    assert forall k :: 0 <= k < 2 ==> line[|n| + k] == s[k];
    assert forall k :: 0 <= k < |f| ==> line[|n| + 11 + k] == f[k];
    assert forall k :: 0 <= k < |c| ==> line[|n| + 13 + |f| + k] == c[k];
  }

  function FactorLines(top: seq<FactorCount>): (lines: seq<string>)
    ensures |lines| == |top|
    ensures forall i :: 0 <= i < |top| ==> lines[i] == FactorLine(i, top[i])
  {
    seq(|top|, i requires 0 <= i < |top| => FactorLine(i, top[i]))
  }

  /** The label of the metric line (lines 430-455). */
  function MetricLabel(metric: string): (metricLabel: string)
    ensures metricLabel == "Average Impact" <==> metric == "avg_impact"
    ensures metricLabel == "Average Impact" || metricLabel == "Average Total Duration"
  {
    if metric == "avg_impact" then "Average Impact" else "Average Total Duration"
  }

  /**
    The whole hover text. `valueText` is the metric value already
    rendered with two decimals; the floating-point mean behind it is not
    part of this model.
  */
  function HoverText(totalCrashes: nat, metric: string, valueText: string, top: seq<FactorCount>): string {
    Header(totalCrashes, metric, valueText) + Join(FactorLines(top), BREAK)
  }

  /**
    The hover text opens with "Total Crashes: " and the numeral `n` of the
    total, which reads back to it; a break; the metric's label `name`,
    ": " and its value; a break; and then the factor lines joined by
    breaks.
  */
  lemma HoverReads(totalCrashes: nat, metric: string, valueText: string, top: seq<FactorCount>,
                   text: string, n: string, name: string)
    requires text == HoverText(totalCrashes, metric, valueText, top)
    requires n == NatToString(totalCrashes) && name == MetricLabel(metric)
    ensures |text| == 25 + |n| + |name| + |valueText| + |Join(FactorLines(top), BREAK)|
    ensures text[..15] == "Total Crashes: "
    ensures text[15..15 + |n|] == n && DigitsValue(n) == totalCrashes
    ensures text[15 + |n|..19 + |n|] == BREAK
    ensures text[19 + |n|..19 + |n| + |name|] == name
    ensures text[21 + |n| + |name|..21 + |n| + |name| + |valueText|] == valueText
    ensures text[21 + |n| + |name| + |valueText|..25 + |n| + |name| + |valueText|] == BREAK
    ensures text[25 + |n| + |name| + |valueText|..] == Join(FactorLines(top), BREAK)
  {
    HeaderLayout(text, n, name, valueText, Join(FactorLines(top), BREAK));
    NatToStringValue(totalCrashes);
  }

  /** Where each piece of the hover text sits. */
  lemma HeaderLayout(text: string, n: string, name: string, v: string, rest: string)
    requires text == "Total Crashes: " + n + BREAK + name + ": " + v + BREAK + rest
    ensures |text| == 25 + |n| + |name| + |v| + |rest|
    ensures text[..15] == "Total Crashes: "
    ensures text[15..15 + |n|] == n
    ensures text[15 + |n|..19 + |n|] == BREAK
    ensures text[19 + |n|..19 + |n| + |name|] == name
    ensures text[21 + |n| + |name|..21 + |n| + |name| + |v|] == v
    ensures text[21 + |n| + |name| + |v|..25 + |n| + |name| + |v|] == BREAK
    ensures text[25 + |n| + |name| + |v|..] == rest
  {
    var lines := 25 + |n| + |name| + |v|;
    assert forall k :: 0 <= k < 15 ==> text[k] == "Total Crashes: "[k];
    assert forall k :: 0 <= k < |n| ==> text[15 + k] == n[k];
    assert forall k :: 0 <= k < 4 ==> text[15 + |n| + k] == BREAK[k];
    assert forall k :: 0 <= k < |name| ==> text[19 + |n| + k] == name[k];
    assert forall k :: 0 <= k < |v| ==> text[21 + |n| + |name| + k] == v[k];
    assert forall k :: 0 <= k < 4 ==> text[lines - 4 + k] == BREAK[k];
    assert forall k :: 0 <= k < |rest| ==> text[lines + k] == rest[k];
  }

  /** No "<" in a numeral. */
  lemma NumeralHasNoTag(n: nat)
    ensures '<' !in NatToString(n)
  {
  }

  /** Joining pieces free of `c` with a separator holding one `c` gives one `c` per gap. */
  lemma {:induction false} JoinOccurrences(parts: seq<string>, sep: string, c: char)
    requires Occurrences(sep, c) == 1
    requires forall i :: 0 <= i < |parts| ==> c !in parts[i]
    ensures Occurrences(Join(parts, sep), c) == if parts == [] then 0 else |parts| - 1
  {
    if |parts| > 1 {
      JoinOccurrences(parts[1..], sep, c);
      OccurrencesAppend(parts[0] + sep, Join(parts[1..], sep), c);
      OccurrencesAppend(parts[0], sep, c);
      assert Occurrences(parts[0], c) == 0;
    } else if |parts| == 1 {
      assert Occurrences(parts[0], c) == 0;
    }
  }

  /** The two header lines: one "<" in each "<br>" and none elsewhere. */
  function Header(totalCrashes: nat, metric: string, valueText: string): string {
    "Total Crashes: " + NatToString(totalCrashes) + BREAK + MetricLabel(metric) + ": " + valueText + BREAK
  }

  lemma {:induction false} TwoBreaks(a: string, b: string, c: string, d: string, e: string)
    requires '<' !in a && '<' !in b && '<' !in c && '<' !in d && '<' !in e
    ensures Occurrences(a + b + BREAK + c + d + e + BREAK, '<') == 2
  {
    assert Occurrences(BREAK, '<') == 1;
    OccurrencesAppend(a, b, '<');
    OccurrencesAppend(a + b, BREAK, '<');
    OccurrencesAppend(a + b + BREAK, c, '<');
    OccurrencesAppend(a + b + BREAK + c, d, '<');
    OccurrencesAppend(a + b + BREAK + c + d, e, '<');
    OccurrencesAppend(a + b + BREAK + c + d + e, BREAK, '<');
  }

  lemma HeaderTags(totalCrashes: nat, metric: string, valueText: string)
    requires '<' !in valueText
    ensures Occurrences(Header(totalCrashes, metric, valueText), '<') == 2
  {
    NumeralHasNoTag(totalCrashes);
    TwoBreaks("Total Crashes: ", NatToString(totalCrashes), MetricLabel(metric), ": ", valueText);
  }

  lemma FactorLinesHaveNoTag(top: seq<FactorCount>)
    requires forall i :: 0 <= i < |top| ==> '<' !in top[i].factor
    ensures forall i :: 0 <= i < |top| ==> '<' !in FactorLines(top)[i]
  {
    forall i | 0 <= i < |top| ensures '<' !in FactorLine(i, top[i]) {
      NumeralHasNoTag(i + 1);
      NumeralHasNoTag(top[i].count);
    }
  }

  /**
    When no factor label and no metric text contains "<", the text holds
    two "<br>" after the header and one between each pair of factor lines.
    With at least one top factor that is one "<br>" fewer than it has
    lines; with none, the header's trailing "<br>" remains.
  */
  lemma HoverLineCount(totalCrashes: nat, metric: string, valueText: string, top: seq<FactorCount>)
    requires '<' !in valueText
    requires forall i :: 0 <= i < |top| ==> '<' !in top[i].factor
    ensures Occurrences(HoverText(totalCrashes, metric, valueText, top), '<') == 2 + (if top == [] then 0 else |top| - 1)
  {
    HeaderTags(totalCrashes, metric, valueText);
    FactorLinesHaveNoTag(top);
    assert Occurrences(BREAK, '<') == 1;
    JoinOccurrences(FactorLines(top), BREAK, '<');
    OccurrencesAppend(Header(totalCrashes, metric, valueText), Join(FactorLines(top), BREAK), '<');
  }

  lemma FirstLineExample()
    ensures FactorLine(0, FactorCount("DRIVER INATTENTION", 1)) == "1st Factor: DRIVER INATTENTION (1 instances)"
  {
    FirstLinePieces();
  }

  lemma FirstLinePieces()
    ensures FactorLine(0, FactorCount("DRIVER INATTENTION", 1))
         == "1" + "st" + " Factor: " + "DRIVER INATTENTION" + " (" + "1" + " instances)"
  {
    OneNumeral();
  }

  lemma OneNumeral()
    ensures NatToString(1) == "1"
  {
  }

  lemma HeaderPieces()
    ensures Header(1, "avg_impact", "12.34")
         == "Total Crashes: " + "1" + "<br>" + "Average Impact" + ": " + "12.34" + "<br>"
  {
    OneNumeral();
  }

  lemma HeaderExample()
    ensures Header(1, "avg_impact", "12.34") == "Total Crashes: 1<br>Average Impact: 12.34<br>"
  {
    HeaderPieces();
  }

  lemma LinesExample()
    ensures Join(FactorLines([FactorCount("DRIVER INATTENTION", 1)]), BREAK) == "1st Factor: DRIVER INATTENTION (1 instances)"
  {
    FirstLineExample();
    assert FactorLines([FactorCount("DRIVER INATTENTION", 1)]) == ["1st Factor: DRIVER INATTENTION (1 instances)"];
  }

  /** A location with one crash and one factor, as the page shows it. */
  lemma SingleCrashText()
    ensures HoverText(1, "avg_impact", "12.34", [FactorCount("DRIVER INATTENTION", 1)])
         == "Total Crashes: 1<br>Average Impact: 12.34<br>" + "1st Factor: DRIVER INATTENTION (1 instances)"
  {
    HeaderExample();
    LinesExample();
  }
}
