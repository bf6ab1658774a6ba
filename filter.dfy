/**
  The filter chain of `update_graph` (heatmap_app_final.py, lines
  364-406): nine dropdown selections, each either "All" (no constraint)
  or a concrete value that the matching column must equal, or, for the
  factor dropdown, that the record's factor list must contain.
*/
module Filter {
  import opened Seqs
  import opened Records

  /** The sentinel every dropdown offers for "no constraint". */
  const ALL := "All"

  /** A dropdown whose concrete options are integers (month, hour): "All" or a number. */
  datatype Choice = All | Exactly(value: int)

  /** The dropdown values `update_graph` receives, in its parameter order (the metric aside). */
  datatype Selection = Selection(
    factor: string,
    month: Choice,
    severity: string,
    dayOfWeek: string,
    harmfulEvent: string,
    hour: Choice,
    light: string,
    weather: string,
    surface: string)

  /** Every dropdown left at "All", as the page first loads. */
  const Unconstrained := Selection(ALL, All, ALL, ALL, ALL, All, ALL, ALL, ALL)

  /** The conjunction of all nine constraints: every selection other than "All" holds of `r`. */
  predicate Matches(sel: Selection, r: Record) {
    && (sel.factor == ALL || sel.factor in r.factors)
    && (sel.month.All? || r.crashMonth == sel.month.value)
    && (sel.dayOfWeek == ALL || r.dayOfWeek == sel.dayOfWeek)
    && (sel.hour.All? || r.hourOfDay == sel.hour.value)
    && (sel.severity == ALL || r.crashSeverity == sel.severity)
    && (sel.harmfulEvent == ALL || r.firstHarmfulEvent == sel.harmfulEvent)
    && (sel.light == ALL || r.lightCondition == sel.light)
    && (sel.weather == ALL || r.weatherCondition == sel.weather)
    && (sel.surface == ALL || r.surfaceCondition == sel.surface)
  }

  function Matcher(sel: Selection): Record -> bool {
    r => Matches(sel, r)
  }

  /** The reference result: one mask with the conjunction of all constraints. */
  function Select(data: seq<Record>, sel: Selection): (kept: seq<Record>)
    ensures forall r :: r in kept <==> r in data && Matches(sel, r)
    ensures |kept| <= |data|
  {
    Where(data, Matcher(sel))
  }

  /** One more mask on a selection's result is the selection with one more constraint. */
  lemma Narrow(data: seq<Record>, before: Selection, keep: Record -> bool, after: Selection)
    requires forall r :: Matches(after, r) == (Matches(before, r) && keep(r))
    ensures Where(Select(data, before), keep) == Select(data, after)
  {
    WhereTwice(data, Matcher(before), keep, Matcher(after));
  }

  /** The nine columns in the order `update_graph` filters on them. */
  datatype Dimension = Factor | Month | DayOfWeek | Hour | Severity | HarmfulEvent | Light | Weather | Surface

  const FILTER_ORDER: seq<Dimension> := [Factor, Month, DayOfWeek, Hour, Severity, HarmfulEvent, Light, Weather, Surface]

  /** The dropdown for `d` is set to something other than "All". */
  predicate Constrains(sel: Selection, d: Dimension) {
    match d
    case Factor => sel.factor != ALL
    case Month => sel.month != All
    case DayOfWeek => sel.dayOfWeek != ALL
    case Hour => sel.hour != All
    case Severity => sel.severity != ALL
    case HarmfulEvent => sel.harmfulEvent != ALL
    case Light => sel.light != ALL
    case Weather => sel.weather != ALL
    case Surface => sel.surface != ALL
  }

  /** The boolean mask for dimension `d` (lines 368-405). */
  function Mask(sel: Selection, d: Dimension): Record -> bool
    requires Constrains(sel, d)
  {
    match d
    case Factor => (r: Record) => sel.factor in r.factors
    case Month => (r: Record) => r.crashMonth == sel.month.value
    case DayOfWeek => (r: Record) => r.dayOfWeek == sel.dayOfWeek
    case Hour => (r: Record) => r.hourOfDay == sel.hour.value
    case Severity => (r: Record) => r.crashSeverity == sel.severity
    case HarmfulEvent => (r: Record) => r.firstHarmfulEvent == sel.harmfulEvent
    case Light => (r: Record) => r.lightCondition == sel.light
    case Weather => (r: Record) => r.weatherCondition == sel.weather
    case Surface => (r: Record) => r.surfaceCondition == sel.surface
  }

  /** `sel` restricted to the first `n` dimensions of the filter order; the rest are "All". */
  function Through(sel: Selection, n: nat): Selection {
    Selection(
      if n > 0 then sel.factor else ALL,
      if n > 1 then sel.month else All,
      if n > 4 then sel.severity else ALL,
      if n > 2 then sel.dayOfWeek else ALL,
      if n > 5 then sel.harmfulEvent else ALL,
      if n > 3 then sel.hour else All,
      if n > 6 then sel.light else ALL,
      if n > 7 then sel.weather else ALL,
      if n > 8 then sel.surface else ALL)
  }

  /** The rows left after the first `n` steps of the chain, each step masking only when its dropdown is set. */
  function Chain(data: seq<Record>, sel: Selection, n: nat): seq<Record>
    requires n <= |FILTER_ORDER|
  {
    if n == 0 then data
    else
      var d := FILTER_ORDER[n - 1];
      if Constrains(sel, d) then Where(Chain(data, sel, n - 1), Mask(sel, d)) else Chain(data, sel, n - 1)
  }

  /** After `n` steps the chain has selected exactly by the first `n` constraints. */
  lemma {:induction false} ChainSelects(data: seq<Record>, sel: Selection, n: nat)
    requires n <= |FILTER_ORDER|
    ensures Chain(data, sel, n) == Select(data, Through(sel, n))
  {
    if n == 0 {
      WhereKeepsAll(data, Matcher(Through(sel, 0)));
    } else {
      ChainSelects(data, sel, n - 1);
      var d := FILTER_ORDER[n - 1];
      if Constrains(sel, d) {
        Narrow(data, Through(sel, n - 1), Mask(sel, d), Through(sel, n));
      } else {
        assert Through(sel, n) == Through(sel, n - 1);
      }
    }
  }

  /**
    One `if selected_x != "All": filtered_data = filtered_data[mask]`
    block (lines 368-405): mask the rows when the dropdown for the `n`-th
    dimension is set, and leave them alone when it is at "All".
  */
  method FilterStep(data: seq<Record>, sel: Selection, n: nat, filtered: seq<Record>) returns (next: seq<Record>)
    requires n < |FILTER_ORDER|
    requires filtered == Chain(data, sel, n)
    ensures next == Chain(data, sel, n + 1)
  {
    var d := FILTER_ORDER[n];
    if Constrains(sel, d) {
      next := Where(filtered, Mask(sel, d));
    } else {
      next := filtered;
    }
  }

  /**
    Lines 364-406: start from a copy of the data and apply the nine
    dropdown blocks in their order. The result is the single conjunctive
    selection.
  */
  method FilterRecords(data: seq<Record>, sel: Selection) returns (filtered: seq<Record>)
    ensures filtered == Select(data, sel)
  {
    filtered := data;
    filtered := FilterStep(data, sel, 0, filtered);  // factor
    filtered := FilterStep(data, sel, 1, filtered);  // month
    filtered := FilterStep(data, sel, 2, filtered);  // day of week
    filtered := FilterStep(data, sel, 3, filtered);  // hour
    filtered := FilterStep(data, sel, 4, filtered);  // severity
    filtered := FilterStep(data, sel, 5, filtered);  // first harmful event
    filtered := FilterStep(data, sel, 6, filtered);  // light condition
    filtered := FilterStep(data, sel, 7, filtered);  // weather condition
    filtered := FilterStep(data, sel, 8, filtered);  // surface condition
    ChainSelects(data, sel, 9);
    assert Through(sel, 9) == sel;
  }

  /** With every dropdown at "All" the query sees the whole data set. */
  lemma SelectUnconstrained(data: seq<Record>)
    ensures Select(data, Unconstrained) == data
  {
    WhereKeepsAll(data, Matcher(Unconstrained));
  }

  /**
    The filter only removes rows: the result is a subsequence of the
    input that keeps every copy of each matching row and no other row.
  */
  lemma SelectKeepsMatchingRows(data: seq<Record>, sel: Selection, r: Record)
    ensures Subsequence(Select(data, sel), data)
    ensures Occurrences(Select(data, sel), r) == if Matches(sel, r) then Occurrences(data, r) else 0
  {
    WhereIsSubsequence(data, Matcher(sel));
    WhereOccurrences(data, Matcher(sel), r);
  }

  /** A constraint that no row meets yields an empty result, not an error. */
  lemma SelectNothing(data: seq<Record>, sel: Selection)
    requires forall r :: r in data ==> !Matches(sel, r)
    ensures Select(data, sel) == []
  {
    WhereKeepsNone(data, Matcher(sel));
  }
}
