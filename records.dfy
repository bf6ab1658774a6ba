/**
  Crash records as the dashboard loads them (heatmap_app_final.py, lines
  47-102): each row's factor cell becomes a normalised list, the crash
  severity label gets an ordinal score, and rows missing a latitude or a
  longitude are dropped. Coordinates are kept as integers in units of
  1e-4 degree; a missing cell is `None`.
*/
module Records {
  import opened Wrappers
  import opened Seqs
  import opened Factors

  /** One row of the CSV file, before any cleaning. */
  datatype RawRecord = RawRecord(
    latitude: Option<int>,
    longitude: Option<int>,
    contributingFactors: string,
    crashMonth: int,
    dayOfWeek: string,
    hourOfDay: int,
    crashSeverity: string,
    firstHarmfulEvent: string,
    lightCondition: string,
    weatherCondition: string,
    surfaceCondition: string)

  /** One row of the cleaned frame the dashboard queries. */
  datatype Record = Record(
    latitude: Option<int>,
    longitude: Option<int>,
    factors: seq<string>,
    crashMonth: int,
    dayOfWeek: string,
    hourOfDay: int,
    crashSeverity: string,
    severityScore: Option<nat>,
    firstHarmfulEvent: string,
    lightCondition: string,
    weatherCondition: string,
    surfaceCondition: string)

  const NOT_INJURED := "N - NOT INJURED"
  const POSSIBLE_INJURY := "C - POSSIBLE INJURY"
  const MINOR_INJURY := "B - SUSPECTED MINOR INJURY"
  const SERIOUS_INJURY := "A - SUSPECTED SERIOUS INJURY"
  const FATAL_INJURY := "K - FATAL INJURY"
  const UNKNOWN_SEVERITY := "99 - UNKNOWN"

  /** `severity_mapping` (lines 90-97). */
  const SeverityMapping: map<string, nat> := map[
    NOT_INJURED := 0,
    POSSIBLE_INJURY := 1,
    MINOR_INJURY := 2,
    SERIOUS_INJURY := 3,
    FATAL_INJURY := 4,
    UNKNOWN_SEVERITY := 0
  ]

  /**
    `Series.map(severity_mapping)` on one cell (line 100): the six known
    labels get a score from 0 to 4, any other label a missing value.
  */
  function SeverityScore(severity: string): (score: Option<nat>)
    ensures score.Some? <==> severity in {NOT_INJURED, POSSIBLE_INJURY, MINOR_INJURY, SERIOUS_INJURY, FATAL_INJURY, UNKNOWN_SEVERITY}
    ensures score.Some? ==> score.value <= 4
  {
    if severity in SeverityMapping then Some(SeverityMapping[severity]) else None
  }

  /**
    Two distinct labels share a score exactly when they are
    "N - NOT INJURED" and "99 - UNKNOWN", and both of those score 0; every
    other scored label has a score of its own.
  */
  lemma {:induction false} SeverityCollisions(a: string, b: string)
    ensures (a != b && SeverityScore(a).Some? && SeverityScore(a) == SeverityScore(b))
            <==> {a, b} == {NOT_INJURED, UNKNOWN_SEVERITY}
    ensures {a, b} == {NOT_INJURED, UNKNOWN_SEVERITY} ==> SeverityScore(a) == SeverityScore(b) == Some(0)
  {
  }

  /** Only a fatal crash reaches the top score. */
  lemma FatalIsWorst(severity: string)
    ensures SeverityScore(severity) == Some(4) <==> severity == FATAL_INJURY
  {
  }

  predicate HasCoordinates(r: Record) {
    r.latitude.Some? && r.longitude.Some?
  }

  predicate RawHasCoordinates(raw: RawRecord) {
    raw.latitude.Some? && raw.longitude.Some?
  }

  /**
    `data.dropna(subset=["Latitude", "Longitude"])` (line 102): the rows
    that have both coordinates, in their original order.
  */
  function DropMissingCoordinates(rows: seq<Record>): (kept: seq<Record>)
    ensures forall r :: r in kept ==> HasCoordinates(r)
    ensures forall r :: r in rows && HasCoordinates(r) ==> r in kept
  {
    Where(rows, HasCoordinates)
  }

  /** Dropping rows keeps the survivors in order and keeps every copy of each. */
  lemma DropKeepsLocatedRows(rows: seq<Record>, r: Record)
    ensures Subsequence(DropMissingCoordinates(rows), rows)
    ensures Occurrences(DropMissingCoordinates(rows), r) == if HasCoordinates(r) then Occurrences(rows, r) else 0
  {
    WhereIsSubsequence(rows, HasCoordinates);
    WhereOccurrences(rows, HasCoordinates, r);
  }

  /**
    The record a raw row becomes once its factor cell has been parsed and
    normalised: it keeps its coordinates, so it is located exactly when
    the raw row is, and its severity carries its score.
  */
  function Clean(raw: RawRecord, factors: seq<string>): (r: Record)
    ensures HasCoordinates(r) <==> RawHasCoordinates(raw)
    ensures r.severityScore.Some? ==> r.severityScore.value <= 4
    ensures r.severityScore == Some(4) <==> r.crashSeverity == FATAL_INJURY
  {
    FatalIsWorst(raw.crashSeverity);
    Record(raw.latitude, raw.longitude, factors, raw.crashMonth, raw.dayOfWeek, raw.hourOfDay,
           raw.crashSeverity, SeverityScore(raw.crashSeverity), raw.firstHarmfulEvent,
           raw.lightCondition, raw.weatherCondition, raw.surfaceCondition)
  }

  /**
    `r` is what loading makes of `raw`: every column copied, the severity
    scored, and the factor list a duplicate-free list of the canonical
    labels of the parsed cell.
  */
  ghost predicate LoadedFrom(raw: RawRecord, r: Record) {
    && r == Clean(raw, r.factors)
    && NoDuplicates(r.factors)
    && Elems(r.factors) == CanonicalSet(ParseFactors(raw.contributingFactors))
  }

  /** A cleaned row with a normalised factor list is what loading makes of its raw row. */
  lemma CleanIsLoaded(raw: RawRecord, factors: seq<string>)
    requires NoDuplicates(factors)
    requires Elems(factors) == CanonicalSet(ParseFactors(raw.contributingFactors))
    ensures LoadedFrom(raw, Clean(raw, factors))
  {
  }

  /** The first `i` raw rows have been loaded into `rows`, in order. */
  ghost predicate LoadedPrefix(raw: seq<RawRecord>, rows: seq<Record>, i: nat) {
    && i <= |raw| && |rows| == i
    && forall j :: 0 <= j < i ==> LoadedFrom(raw[j], rows[j])
  }

  lemma LoadedPrefixNext(raw: seq<RawRecord>, rows: seq<Record>, i: nat, r: Record)
    requires LoadedPrefix(raw, rows, i) && i < |raw| && LoadedFrom(raw[i], r)
    ensures LoadedPrefix(raw, rows + [r], i + 1)
  {
    assert forall j :: 0 <= j < i ==> (rows + [r])[j] == rows[j];
  }

  lemma DropCorresponds(raw: seq<RawRecord>, rows: seq<Record>)
    requires |raw| == |rows|
    requires forall i :: 0 <= i < |raw| ==> LoadedFrom(raw[i], rows[i])
    ensures |Where(rows, HasCoordinates)| == |Where(raw, RawHasCoordinates)|
    ensures forall i :: 0 <= i < |Where(rows, HasCoordinates)| ==>
              LoadedFrom(Where(raw, RawHasCoordinates)[i], Where(rows, HasCoordinates)[i])
  {
    WhereCorresponds(raw, rows, RawHasCoordinates, HasCoordinates, (a: RawRecord, b: Record) => LoadedFrom(a, b));
  }

  /**
    The load step (lines 47-102): parse and normalise every row's factor
    cell, score its severity, then drop the rows without coordinates. The
    i-th record returned is the cleaned form of the i-th raw row that has
    both coordinates.
  */
  method LoadRecords(raw: seq<RawRecord>) returns (data: seq<Record>)
    ensures forall r :: r in data ==> HasCoordinates(r)
    ensures |data| == |Where(raw, RawHasCoordinates)|
    ensures forall i :: 0 <= i < |data| ==> LoadedFrom(Where(raw, RawHasCoordinates)[i], data[i])
  {
    var rows: seq<Record> := [];
    for i := 0 to |raw|
      invariant LoadedPrefix(raw, rows, i)
    {
      var factors := UpdateFactorsList(ParseFactors(raw[i].contributingFactors));
      CleanIsLoaded(raw[i], factors);
      LoadedPrefixNext(raw, rows, i, Clean(raw[i], factors));
      rows := rows + [Clean(raw[i], factors)];
    }
    DropCorresponds(raw, rows);
    data := DropMissingCoordinates(rows);
  }

  /** Every loaded record has a non-empty factor list: a split never yields zero pieces. */
  lemma LoadedFactorsNonEmpty(raw: RawRecord, r: Record)
    requires LoadedFrom(raw, r)
    ensures |r.factors| > 0
  {
    var parsed := ParseFactors(raw.contributingFactors);
    assert Substitute(parsed[0]) in CanonicalSet(parsed);
  }
}
