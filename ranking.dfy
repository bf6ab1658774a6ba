/**
  The top factors of one location (heatmap_app_final.py, lines 424-426):
  `pd.Series(factors).value_counts().head(3).to_dict()` — the three most
  frequent labels of a group's concatenated factor list, each with its
  count, most frequent first.
*/
module Ranking {
  import opened Seqs

  /** One entry of `value_counts()`: a label and how often it occurs. */
  datatype FactorCount = FactorCount(factor: string, count: nat)

  /** How many entries `head(3)` keeps. */
  const TOP_N := 3

  function Labels(entries: seq<FactorCount>): (labels: seq<string>)
    ensures |labels| == |entries|
    ensures forall i :: 0 <= i < |entries| ==> labels[i] == entries[i].factor
  {
    seq(|entries|, i requires 0 <= i < |entries| => entries[i].factor)
  }

  /** The distinct labels of `s`, in order of first appearance. */
  function Distinct(s: seq<string>): (d: seq<string>)
    ensures NoDuplicates(d)
    ensures forall x :: x in d <==> x in s
  {
    if s == [] then []
    else
      var init := s[..|s| - 1];
      var last := s[|s| - 1];
      assert forall x :: x in s <==> x in init || x == last;
      var d := Distinct(init);
      if last in d then d else d + [last]
  }

  /** Each label of `d` with its number of occurrences in `s`. */
  function CountEach(s: seq<string>, d: seq<string>): (entries: seq<FactorCount>)
    ensures |entries| == |d|
    ensures forall i :: 0 <= i < |d| ==> entries[i] == FactorCount(d[i], Occurrences(s, d[i]))
  {
    seq(|d|, i requires 0 <= i < |d| => FactorCount(d[i], Occurrences(s, d[i])))
  }

  lemma CountEachLabels(s: seq<string>, d: seq<string>)
    ensures Labels(CountEach(s, d)) == d
    ensures forall e :: e in CountEach(s, d) ==> e.count == Occurrences(s, e.factor)
  {
  }

  /** `value_counts()` before sorting: each distinct label with its number of occurrences. */
  function Tally(s: seq<string>): (entries: seq<FactorCount>)
    ensures NoDuplicates(Labels(entries))
    ensures forall f :: f in Labels(entries) <==> f in s
    ensures forall e :: e in entries ==> e.count == Occurrences(s, e.factor)
    ensures |entries| == |Elems(s)|
  {
    var d := Distinct(s);
    DistinctCardinality(d);
    assert Elems(d) == Elems(s);
    CountEachLabels(s, d);
    CountEach(s, d)
  }

  /** The position of a largest count; among equal counts, the earliest. */
  function ArgMax(entries: seq<FactorCount>): (i: nat)
    requires entries != []
    ensures i < |entries|
    ensures forall j :: 0 <= j < |entries| ==> entries[j].count <= entries[i].count
    ensures forall j :: 0 <= j < i ==> entries[j].count < entries[i].count
  {
    if |entries| == 1 then 0
    else
      var i := ArgMax(entries[..|entries| - 1]);
      if entries[|entries| - 1].count > entries[i].count then |entries| - 1 else i
  }

  /** `entries` without its `i`-th entry. */
  function RemoveAt(entries: seq<FactorCount>, i: nat): (rest: seq<FactorCount>)
    requires i < |entries|
    ensures |rest| == |entries| - 1
    ensures forall e :: e in rest ==> e in entries
    ensures forall j :: 0 <= j < |entries| && j != i ==> entries[j] in rest
  {
    var rest := entries[..i] + entries[i + 1..];
    assert forall j :: 0 <= j < i ==> rest[j] == entries[j];
    assert forall j :: i < j < |entries| ==> rest[j - 1] == entries[j];
    rest
  }

  /** The `n` entries with the largest counts, largest first, chosen one at a time. */
  function TopN(entries: seq<FactorCount>, n: nat): (top: seq<FactorCount>)
    decreases n
  {
    if n == 0 || entries == [] then []
    else
      var i := ArgMax(entries);
      [entries[i]] + TopN(RemoveAt(entries, i), n - 1)
  }

  /** Entries whose labels are pairwise distinct. */
  predicate DistinctLabels(entries: seq<FactorCount>) {
    forall i, j :: 0 <= i < j < |entries| ==> entries[i].factor != entries[j].factor
  }

  predicate NonIncreasing(entries: seq<FactorCount>) {
    forall i, j :: 0 <= i < j < |entries| ==> entries[i].count >= entries[j].count
  }

  /**
    `top` is a correct top-`n` of `entries`: as many entries as there are
    up to `n`, each taken from `entries` and none twice, largest count
    first, and every entry left out counts no more than any entry kept.
  */
  ghost predicate IsTop(entries: seq<FactorCount>, n: nat, top: seq<FactorCount>) {
    && |top| == (if n < |entries| then n else |entries|)
    && (forall e :: e in top ==> e in entries)
    && DistinctLabels(top)
    && NonIncreasing(top)
    && (forall e, j :: e in entries && e !in top && 0 <= j < |top| ==> e.count <= top[j].count)
  }

  lemma RemoveAtIndex(entries: seq<FactorCount>, i: nat, j: nat)
    requires i < |entries| && j < |entries| - 1
    ensures RemoveAt(entries, i)[j] == entries[if j < i then j else j + 1]
  {
  }

  lemma {:induction false} RemoveAtKeepsDistinct(entries: seq<FactorCount>, i: nat)
    requires i < |entries| && DistinctLabels(entries)
    ensures DistinctLabels(RemoveAt(entries, i))
    ensures forall e :: e in RemoveAt(entries, i) ==> e.factor != entries[i].factor
  {
    var rest := RemoveAt(entries, i);
    forall j, k | 0 <= j < k < |rest| ensures rest[j].factor != rest[k].factor {
      RemoveAtIndex(entries, i, j);
      RemoveAtIndex(entries, i, k);
    }
    forall e | e in rest ensures e.factor != entries[i].factor {
      var j :| 0 <= j < |rest| && rest[j] == e;
      RemoveAtIndex(entries, i, j);
    }
  }

  /** A largest entry in front of a correct top of the others is a correct top of all. */
  lemma TopNStep(entries: seq<FactorCount>, n: nat, i: nat, tail: seq<FactorCount>)
    requires DistinctLabels(entries) && n >= 1 && i < |entries|
    requires forall j :: 0 <= j < |entries| ==> entries[j].count <= entries[i].count
    requires IsTop(RemoveAt(entries, i), n - 1, tail)
    ensures IsTop(entries, n, [entries[i]] + tail)
  {
    var rest := RemoveAt(entries, i);
    var top := [entries[i]] + tail;
    RemoveAtKeepsDistinct(entries, i);
    assert forall j :: 1 <= j < |top| ==> top[j] == tail[j - 1];
    assert forall e :: e in top <==> e == entries[i] || e in tail;
    assert |top| == (if n < |entries| then n else |entries|);
    assert forall e :: e in top ==> e in entries;
    assert DistinctLabels(top) by {
      forall j, k | 0 <= j < k < |top| ensures top[j].factor != top[k].factor {
        if j == 0 {
          assert top[k] in rest;
        }
      }
    }
    assert NonIncreasing(top) by {
      forall j, k | 0 <= j < k < |top| ensures top[j].count >= top[k].count {
        if j == 0 {
          assert top[k] in entries;
        }
      }
    }
    forall e, j | e in entries && e !in top && 0 <= j < |top| ensures e.count <= top[j].count {
      var m :| 0 <= m < |entries| && entries[m] == e;
      assert m != i;
      assert e in rest;
    }
  }

  /** Selecting by repeated maximum yields a correct top-`n`. */
  lemma {:induction false} TopNCorrect(entries: seq<FactorCount>, n: nat)
    requires DistinctLabels(entries)
    ensures IsTop(entries, n, TopN(entries, n))
    decreases n
  {
    if n != 0 && entries != [] {
      var i := ArgMax(entries);
      RemoveAtKeepsDistinct(entries, i);
      TopNCorrect(RemoveAt(entries, i), n - 1);
      TopNStep(entries, n, i, TopN(RemoveAt(entries, i), n - 1));
    }
  }

  /**
    What `value_counts().head(3)` promises of a factor list, stated on
    labels alone: at most three distinct labels of the list (fewer only
    when the list has fewer), each with its exact count, most frequent
    first, and no label left out occurring more often than one kept.
  */
  ghost predicate IsTopFactors(factors: seq<string>, top: seq<FactorCount>) {
    && |top| == (if TOP_N < |Elems(factors)| then TOP_N else |Elems(factors)|)
    && DistinctLabels(top)
    && (forall j :: 0 <= j < |top| ==> top[j].factor in factors)
    && (forall j :: 0 <= j < |top| ==> top[j].count == Occurrences(factors, top[j].factor))
    && NonIncreasing(top)
    && (forall f, j :: f in factors && f !in Labels(top) && 0 <= j < |top| ==>
          Occurrences(factors, f) <= top[j].count)
  }

  lemma TallyDistinct(factors: seq<string>)
    ensures DistinctLabels(Tally(factors))
  {
    var entries := Tally(factors);
    forall i, j | 0 <= i < j < |entries| ensures entries[i].factor != entries[j].factor {
      assert Labels(entries)[i] == entries[i].factor;
      assert Labels(entries)[j] == entries[j].factor;
    }
  }

  /** A correct top of the tally, read back on labels. */
  lemma TopOfTally(factors: seq<string>, top: seq<FactorCount>)
    requires IsTop(Tally(factors), TOP_N, top)
    ensures IsTopFactors(factors, top)
  {
    var entries := Tally(factors);
    forall j | 0 <= j < |top| ensures top[j].factor in factors && top[j].count == Occurrences(factors, top[j].factor) {
      assert top[j] in entries;
      var i :| 0 <= i < |entries| && entries[i] == top[j];
      assert Labels(entries)[i] == top[j].factor;
    }
    forall f, j | f in factors && f !in Labels(top) && 0 <= j < |top|
      ensures Occurrences(factors, f) <= top[j].count
    {
      assert f in Labels(entries);
      var i :| 0 <= i < |Labels(entries)| && Labels(entries)[i] == f;
      var e := entries[i];
      assert e in entries;
    }
  }

  /**
    `value_counts().head(3)`: the three most frequent labels, most
    frequent first, meeting everything `IsTopFactors` asks of them.
  */
  function TopFactors(factors: seq<string>): (top: seq<FactorCount>)
    ensures IsTopFactors(factors, top)
  {
    var top := TopN(Tally(factors), TOP_N);
    TallyDistinct(factors);
    TopNCorrect(Tally(factors), TOP_N);
    TopOfTally(factors, top);
    top
  }

  /** A group with a single factor label reports that label with its full count. */
  lemma SingleFactor(f: string, n: nat)
    requires n >= 1
    ensures TopFactors(seq(n, _ => f)) == [FactorCount(f, n)]
  {
    var factors := seq(n, _ => f);
    assert factors[0] == f;
    assert forall x :: x in factors ==> x == f;
    assert Elems(factors) == {f};
    var top := TopFactors(factors);
    assert top[0].factor == f;
    OccurrencesAll(factors, f);
  }

  lemma {:induction false} OccurrencesAll(s: seq<string>, f: string)
    requires forall i :: 0 <= i < |s| ==> s[i] == f
    ensures Occurrences(s, f) == |s|
  {
    if s != [] {
      OccurrencesAll(s[1..], f);
    }
  }
}
