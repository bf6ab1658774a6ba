/**
  The per-location aggregation of `update_graph` (heatmap_app_final.py,
  lines 409-421): the filtered rows are grouped by their coordinates; each
  group records how many crashes it holds and the concatenation of their
  factor lists. The two floating-point means of the same aggregation are
  not part of this model.
*/
module Aggregation {
  import opened Wrappers
  import opened Seqs
  import opened Records

  /** A grouping key: a latitude and a longitude, in units of 1e-4 degree. */
  datatype Coord = Coord(latitude: int, longitude: int)

  /** One row of the aggregated frame: `total_crashes` and `contributing_factors`. */
  datatype Cell = Cell(totalCrashes: nat, contributingFactors: seq<string>)

  /** The group a row falls in; a row missing a coordinate falls in none, as in `groupby`. */
  function KeyOf(r: Record): (key: Option<Coord>)
    ensures key.Some? <==> HasCoordinates(r)
    ensures key.Some? ==> key.value == Coord(r.latitude.value, r.longitude.value)
  {
    if HasCoordinates(r) then Some(Coord(r.latitude.value, r.longitude.value)) else None
  }

  function AtCoord(k: Coord): Record -> bool {
    r => KeyOf(r) == Some(k)
  }

  /** The rows at `k`, in their order in `rs`: the reference for what one group holds. */
  function Members(rs: seq<Record>, k: Coord): (group: seq<Record>)
    ensures forall r :: r in group <==> r in rs && KeyOf(r) == Some(k)
  {
    Where(rs, AtCoord(k))
  }

  /** The factor-list lengths of `rs` added up, front to back. */
  function SumOfLengths(rs: seq<Record>): nat {
    if rs == [] then 0 else |rs[0].factors| + SumOfLengths(rs[1..])
  }

  lemma {:induction false} SumOfLengthsSnoc(init: seq<Record>, r: Record)
    ensures SumOfLengths(init + [r]) == SumOfLengths(init) + |r.factors|
  {
    if init == [] {
      assert [] + [r] == [r];
    } else {
      SumOfLengthsSnoc(init[1..], r);
      assert (init + [r])[1..] == init[1..] + [r];
    }
  }

  /**
    `sum(x, [])` over a column of lists: the lists concatenated in row
    order. Its labels are exactly the labels of the rows, and it is
    exactly as long as the rows' lists together.
  */
  function FactorsOf(rs: seq<Record>): (all: seq<string>)
    ensures forall r, f :: r in rs && f in r.factors ==> f in all
    ensures forall f :: f in all ==> exists r :: r in rs && f in r.factors
    ensures |all| == SumOfLengths(rs)
  {
    if rs == [] then []
    else
      var init := rs[..|rs| - 1];
      var last := rs[|rs| - 1];
      assert forall r :: r in rs ==> r in init || r == last;
      assert forall r :: r in init ==> r in rs;
      assert last in rs;
      assert init + [last] == rs;
      SumOfLengthsSnoc(init, last);
      FactorsOf(init) + last.factors
  }

  /** The cell after one more row of its group has been read. */
  function Absorb(groups: map<Coord, Cell>, k: Coord, r: Record): map<Coord, Cell> {
    if k in groups then
      groups[k := Cell(groups[k].totalCrashes + 1, groups[k].contributingFactors + r.factors)]
    else groups[k := Cell(1, r.factors)]
  }

  /**
    `groupby(["Latitude", "Longitude"]).agg(...)`, reading the rows in
    order. Every group holds at least one crash, and the keys are exactly
    the coordinates some row has.
  */
  function GroupBy(rs: seq<Record>): (groups: map<Coord, Cell>)
    ensures forall k :: k in groups ==> groups[k].totalCrashes >= 1
  {
    if rs == [] then map[]
    else
      var r := rs[|rs| - 1];
      match KeyOf(r)
      case None => GroupBy(rs[..|rs| - 1])
      case Some(k) => Absorb(GroupBy(rs[..|rs| - 1]), k, r)
  }

  lemma MembersSnoc(init: seq<Record>, r: Record, k: Coord)
    ensures Members(init + [r], k) == Members(init, k) + (if KeyOf(r) == Some(k) then [r] else [])
  {
    WhereAppend(init, [r], AtCoord(k));
    assert [r][1..] == [];
  }

  lemma FactorsOfSnoc(init: seq<Record>, r: Record)
    ensures FactorsOf(init + [r]) == FactorsOf(init) + r.factors
  {
    assert (init + [r])[..|init|] == init;
  }

  /** Reading one more row touches only that row's group, if it has one. */
  lemma GroupBySnoc(init: seq<Record>, r: Record)
    ensures GroupBy(init + [r]) == match KeyOf(r) case None => GroupBy(init) case Some(k) => Absorb(GroupBy(init), k, r)
  {
    assert (init + [r])[..|init|] == init;
  }

  /** The cell of `k` as the reference grouping describes it. */
  ghost predicate CellMatches(groups: map<Coord, Cell>, rs: seq<Record>, k: Coord) {
    && (k in groups <==> Members(rs, k) != [])
    && (k in groups ==> groups[k] == Cell(|Members(rs, k)|, FactorsOf(Members(rs, k))))
  }

  /** One more row keeps the cell of `k` matching its reference. */
  lemma CellMatchesSnoc(init: seq<Record>, r: Record, k: Coord)
    requires CellMatches(GroupBy(init), init, k)
    ensures CellMatches(GroupBy(init + [r]), init + [r], k)
  {
    MembersSnoc(init, r, k);
    GroupBySnoc(init, r);
    if KeyOf(r) == Some(k) {
      FactorsOfSnoc(Members(init, k), r);
      assert GroupBy(init + [r]) == Absorb(GroupBy(init), k, r);
    } else {
      assert Members(init + [r], k) == Members(init, k);
      assert k in GroupBy(init + [r]) <==> k in GroupBy(init);
    }
  }

  /**
    Each group is the reference grouping: a coordinate is a key exactly
    when some row lies there, its crash total is the number of rows there,
    and its factor list is their lists concatenated in row order.
  */
  lemma {:induction false} GroupByCells(rs: seq<Record>, k: Coord)
    ensures k in GroupBy(rs) <==> Members(rs, k) != []
    ensures k in GroupBy(rs) ==> GroupBy(rs)[k] == Cell(|Members(rs, k)|, FactorsOf(Members(rs, k)))
  {
    if rs != [] {
      var init := rs[..|rs| - 1];
      assert rs == init + [rs[|rs| - 1]];
      GroupByCells(init, k);
      CellMatchesSnoc(init, rs[|rs| - 1], k);
    }
  }

  /** Sum of the crash totals of all groups. */
  ghost function TotalCrashes(groups: map<Coord, Cell>): nat
    decreases |groups.Keys|
  {
    if groups == map[] then 0
    else
      var k :| k in groups;
      assert |(groups - {k}).Keys| < |groups.Keys| by {
        assert (groups - {k}).Keys == groups.Keys - {k};
      }
      groups[k].totalCrashes + TotalCrashes(groups - {k})
  }

  /** The total may be summed starting from any key. */
  lemma {:induction false} TotalCrashesRemove(groups: map<Coord, Cell>, k: Coord)
    requires k in groups
    ensures TotalCrashes(groups) == groups[k].totalCrashes + TotalCrashes(groups - {k})
    decreases |groups.Keys|
  {
    var j :| j in groups && TotalCrashes(groups) == groups[j].totalCrashes + TotalCrashes(groups - {j});
    if j != k {
      assert (groups - {j}).Keys == groups.Keys - {j};
      assert (groups - {k}).Keys == groups.Keys - {k};
      TotalCrashesRemove(groups - {j}, k);
      TotalCrashesRemove(groups - {k}, j);
      assert groups - {j} - {k} == groups - {k} - {j};
    }
  }

  /** Adding a row to a group adds exactly one crash to the total. */
  lemma AbsorbTotal(groups: map<Coord, Cell>, k: Coord, r: Record)
    ensures TotalCrashes(Absorb(groups, k, r)) == TotalCrashes(groups) + 1
  {
    var after := Absorb(groups, k, r);
    TotalCrashesRemove(after, k);
    if k in groups {
      TotalCrashesRemove(groups, k);
      assert after - {k} == groups - {k};
    } else {
      assert after - {k} == groups;
    }
  }

  /**
    Aggregation loses no crash and invents none: the group totals add up
    to the number of rows that have coordinates.
  */
  lemma {:induction false} CrashesConserved(rs: seq<Record>)
    ensures TotalCrashes(GroupBy(rs)) == |Where(rs, HasCoordinates)|
  {
    if rs == [] {
      assert GroupBy(rs) == map[];
    } else {
      var init := rs[..|rs| - 1];
      var r := rs[|rs| - 1];
      assert rs == init + [r];
      CrashesConserved(init);
      WhereAppend(init, [r], HasCoordinates);
      assert [r][1..] == [];
      if KeyOf(r).Some? {
        AbsorbTotal(GroupBy(init), KeyOf(r).value, r);
      }
    }
  }

  /** The rows whose factor list names `f`. */
  function Cites(f: string): Record -> bool {
    (r: Record) => f in r.factors
  }

  /**
    When every row's factor list is free of repeats (as loading makes it),
    a factor occurs in a group's concatenated list once per crash that
    names it, so counting the list counts crashes.
  */
  lemma {:induction false} FactorOccurrencesCountCrashes(rs: seq<Record>, f: string)
    requires forall r :: r in rs ==> NoDuplicates(r.factors)
    ensures Occurrences(FactorsOf(rs), f) == |Where(rs, Cites(f))|
  {
    if rs != [] {
      var init := rs[..|rs| - 1];
      var r := rs[|rs| - 1];
      assert rs == init + [r];
      FactorOccurrencesCountCrashes(init, f);
      OccurrencesAppend(FactorsOf(init), r.factors, f);
      DistinctOccurrences(r.factors, f);
      WhereAppend(init, [r], Cites(f));
      assert [r][1..] == [];
    }
  }
}
