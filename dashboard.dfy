/**
  The query behind the map (`update_graph`, heatmap_app_final.py, lines
  353-469): filter the crash records by the nine dropdowns, aggregate the
  survivors by location, and give each location its crash total, its top
  three factors and its hover text. Drawing the figure is not modelled.
*/
module Dashboard {
  import opened Wrappers
  import opened Seqs
  import opened Records
  import opened Filter
  import opened Aggregation
  import opened Ranking
  import opened Hover

  /** What the map shows at one location: marker size, top factors, hover text. */
  datatype Marker = Marker(totalCrashes: nat, topFactors: seq<FactorCount>, hoverText: string)

  /**
    The marker for one aggregated cell: sized by the cell's crash total,
    showing a correct top three of the cell's factor list, and with hover
    text built from that same total and top three.
  */
  function MarkerOf(cell: Cell, metric: string, valueText: string): (m: Marker)
    ensures m.totalCrashes == cell.totalCrashes
    ensures IsTopFactors(cell.contributingFactors, m.topFactors)
    ensures m.hoverText == HoverText(m.totalCrashes, metric, valueText, m.topFactors)
  {
    var top := TopFactors(cell.contributingFactors);
    Marker(cell.totalCrashes, top, HoverText(cell.totalCrashes, metric, valueText, top))
  }

  /**
    `markers` is what the map should show for `data` under `sel`: a marker
    exactly at the locations of matching crashes, sized by the number of
    matching crashes there, with a correct top three of their factor
    lists and hover text built from both.
  */
  ghost predicate Shows(markers: map<Coord, Marker>, data: seq<Record>, sel: Selection,
                        metric: string, valueText: Coord -> string) {
    && (forall k :: k in markers <==> Members(Select(data, sel), k) != [])
    && (forall k :: k in markers ==>
          && markers[k].totalCrashes == |Members(Select(data, sel), k)|
          && IsTopFactors(FactorsOf(Members(Select(data, sel), k)), markers[k].topFactors)
          && markers[k].hoverText
             == HoverText(markers[k].totalCrashes, metric, valueText(k), markers[k].topFactors))
  }

  /**
    One run of the callback, as intended. `valueText` gives, per location,
    the metric mean already formatted with two decimals (the means are
    floating point and are not part of this model). When no crash
    matches, there is no marker.
  */
  method UpdateGraph(data: seq<Record>, sel: Selection, metric: string, valueText: Coord -> string)
    returns (markers: map<Coord, Marker>)
    ensures Shows(markers, data, sel, metric, valueText)
  {
    var filtered := FilterRecords(data, sel);
    var groups := GroupBy(filtered);
    markers := map k | k in groups :: MarkerOf(groups[k], metric, valueText(k));
    forall k
      ensures k in markers <==> Members(filtered, k) != []
      ensures k in markers ==>
                && markers[k].totalCrashes == |Members(filtered, k)|
                && IsTopFactors(FactorsOf(Members(filtered, k)), markers[k].topFactors)
    {
      GroupByCells(filtered, k);
    }
  }

  /**
    The callback as written (lines 353-471). When the aggregated frame is
    empty, because no matching crash has coordinates, the row-wise
    `apply` that builds the hover texts returns the empty frame itself,
    and storing that frame in the single `hover_text` column fails: the
    callback raises and draws nothing (`None`). Otherwise it shows what
    `UpdateGraph` shows.
  */
  method UpdateGraphAsWritten(data: seq<Record>, sel: Selection, metric: string, valueText: Coord -> string)
    returns (result: Option<map<Coord, Marker>>)
    ensures result.None? <==> Where(Select(data, sel), HasCoordinates) == []
    ensures result.Some? ==> Shows(result.value, data, sel, metric, valueText)
  {
    var markers := UpdateGraph(data, sel, metric, valueText);
    NoLocatedRowNoKey(Select(data, sel));
    if markers == map[] {
      result := None;
    } else {
      result := Some(markers);
    }
  }

  /** Some row has coordinates exactly when some location has a member. */
  lemma NoLocatedRowNoKey(rs: seq<Record>)
    ensures Where(rs, HasCoordinates) == [] <==> forall k :: Members(rs, k) == []
  {
    if Where(rs, HasCoordinates) != [] {
      var r := Where(rs, HasCoordinates)[0];
      assert r in Where(rs, HasCoordinates);
      assert r in Members(rs, KeyOf(r).value);
    } else {
      forall k ensures Members(rs, k) == [] {
        WhereKeepsNone(rs, AtCoord(k));
      }
    }
  }

  /**
    The failure the source shows: a selection that no crash meets makes
    the callback as written raise, where the intended callback draws an
    empty map.
  */
  lemma NoMatchFailsAsWritten(data: seq<Record>, sel: Selection)
    requires forall r :: r in data ==> !Matches(sel, r)
    ensures Where(Select(data, sel), HasCoordinates) == []
  {
    SelectNothing(data, sel);
  }

  /**
    On loaded data, where every row has coordinates, the crash totals of
    the groups formed from the filtered rows, which size the markers, add
    up to the number of crashes the filters keep.
  */
  lemma MarkersCountMatches(data: seq<Record>, sel: Selection)
    requires forall r :: r in data ==> HasCoordinates(r)
    ensures TotalCrashes(GroupBy(Select(data, sel))) == |Select(data, sel)|
  {
    CrashesConserved(Select(data, sel));
    WhereKeepsAll(Select(data, sel), HasCoordinates);
  }

  /**
    On loaded data, where no factor list repeats a label, the count next
    to each top factor is the number of crashes at that location citing it.
  */
  lemma TopCountsAreCrashCounts(group: seq<Record>, top: seq<FactorCount>)
    requires forall r :: r in group ==> NoDuplicates(r.factors)
    requires IsTopFactors(FactorsOf(group), top)
    ensures forall j :: 0 <= j < |top| ==> top[j].count == |Where(group, Cites(top[j].factor))|
  {
    forall j | 0 <= j < |top| ensures top[j].count == |Where(group, Cites(top[j].factor))| {
      FactorOccurrencesCountCrashes(group, top[j].factor);
    }
  }

  /** When no crash matches the dropdowns, there is nothing to draw. */
  lemma NoMatchNoMarkers(data: seq<Record>, sel: Selection)
    requires forall r :: r in data ==> !Matches(sel, r)
    ensures GroupBy(Select(data, sel)) == map[]
  {
    SelectNothing(data, sel);
  }
}
