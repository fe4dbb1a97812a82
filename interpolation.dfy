/** Spatial fusion of several station series into one series at the target
    point by inverse-distance weighting (`src/interpolation.py`).

    Station tables are indexed by day number. The great-circle distance of
    `src/geo_utils.py` is a parameter `haversine` of the model: the weighting
    only needs the distance values it returns. */
module Interpolation {
  import opened Tables

  /** A weight is `1 / d^power`; `Pow` is that power on reals. */
  function Pow(x: real, n: nat): (r: real)
    ensures x > 0.0 ==> r > 0.0
  {
    if n == 0 then 1.0 else x * Pow(x, n - 1)
  }

  function Weight(d: real, power: nat): (w: real)
    requires d > 0.0
    ensures w > 0.0
  {
    1.0 / Pow(d, power)
  }

  // ---------------------------------------------------------------------
  // Station metadata

  /** One row of the station inventory: the identifier and the coordinates,
      each of which may be missing. */
  datatype InventoryRow = InventoryRow(id: string, latitude: Option<real>, longitude: Option<real>)

  /** A row takes part when it is one of the requested stations and both of its
      coordinates are present. */
  predicate Qualifies(row: InventoryRow, ids: seq<string>) {
    row.id in ids && row.latitude.Some? && row.longitude.Some?
  }

  /** The dictionary comprehension over the filtered inventory: a later row for
      the same identifier replaces an earlier one. */
  function CoordinatesOf(rows: seq<InventoryRow>, ids: seq<string>): (m: map<string, (real, real)>)
    ensures forall k :: k in m ==> k in ids
  {
    if rows == [] then map[]
    else
      var m := CoordinatesOf(rows[..|rows| - 1], ids);
      var row := rows[|rows| - 1];
      if Qualifies(row, ids) then m[row.id := (row.latitude.value, row.longitude.value)] else m
  }

  /** A key is present exactly when some row qualifies for it, and it maps to
      the coordinates of the last row that does. */
  lemma {:induction false} CoordinatesOfCharacterized(rows: seq<InventoryRow>, ids: seq<string>, k: string)
    ensures k in CoordinatesOf(rows, ids) <==> exists i :: 0 <= i < |rows| && rows[i].id == k && Qualifies(rows[i], ids)
    ensures forall i :: 0 <= i < |rows| && rows[i].id == k && Qualifies(rows[i], ids)
              && (forall i' :: i < i' < |rows| ==> rows[i'].id != k || !Qualifies(rows[i'], ids))
              ==> k in CoordinatesOf(rows, ids) && CoordinatesOf(rows, ids)[k] == (rows[i].latitude.value, rows[i].longitude.value)
  {
    if rows != [] {
      var init := rows[..|rows| - 1];
      var row := rows[|rows| - 1];
      CoordinatesOfCharacterized(init, ids, k);
      if k in CoordinatesOf(init, ids) {
        var i :| 0 <= i < |init| && init[i].id == k && Qualifies(init[i], ids);
        assert rows[i] == init[i];
      }
      if exists i :: 0 <= i < |rows| && rows[i].id == k && Qualifies(rows[i], ids) {
        var i :| 0 <= i < |rows| && rows[i].id == k && Qualifies(rows[i], ids);
        if i < |init| { assert init[i] == rows[i]; }
      }
      forall i | 0 <= i < |rows| && rows[i].id == k && Qualifies(rows[i], ids)
                 && (forall i' :: i < i' < |rows| ==> rows[i'].id != k || !Qualifies(rows[i'], ids))
        ensures k in CoordinatesOf(rows, ids) && CoordinatesOf(rows, ids)[k] == (rows[i].latitude.value, rows[i].longitude.value)
      {
        if i < |init| {
          assert init[i] == rows[i];
          assert forall i' :: i < i' < |init| ==> init[i'] == rows[i'];
        }
      }
    }
  }

  /** `get_station_data`: the coordinates of the requested stations found in
      the inventory. `inventory` is `None` when loading it failed, which
      `get_station_data` reports and answers with an empty dictionary. */
  function GetStationData(inventory: Option<seq<InventoryRow>>, ids: seq<string>): (m: map<string, (real, real)>)
    ensures inventory.None? ==> m == map[]
    ensures inventory.Some? ==> forall k :: k in m <==>
              k in ids && exists i :: 0 <= i < |inventory.value| && inventory.value[i].id == k && Qualifies(inventory.value[i], ids)
    ensures inventory.Some? ==>
              var rows := inventory.value;
              forall i :: (0 <= i < |rows| && Qualifies(rows[i], ids)
                           && (forall i' :: i < i' < |rows| ==> rows[i'].id != rows[i].id || !Qualifies(rows[i'], ids)))
                          ==> rows[i].id in m && m[rows[i].id] == (rows[i].latitude.value, rows[i].longitude.value)
  {
    match inventory
    case None => map[]
    case Some(rows) =>
      CoordinatesOfAll(rows, ids);
      CoordinatesOf(rows, ids)
  }

  /** `CoordinatesOfCharacterized` for every identifier at once. */
  lemma CoordinatesOfAll(rows: seq<InventoryRow>, ids: seq<string>)
    ensures forall k :: k in CoordinatesOf(rows, ids) <==>
              k in ids && exists i :: 0 <= i < |rows| && rows[i].id == k && Qualifies(rows[i], ids)
    ensures forall i :: (0 <= i < |rows| && Qualifies(rows[i], ids)
                         && (forall i' :: i < i' < |rows| ==> rows[i'].id != rows[i].id || !Qualifies(rows[i'], ids)))
                        ==> rows[i].id in CoordinatesOf(rows, ids)
                            && CoordinatesOf(rows, ids)[rows[i].id] == (rows[i].latitude.value, rows[i].longitude.value)
  {
    forall k ensures k in CoordinatesOf(rows, ids) <==>
        k in ids && exists i :: 0 <= i < |rows| && rows[i].id == k && Qualifies(rows[i], ids) {
      CoordinatesOfCharacterized(rows, ids, k);
    }
    forall i | 0 <= i < |rows| && Qualifies(rows[i], ids)
        && (forall i' :: i < i' < |rows| ==> rows[i'].id != rows[i].id || !Qualifies(rows[i'], ids))
      ensures rows[i].id in CoordinatesOf(rows, ids)
              && CoordinatesOf(rows, ids)[rows[i].id] == (rows[i].latitude.value, rows[i].longitude.value)
    {
      CoordinatesOfCharacterized(rows, ids, rows[i].id);
    }
  }

  /** Exactly the requested ids that have a row with both coordinates are
      keys, and nothing qualifies means the empty dictionary. */
  lemma StationDataKeys(rows: seq<InventoryRow>, ids: seq<string>, k: string)
    ensures k in GetStationData(Some(rows), ids) <==>
              k in ids && exists i :: 0 <= i < |rows| && rows[i].id == k && rows[i].latitude.Some? && rows[i].longitude.Some?
    ensures (forall i :: 0 <= i < |rows| ==> !Qualifies(rows[i], ids)) ==> GetStationData(Some(rows), ids) == map[]
  {
    CoordinatesOfCharacterized(rows, ids, k);
    if forall i :: 0 <= i < |rows| ==> !Qualifies(rows[i], ids) {
      forall k' ensures k' !in GetStationData(Some(rows), ids) {
        CoordinatesOfCharacterized(rows, ids, k');
      }
    }
  }

  // ---------------------------------------------------------------------
  // Station series

  datatype StationSeries = StationSeries(id: string, table: Table)

  /** What the fetcher delivers per station: a non-empty table with one row
      per date, dates ascending, and distinct column names. */
  predicate ObservationTable(t: Table) {
    WellFormed(t) && |t.index| > 0 && StrictlyIncreasing(t.index) && NoDup(t.columns)
  }

  predicate ValidStations(stations: seq<StationSeries>) {
    forall i :: 0 <= i < |stations| ==> ObservationTable(stations[i].table)
  }

  /** `station_df.loc[day, var]` when both exist, `None` otherwise. */
  function Lookup(t: Table, day: int, variable: string): (c: Cell)
    requires WellFormed(t)
    ensures c.Some? ==> day in t.index && variable in t.columns
  {
    if day in t.index && variable in t.columns then ColumnOf(t, variable)[IndexOf(t.index, day)] else None
  }

  /** The earliest date over all station tables. */
  function FirstDay(stations: seq<StationSeries>): (d: int)
    requires |stations| > 0 && ValidStations(stations)
    ensures forall i, p :: 0 <= i < |stations| && 0 <= p < |stations[i].table.index| ==> d <= stations[i].table.index[p]
    ensures exists i :: 0 <= i < |stations| && d == stations[i].table.index[0]
  {
    var t := stations[|stations| - 1].table;
    assert forall p :: 0 <= p < |t.index| ==> t.index[0] <= t.index[p];
    if |stations| == 1 then t.index[0]
    else
      var d := FirstDay(stations[..|stations| - 1]);
      if t.index[0] < d then t.index[0] else d
  }

  /** The latest date over all station tables. */
  function LastDay(stations: seq<StationSeries>): (d: int)
    requires |stations| > 0 && ValidStations(stations)
    ensures forall i, p :: 0 <= i < |stations| && 0 <= p < |stations[i].table.index| ==> stations[i].table.index[p] <= d
    ensures exists i :: 0 <= i < |stations| && d == stations[i].table.index[|stations[i].table.index| - 1]
  {
    var t := stations[|stations| - 1].table;
    var n := |t.index|;
    assert forall p :: 0 <= p < n ==> t.index[p] <= t.index[n - 1];
    if |stations| == 1 then t.index[n - 1]
    else
      var d := LastDay(stations[..|stations| - 1]);
      if t.index[n - 1] > d then t.index[n - 1] else d
  }

  /** `pd.date_range(start, end, freq='D')`: every day from `lo` to `hi`. */
  function DayRange(lo: int, hi: int): (r: seq<int>)
    requires lo <= hi
    ensures |r| == hi - lo + 1 && StrictlyIncreasing(r)
    ensures forall k :: 0 <= k < |r| ==> r[k] == lo + k
  {
    seq(hi - lo + 1, k => lo + k)
  }

  // ---------------------------------------------------------------------
  // The per-day weighting

  /** A station's contribution to one day and variable: its distance and value. */
  datatype Sample = Sample(dist: real, value: real)

  /** A station contributes when it has a distance (that is, metadata), has the
      date, has the column, and the value there is not missing. */
  function ContributionOf(s: StationSeries, distances: map<string, real>, day: int, variable: string): (c: Option<Sample>)
    requires WellFormed(s.table)
    ensures c.Some? ==> s.id in distances && c.value.dist == distances[s.id]
  {
    if s.id in distances then
      match Lookup(s.table, day, variable)
      case Some(v) => Some(Sample(distances[s.id], v))
      case None => None
    else None
  }

  /** The four conditions for contributing, and what is contributed. */
  lemma ContributionCharacterized(s: StationSeries, distances: map<string, real>, day: int, variable: string)
    requires WellFormed(s.table)
    ensures ContributionOf(s, distances, day, variable).Some? <==>
              s.id in distances && day in s.table.index && variable in s.table.columns
              && ColumnOf(s.table, variable)[IndexOf(s.table.index, day)].Some?
    ensures ContributionOf(s, distances, day, variable).Some? ==>
              ContributionOf(s, distances, day, variable).value
              == Sample(distances[s.id], ColumnOf(s.table, variable)[IndexOf(s.table.index, day)].value)
  {
  }

  predicate AllWellFormed(stations: seq<StationSeries>) {
    forall i :: 0 <= i < |stations| ==> WellFormed(stations[i].table)
  }

  /** Every station's contribution to one day and variable, in the stations'
      iteration order. */
  function Contributions(stations: seq<StationSeries>, distances: map<string, real>, day: int, variable: string)
    : (cs: seq<Option<Sample>>)
    requires AllWellFormed(stations)
    ensures |cs| == |stations|
    ensures forall i :: 0 <= i < |stations| ==> cs[i] == ContributionOf(stations[i], distances, day, variable)
  {
    seq(|stations|, i requires 0 <= i < |stations| => ContributionOf(stations[i], distances, day, variable))
  }

  /** The present contributions among the first `n`, in order. */
  function Present(cs: seq<Option<Sample>>, n: nat): seq<Sample>
    requires n <= |cs|
  {
    if n == 0 then []
    else Present(cs, n - 1) + (if cs[n - 1].Some? then [cs[n - 1].value] else [])
  }

  /** The samples of one day and variable: the contributing stations' distances
      and values, in the stations' iteration order. */
  function Samples(stations: seq<StationSeries>, distances: map<string, real>, day: int, variable: string): (r: seq<Sample>)
    requires AllWellFormed(stations)
    ensures |r| <= |stations|
  {
    var cs := Contributions(stations, distances, day, variable);
    PresentCharacterized(cs, |cs|);
    Present(cs, |cs|)
  }

  lemma {:induction false} PresentCharacterized(cs: seq<Option<Sample>>, n: nat)
    requires n <= |cs|
    ensures |Present(cs, n)| <= n
    ensures forall x :: x in Present(cs, n) ==> exists i :: 0 <= i < n && cs[i] == Some(x)
    ensures forall i :: 0 <= i < n && cs[i].Some? ==> cs[i].value in Present(cs, n)
  {
    if n > 0 {
      PresentCharacterized(cs, n - 1);
    }
  }

  /** The positions among the first `n` that hold a contribution, ascending. */
  function SomeAt(cs: seq<Option<Sample>>, n: nat): seq<nat>
    requires n <= |cs|
  {
    if n == 0 then []
    else SomeAt(cs, n - 1) + (if cs[n - 1].Some? then [n - 1] else [])
  }

  /** `Present` takes, in order, exactly one sample from every position that
      holds a contribution. */
  lemma {:induction false} PresentExact(cs: seq<Option<Sample>>, n: nat)
    requires n <= |cs|
    ensures |SomeAt(cs, n)| == |Present(cs, n)|
    ensures forall i :: i in SomeAt(cs, n) <==> 0 <= i < n && cs[i].Some?
    ensures StrictlyIncreasing(SomeAt(cs, n))
    ensures forall k :: 0 <= k < |SomeAt(cs, n)| ==>
              SomeAt(cs, n)[k] < n && cs[SomeAt(cs, n)[k]].Some? && Present(cs, n)[k] == cs[SomeAt(cs, n)[k]].value
  {
    if n > 0 {
      PresentExact(cs, n - 1);
    }
  }

  /** The positions of the stations that contribute to one day and variable. */
  function Contributing(stations: seq<StationSeries>, distances: map<string, real>, day: int, variable: string): seq<nat>
    requires AllWellFormed(stations)
  {
    SomeAt(Contributions(stations, distances, day, variable), |stations|)
  }

  /** The samples are one per contributing station, in station order: the k-th
      sample is the contribution of the k-th contributing station. */
  lemma SamplesCharacterized(stations: seq<StationSeries>, distances: map<string, real>, day: int, variable: string)
    requires AllWellFormed(stations)
    ensures var ps := Contributing(stations, distances, day, variable);
      && |ps| == |Samples(stations, distances, day, variable)|
      && (forall i :: i in ps <==> 0 <= i < |stations| && ContributionOf(stations[i], distances, day, variable).Some?)
      && StrictlyIncreasing(ps)
      && (forall k :: 0 <= k < |ps| ==>
            ps[k] < |stations| && Some(Samples(stations, distances, day, variable)[k]) == ContributionOf(stations[ps[k]], distances, day, variable))
    ensures |Samples(stations, distances, day, variable)| <= |stations|
    ensures forall x :: x in Samples(stations, distances, day, variable) ==>
              exists i :: 0 <= i < |stations| && ContributionOf(stations[i], distances, day, variable) == Some(x)
    ensures forall i :: 0 <= i < |stations| && ContributionOf(stations[i], distances, day, variable).Some? ==>
              ContributionOf(stations[i], distances, day, variable).value in Samples(stations, distances, day, variable)
  {
    PresentCharacterized(Contributions(stations, distances, day, variable), |stations|);
    PresentExact(Contributions(stations, distances, day, variable), |stations|);
  }

  /** The present contributions among the first `n` begin those among the first `m`. */
  lemma {:induction false} PresentPrefix(cs: seq<Option<Sample>>, n: nat, m: nat)
    requires n <= m <= |cs|
    ensures Present(cs, n) <= Present(cs, m)
    decreases m - n
  {
    if n < m {
      PresentPrefix(cs, n, m - 1);
    }
  }

  /** The position of the first sample closer than `eps`, or `|s|` if none is. */
  function NearIndex(s: seq<Sample>, eps: real): (k: nat)
    ensures k <= |s|
    ensures forall i :: 0 <= i < k ==> s[i].dist >= eps
    ensures k < |s| ==> s[k].dist < eps
  {
    if s == [] then 0 else if s[0].dist < eps then 0 else 1 + NearIndex(s[1..], eps)
  }

  lemma {:induction false} NearIndexAppend(a: seq<Sample>, b: seq<Sample>, eps: real)
    ensures NearIndex(a, eps) < |a| ==> NearIndex(a + b, eps) == NearIndex(a, eps)
    ensures NearIndex(a, eps) == |a| ==> NearIndex(a + b, eps) == |a| + NearIndex(b, eps)
  {
    if a != [] {
      assert (a + b)[0] == a[0];
      assert (a + b)[1..] == a[1..] + b;
      NearIndexAppend(a[1..], b, eps);
    } else {
      assert a + b == b;
    }
  }

  /** No sample is closer than `eps`. */
  predicate AllFar(s: seq<Sample>, eps: real) {
    forall i :: 0 <= i < |s| ==> s[i].dist >= eps
  }

  lemma {:induction false} AllFarNearIndex(s: seq<Sample>, eps: real)
    requires AllFar(s, eps)
    ensures NearIndex(s, eps) == |s|
  {
    if s != [] {
      AllFarNearIndex(s[1..], eps);
    }
  }

  predicate AllPositive(s: seq<Sample>) {
    forall i :: 0 <= i < |s| ==> s[i].dist > 0.0
  }

  /** `sum_of_weights` over the samples. */
  function SumW(s: seq<Sample>, power: nat): (r: real)
    requires AllPositive(s)
    ensures s == [] <==> r == 0.0
    ensures r >= 0.0
  {
    if s == [] then 0.0 else SumW(s[..|s| - 1], power) + Weight(s[|s| - 1].dist, power)
  }

  /** `weighted_sum` over the samples. */
  function WSum(s: seq<Sample>, power: nat): real
    requires AllPositive(s)
  {
    if s == [] then 0.0 else WSum(s[..|s| - 1], power) + Weight(s[|s| - 1].dist, power) * s[|s| - 1].value
  }

  /** The count `idw_interpolate` stores on a direct hit instead of a station count. */
  const DirectHitMarker: nat := 999

  /** The interpolated value of one day and variable from its samples. A sample
      closer than `eps` is taken as it is; otherwise the weighted mean is used
      once at least `minStations` samples contributed; otherwise the value is
      missing. */
  function DayValue(s: seq<Sample>, eps: real, power: nat, minStations: nat): (v: Cell)
    requires eps > 0.0
    ensures v.Some? ==> |s| > 0
  {
    var k := NearIndex(s, eps);
    if k < |s| then
      if DirectHitMarker >= minStations then Some(s[k].value) else None
    else
      assert AllPositive(s);
      if |s| >= minStations && SumW(s, power) > 0.0 then Some(WSum(s, power) / SumW(s, power)) else None
  }

  // ---------------------------------------------------------------------
  // Properties of the weighting

  /** A sample closer than `eps` decides the day: its value is the result,
      whatever the samples before it (all farther) and after it hold. */
  lemma CoincidenceDecides(pre: seq<Sample>, d: real, v: real, post: seq<Sample>, eps: real, power: nat, minStations: nat)
    requires eps > 0.0 && d < eps && minStations <= DirectHitMarker
    requires forall i :: 0 <= i < |pre| ==> pre[i].dist >= eps
    ensures DayValue(pre + [Sample(d, v)] + post, eps, power, minStations) == Some(v)
  {
    NearIndexAppend(pre, [Sample(d, v)] + post, eps);
    assert pre + [Sample(d, v)] + post == pre + ([Sample(d, v)] + post);
  }

  /** In terms of stations: the first station in iteration order that
      contributes from closer than `eps` gives the day's value. */
  lemma FirstNearStationWins(stations: seq<StationSeries>, distances: map<string, real>, day: int, variable: string,
                             i: nat, eps: real, power: nat, minStations: nat)
    requires AllWellFormed(stations) && i < |stations|
    requires eps > 0.0 && minStations <= DirectHitMarker
    requires ContributionOf(stations[i], distances, day, variable).Some?
    requires ContributionOf(stations[i], distances, day, variable).value.dist < eps
    requires forall i' :: 0 <= i' < i && ContributionOf(stations[i'], distances, day, variable).Some? ==>
               ContributionOf(stations[i'], distances, day, variable).value.dist >= eps
    ensures DayValue(Samples(stations, distances, day, variable), eps, power, minStations)
            == Some(ContributionOf(stations[i], distances, day, variable).value.value)
  {
    var cs := Contributions(stations, distances, day, variable);
    var acc := Present(cs, i);
    PresentCharacterized(cs, i);
    forall k | 0 <= k < |acc| ensures acc[k].dist >= eps {
      assert acc[k] in acc;
    }
    HitStep(cs, i, eps);
    NearOutcome(Samples(stations, distances, day, variable), eps, power, minStations);
  }

  lemma SumStep(a: real, b: real, w: real, v: real, lo: real, hi: real, a': real, b': real)
    requires lo * a <= b <= hi * a && w > 0.0 && lo <= v <= hi
    requires a' == a + w && b' == b + w * v
    ensures lo * a' <= b' <= hi * a'
  {
    assert (v - lo) * w >= 0.0;
    assert (hi - v) * w >= 0.0;
    assert lo * (a + w) == lo * a + lo * w;
    assert hi * (a + w) == hi * a + hi * w;
  }

  /** Both sums, split into the samples before the last one and the last one. */
  lemma SumsLast(s: seq<Sample>, power: nat)
    requires AllPositive(s) && s != []
    ensures AllPositive(s[..|s| - 1])
    ensures SumW(s, power) == SumW(s[..|s| - 1], power) + Weight(s[|s| - 1].dist, power)
    ensures WSum(s, power) == WSum(s[..|s| - 1], power) + Weight(s[|s| - 1].dist, power) * s[|s| - 1].value
  {
  }

  lemma {:induction false} WeightedSumBounds(s: seq<Sample>, power: nat, lo: real, hi: real)
    requires AllPositive(s)
    requires forall i :: 0 <= i < |s| ==> lo <= s[i].value <= hi
    ensures lo * SumW(s, power) <= WSum(s, power) <= hi * SumW(s, power)
  {
    if s != [] {
      var init := s[..|s| - 1];
      SumsLast(s, power);
      assert forall i :: 0 <= i < |init| ==> init[i] == s[i];
      WeightedSumBounds(init, power, lo, hi);
      var v := s[|s| - 1].value;
      assert lo <= v <= hi;
      SumStep(SumW(init, power), WSum(init, power), Weight(s[|s| - 1].dist, power), v, lo, hi, SumW(s, power), WSum(s, power));
    }
  }

  lemma DivisionBounds(a: real, b: real, lo: real, hi: real)
    requires b > 0.0 && lo * b <= a <= hi * b
    ensures lo <= a / b <= hi
  {
    var m := a / b;
    assert m * b == a;
    assert (m - lo) * b >= 0.0;
    assert (hi - m) * b >= 0.0;
  }

  /** Without a direct hit, the weighted mean lies between any bounds of the
      contributing values, so between their minimum and maximum. */
  lemma {:induction false} MeanWithinBounds(s: seq<Sample>, eps: real, power: nat, minStations: nat, lo: real, hi: real)
    requires eps > 0.0 && |s| > 0 && |s| >= minStations
    requires forall i :: 0 <= i < |s| ==> s[i].dist >= eps
    requires forall i :: 0 <= i < |s| ==> lo <= s[i].value <= hi
    ensures DayValue(s, eps, power, minStations).Some?
    ensures lo <= DayValue(s, eps, power, minStations).value <= hi
  {
    assert AllFar(s, eps) && AllPositive(s);
    FarDayValue(s, eps, power, minStations);
    WeightedSumBounds(s, power, lo, hi);
    DivisionBounds(WSum(s, power), SumW(s, power), lo, hi);
  }

  /** Without a direct hit and with enough contributors, the day's value is
      the weighted mean. */
  lemma {:induction false} FarDayValue(s: seq<Sample>, eps: real, power: nat, minStations: nat)
    requires eps > 0.0 && |s| > 0 && |s| >= minStations
    requires AllFar(s, eps) && AllPositive(s)
    ensures DayValue(s, eps, power, minStations) == Some(WSum(s, power) / SumW(s, power))
  {
    AllFarNearIndex(s, eps);
  }

  /** A single contributor, near or far, gives its own value. */
  lemma SingleContributor(d: real, v: real, eps: real, power: nat, minStations: nat)
    requires eps > 0.0 && minStations <= 1
    ensures DayValue([Sample(d, v)], eps, power, minStations) == Some(v)
  {
    var s := [Sample(d, v)];
    assert NearIndex(s, eps) == (if d < eps then 0 else 1) by {
      assert s[1..] == [];
    }
    if d >= eps {
      assert s[..0] == [];
      var w := Weight(d, power);
      assert SumW(s, power) == w;
      assert WSum(s, power) == w * v;
      assert (w * v) / w == v;
    }
  }

  /** With the configured minimum coverage of one station, a day is missing
      exactly when no station contributes; a missing day is never zero. */
  lemma MissingExactlyWithoutContributors(s: seq<Sample>, eps: real, power: nat)
    requires eps > 0.0
    ensures DayValue(s, eps, power, 1).None? <==> s == []
  {
  }

  /** The weighted mean of two values. */
  function Mean2(w1: real, v1: real, w2: real, v2: real): real
    requires w1 + w2 != 0.0
  {
    (w1 * v1 + w2 * v2) / (w1 + w2)
  }

  lemma TwoSampleSums(d1: real, v1: real, d2: real, v2: real, power: nat)
    requires d1 > 0.0 && d2 > 0.0
    ensures SumW([Sample(d1, v1), Sample(d2, v2)], power) == Weight(d1, power) + Weight(d2, power)
    ensures WSum([Sample(d1, v1), Sample(d2, v2)], power) == Weight(d1, power) * v1 + Weight(d2, power) * v2
  {
    var s := [Sample(d1, v1), Sample(d2, v2)];
    var one := [Sample(d1, v1)];
    assert s[..1] == one && one[..0] == [];
    assert SumW(one, power) == Weight(d1, power);
    assert WSum(one, power) == Weight(d1, power) * v1;
    assert SumW(s, power) == SumW(one, power) + Weight(d2, power);
    assert WSum(s, power) == WSum(one, power) + Weight(d2, power) * v2;
  }

  lemma TwoSampleMean(d1: real, v1: real, d2: real, v2: real, eps: real, power: nat)
    requires eps > 0.0 && d1 >= eps && d2 >= eps
    ensures DayValue([Sample(d1, v1), Sample(d2, v2)], eps, power, 1)
         == Some(Mean2(Weight(d1, power), v1, Weight(d2, power), v2))
  {
    var s := [Sample(d1, v1), Sample(d2, v2)];
    assert NearIndex(s, eps) == 2 by {
      assert s[1..] == [Sample(d2, v2)];
      assert s[1..][1..] == [];
    }
    TwoSampleSums(d1, v1, d2, v2, power);
    var w1, w2 := Weight(d1, power), Weight(d2, power);
    assert SumW(s, power) == w1 + w2 && w1 + w2 > 0.0;
    assert DayValue(s, eps, power, 1) == Some(WSum(s, power) / SumW(s, power));
    assert WSum(s, power) / SumW(s, power) == Mean2(w1, v1, w2, v2);
  }

  /** The worked example: tavg 10.0 at 5 km and 20.0 at 50 km with power 2. */
  lemma TwoStationExample()
    ensures DayValue([Sample(5.0, 10.0), Sample(50.0, 20.0)], 0.001, 2, 1)
         == Some((10.0 / 25.0 + 20.0 / 2500.0) / (1.0 / 25.0 + 1.0 / 2500.0))
  {
    TwoSampleMean(5.0, 10.0, 50.0, 20.0, 0.001, 2);
    assert Mean2(1.0 / 25.0, 10.0, 1.0 / 2500.0, 20.0) == (10.0 / 25.0 + 20.0 / 2500.0) / (1.0 / 25.0 + 1.0 / 2500.0);
    assert Pow(5.0, 1) == 5.0 && Pow(50.0, 1) == 50.0;
    assert Pow(5.0, 2) == 25.0 && Pow(50.0, 2) == 2500.0;
    assert Weight(5.0, 2) == 1.0 / 25.0 && Weight(50.0, 2) == 1.0 / 2500.0;
  }

  /** `x^n` grows with `x`, strictly once `n >= 1`. */
  lemma {:induction false} PowMonotone(a: real, b: real, n: nat)
    requires 0.0 < a < b
    ensures Pow(a, n) <= Pow(b, n)
    ensures n >= 1 ==> Pow(a, n) < Pow(b, n)
  {
    if n > 0 {
      PowMonotone(a, b, n - 1);
      var p, q := Pow(a, n - 1), Pow(b, n - 1);
      assert 0.0 < p <= q;
      ProductsOrder(a, b, p, q);
      assert Pow(a, n) == a * p && Pow(b, n) == b * q;
    }
  }

  lemma ProductsOrder(a: real, b: real, p: real, q: real)
    requires 0.0 < a < b && 0.0 < p <= q
    ensures a * p < b * q
  {
    MultiplyKeepsOrder(a, b, p);
    MultiplyKeepsWeakOrder(p, q, b);
  }

  lemma MultiplyKeepsOrder(a: real, b: real, c: real)
    requires a < b && c > 0.0
    ensures a * c < b * c
  {
  }

  lemma MultiplyKeepsWeakOrder(a: real, b: real, c: real)
    requires a <= b && c > 0.0
    ensures a * c <= b * c && c * a <= c * b
  {
  }

  lemma ReciprocalDecreasing(x: real, y: real)
    requires 0.0 < x < y
    ensures 1.0 / y < 1.0 / x
  {
    assert 1.0 / x - 1.0 / y == (y - x) / (x * y);
  }

  /** With a positive power a nearer station weighs strictly more; with
      power 0 every weight is 1. */
  lemma WeightDecreasing(dNear: real, dFar: real, power: nat)
    requires 0.0 < dNear < dFar
    ensures power >= 1 ==> Weight(dFar, power) < Weight(dNear, power)
    ensures power == 0 ==> Weight(dFar, power) == Weight(dNear, power) == 1.0
  {
    PowMonotone(dNear, dFar, power);
    if power >= 1 {
      ReciprocalDecreasing(Pow(dNear, power), Pow(dFar, power));
    }
  }

  /** The two-sample mean moves away from `v2` as the first weight grows:
      it is `v2 - (v2 - v1) * w1 / (w1 + w2)`. */
  lemma Mean2Shares(w1: real, v1: real, w2: real, v2: real)
    requires w1 > 0.0 && w2 > 0.0
    ensures Mean2(w1, v1, w2, v2) == v2 - (v2 - v1) * (w1 / (w1 + w2))
  {
    var s := w1 + w2;
    assert w1 * v1 + w2 * v2 == v2 * s - (v2 - v1) * w1;
    assert (v2 * s - (v2 - v1) * w1) / s == v2 - (v2 - v1) * w1 / s;
  }

  lemma ShareIncreasing(a: real, a': real, w: real)
    requires 0.0 < a < a' && w > 0.0
    ensures a / (a + w) < a' / (a' + w)
  {
    assert a / (a + w) == 1.0 - w / (a + w);
    assert a' / (a' + w) == 1.0 - w / (a' + w);
    assert w / (a' + w) < w / (a + w) by {
      ReciprocalDecreasing(a + w, a' + w);
      MultiplyKeepsOrder(1.0 / (a' + w), 1.0 / (a + w), w);
      assert w / (a' + w) == (1.0 / (a' + w)) * w;
      assert w / (a + w) == (1.0 / (a + w)) * w;
    }
  }

  /** Moving the station with the smaller value closer, while both stay
      further than `eps`, pulls the interpolated value strictly toward it. */
  lemma CloserPullsToward(d1: real, d1n: real, v1: real, d2: real, v2: real, eps: real, power: nat)
    requires eps > 0.0 && eps <= d1n < d1 && d2 >= eps && v1 < v2 && power >= 1
    ensures DayValue([Sample(d1n, v1), Sample(d2, v2)], eps, power, 1).Some?
    ensures DayValue([Sample(d1, v1), Sample(d2, v2)], eps, power, 1).Some?
    ensures DayValue([Sample(d1n, v1), Sample(d2, v2)], eps, power, 1).value
          < DayValue([Sample(d1, v1), Sample(d2, v2)], eps, power, 1).value
  {
    TwoSampleMean(d1n, v1, d2, v2, eps, power);
    TwoSampleMean(d1, v1, d2, v2, eps, power);
    var wn, w, w2 := Weight(d1n, power), Weight(d1, power), Weight(d2, power);
    WeightDecreasing(d1n, d1, power);
    Mean2Shares(wn, v1, w2, v2);
    Mean2Shares(w, v1, w2, v2);
    ShareIncreasing(w, wn, w2);
    MultiplyKeepsOrder(w / (w + w2), wn / (wn + w2), v2 - v1);
    assert (v2 - v1) * (w / (w + w2)) < (v2 - v1) * (wn / (wn + w2));
  }

  // ---------------------------------------------------------------------
  // The interpolation loops

  /** The result column of one variable over the given days. */
  function FusedColumn(stations: seq<StationSeries>, distances: map<string, real>, days: seq<int>, variable: string,
                       eps: real, power: nat, minStations: nat): (col: seq<Cell>)
    requires AllWellFormed(stations) && eps > 0.0
    ensures |col| == |days|
  {
    if days == [] then []
    else FusedColumn(stations, distances, days[..|days| - 1], variable, eps, power, minStations)
           + [DayValue(Samples(stations, distances, days[|days| - 1], variable), eps, power, minStations)]
  }

  /** Cell `k` of a fused column is the interpolated value of day `days[k]`. */
  lemma {:induction false} FusedColumnCell(stations: seq<StationSeries>, distances: map<string, real>, days: seq<int>,
                                           variable: string, eps: real, power: nat, minStations: nat, k: nat)
    requires AllWellFormed(stations) && eps > 0.0 && k < |days|
    ensures FusedColumn(stations, distances, days, variable, eps, power, minStations)[k]
         == DayValue(Samples(stations, distances, days[k], variable), eps, power, minStations)
  {
    if k < |days| - 1 {
      var init := days[..|days| - 1];
      FusedColumnCell(stations, distances, init, variable, eps, power, minStations, k);
    }
  }

  /** The number of missing cells. */
  function CountMissing(s: seq<Cell>): (n: nat)
    ensures n <= |s|
    ensures n == 0 <==> forall i :: 0 <= i < |s| ==> s[i].Some?
  {
    if s == [] then 0 else CountMissing(s[..|s| - 1]) + (if s[|s| - 1].None? then 1 else 0)
  }

  lemma SumsAppend(s: seq<Sample>, x: Sample, power: nat)
    requires AllPositive(s) && x.dist > 0.0
    ensures AllPositive(s + [x])
    ensures SumW(s + [x], power) == SumW(s, power) + Weight(x.dist, power)
    ensures WSum(s + [x], power) == WSum(s, power) + Weight(x.dist, power) * x.value
  {
    assert (s + [x])[..|s|] == s;
  }

  /** A direct hit at contribution `i` after no earlier one fixes the day's
      decisive sample. */
  lemma HitStep(cs: seq<Option<Sample>>, i: nat, eps: real)
    requires i < |cs| && eps > 0.0 && AllFar(Present(cs, i), eps)
    requires cs[i].Some? && cs[i].value.dist < eps
    ensures var all := Present(cs, |cs|);
            var k := |Present(cs, i)|;
            NearIndex(all, eps) == k && k < |all| && all[k] == cs[i].value
  {
    var acc := Present(cs, i);
    var c := cs[i].value;
    var next := acc + [c];
    assert Present(cs, i + 1) == next;
    AllFarNearIndex(acc, eps);
    NearIndexAppend(acc, [c], eps);
    assert [c][1..] == [];
    var all := Present(cs, |cs|);
    PresentPrefix(cs, i + 1, |cs|);
    var rest := all[|next|..];
    assert all == next + rest;
    NearIndexAppend(next, rest, eps);
    assert NearIndex(next, eps) == |acc|;
    assert all[|acc|] == c;
  }

  /** One far sample added to the running sums of the stations loop. */
  lemma WeightStep(acc: seq<Sample>, dist: real, v: real, eps: real, power: nat, w: real,
                   ws: real, sw: real, ws': real, sw': real)
    requires eps > 0.0 && AllFar(acc, eps) && dist >= eps
    requires w == Weight(dist, power) && ws == WSum(acc, power) && sw == SumW(acc, power)
    requires ws' == ws + w * v && sw' == sw + w
    ensures AllFar(acc + [Sample(dist, v)], eps)
    ensures ws' == WSum(acc + [Sample(dist, v)], power) && sw' == SumW(acc + [Sample(dist, v)], power)
  {
    SumsAppend(acc, Sample(dist, v), power);
    AddProduct(ws, Weight(dist, power), w, v, WSum(acc + [Sample(dist, v)], power));
  }

  lemma AddProduct(a: real, w: real, w': real, v: real, b: real)
    requires w == w' && b == a + w * v
    ensures b == a + w' * v
  {
  }

  /** With a direct hit, the decisive sample's value is the day's value. */
  lemma NearOutcome(s: seq<Sample>, eps: real, power: nat, minStations: nat)
    requires eps > 0.0 && NearIndex(s, eps) < |s|
    ensures DayValue(s, eps, power, minStations)
         == if DirectHitMarker >= minStations then Some(s[NearIndex(s, eps)].value) else None
  {
  }

  /** Without a direct hit, the running sums decide the day. */
  lemma FarOutcome(s: seq<Sample>, eps: real, power: nat, minStations: nat, ws: real, sw: real)
    requires eps > 0.0 && AllPositive(s) && NearIndex(s, eps) == |s|
    requires ws == WSum(s, power) && sw == SumW(s, power)
    ensures DayValue(s, eps, power, minStations) == if |s| >= minStations && sw > 0.0 then Some(ws / sw) else None
  {
  }

  /** The stations loop of one day: accumulates the weights of the stations
      farther than `eps` and stops at the first one closer than that, which it
      marks with `DirectHitMarker` in place of a station count. */
  method AccumulateStations(stations: seq<StationSeries>, distances: map<string, real>, day: int, variable: string,
                            eps: real, power: nat)
    returns (weightedSum: real, sumOfWeights: real, stationsWithValue: nat)
    requires AllWellFormed(stations) && eps > 0.0
    ensures var all := Samples(stations, distances, day, variable);
      if NearIndex(all, eps) < |all| then
        weightedSum == all[NearIndex(all, eps)].value && sumOfWeights == 1.0 && stationsWithValue == DirectHitMarker
      else
        AllPositive(all) && weightedSum == WSum(all, power) && sumOfWeights == SumW(all, power)
        && stationsWithValue == |all|
  {
    weightedSum, sumOfWeights, stationsWithValue := 0.0, 0.0, 0;
    ghost var cs := Contributions(stations, distances, day, variable);
    ghost var acc: seq<Sample> := [];
    var i := 0;
    while i < |stations|
      invariant 0 <= i <= |stations|
      invariant acc == Present(cs, i)
      invariant AllFar(acc, eps)
      invariant weightedSum == WSum(acc, power) && sumOfWeights == SumW(acc, power)
      invariant stationsWithValue == |acc|
    {
      var st := stations[i];
      if st.id !in distances {
        assert cs[i] == None;
        assert Present(cs, i + 1) == acc;
        i := i + 1;
        continue;
      }
      var cell := Lookup(st.table, day, variable);
      if cell.Some? {
        var dist := distances[st.id];
        assert cs[i] == Some(Sample(dist, cell.value));
        if dist < eps {
          HitStep(cs, i, eps);
          weightedSum := cell.value;
          sumOfWeights := 1.0;
          stationsWithValue := DirectHitMarker;
          return;
        }
        var weight := Weight(dist, power);
        ghost var ws, sw := weightedSum, sumOfWeights;
        weightedSum := weightedSum + weight * cell.value;
        sumOfWeights := sumOfWeights + weight;
        WeightStep(acc, dist, cell.value, eps, power, weight, ws, sw, weightedSum, sumOfWeights);
        stationsWithValue := stationsWithValue + 1;
        acc := acc + [Sample(dist, cell.value)];
      } else {
        assert cs[i] == None;
        assert Present(cs, i + 1) == acc;
      }
      i := i + 1;
    }
    AllFarNearIndex(acc, eps);
  }

  /** One day of one variable: the stations loop, then the coverage rule. */
  method InterpolateDay(stations: seq<StationSeries>, distances: map<string, real>, day: int, variable: string,
                        eps: real, power: nat, minStations: nat) returns (value: Cell)
    requires AllWellFormed(stations) && eps > 0.0
    ensures value == DayValue(Samples(stations, distances, day, variable), eps, power, minStations)
  {
    var weightedSum, sumOfWeights, stationsWithValue := AccumulateStations(stations, distances, day, variable, eps, power);
    ghost var all := Samples(stations, distances, day, variable);
    if NearIndex(all, eps) < |all| {
      NearOutcome(all, eps, power, minStations);
      assert weightedSum / sumOfWeights == weightedSum;
    } else {
      FarOutcome(all, eps, power, minStations, weightedSum, sumOfWeights);
    }
    value := None;
    if stationsWithValue >= minStations {
      if sumOfWeights > 0.0 {
        value := Some(weightedSum / sumOfWeights);
      } else if stationsWithValue == DirectHitMarker {
        value := Some(weightedSum);
      }
    }
  }

  /** The days loop of one variable, with its count of missing days. */
  method InterpolateVariable(stations: seq<StationSeries>, distances: map<string, real>, days: seq<int>, variable: string,
                             eps: real, power: nat, minStations: nat) returns (values: seq<Cell>, missingDays: nat)
    requires AllWellFormed(stations) && eps > 0.0
    ensures values == FusedColumn(stations, distances, days, variable, eps, power, minStations)
    ensures missingDays == CountMissing(values)
  {
    values := [];
    missingDays := 0;
    for k := 0 to |days|
      invariant values == FusedColumn(stations, distances, days[..k], variable, eps, power, minStations)
      invariant missingDays == CountMissing(values)
    {
      var v := InterpolateDay(stations, distances, days[k], variable, eps, power, minStations);
      if v.None? {
        missingDays := missingDays + 1;
      }
      FusedColumnNext(stations, distances, days, variable, eps, power, minStations, k);
      CountMissingNext(values, v);
      values := values + [v];
    }
    assert days[..|days|] == days;
  }

  lemma FusedColumnNext(stations: seq<StationSeries>, distances: map<string, real>, days: seq<int>, variable: string,
                        eps: real, power: nat, minStations: nat, k: nat)
    requires AllWellFormed(stations) && eps > 0.0 && k < |days|
    ensures FusedColumn(stations, distances, days[..k + 1], variable, eps, power, minStations)
         == FusedColumn(stations, distances, days[..k], variable, eps, power, minStations)
            + [DayValue(Samples(stations, distances, days[k], variable), eps, power, minStations)]
  {
    assert days[..k + 1][..k] == days[..k];
  }

  lemma CountMissingNext(s: seq<Cell>, c: Cell)
    ensures CountMissing(s + [c]) == CountMissing(s) + if c.None? then 1 else 0
  {
    assert (s + [c])[..|s|] == s;
  }

  /** The distance of every station with metadata to the target point. */
  function DistanceMap(metadata: map<string, (real, real)>, haversine: (real, real, real, real) -> real,
                       targetLat: real, targetLon: real): (m: map<string, real>)
    ensures m.Keys == metadata.Keys
  {
    map id | id in metadata :: haversine(metadata[id].0, metadata[id].1, targetLat, targetLon)
  }

  method ComputeDistances(metadata: map<string, (real, real)>, haversine: (real, real, real, real) -> real,
                          targetLat: real, targetLon: real) returns (distances: map<string, real>)
    ensures distances == DistanceMap(metadata, haversine, targetLat, targetLon)
  {
    distances := map[];
    var todo := metadata.Keys;
    while todo != {}
      invariant todo <= metadata.Keys
      invariant distances.Keys == metadata.Keys - todo
      invariant forall id :: id in distances ==> distances[id] == haversine(metadata[id].0, metadata[id].1, targetLat, targetLon)
      decreases todo
    {
      var id :| id in todo;
      var (lat, lon) := metadata[id];
      distances := distances[id := haversine(lat, lon, targetLat, targetLon)];
      todo := todo - {id};
    }
  }

  /** The variable names in the order their first occurrence gives them, as the
      keys of the `interpolated_data` dictionary. */
  function Dedup(s: seq<string>): (r: seq<string>)
    ensures NoDup(r)
    ensures forall x :: x in r <==> x in s
  {
    if s == [] then []
    else
      var r := Dedup(s[..|s| - 1]);
      if s[|s| - 1] in r then r else NoDupSnoc(r, s[|s| - 1]); r + [s[|s| - 1]]
  }

  /** The fused series as the dictionary `interpolated_data` builds
      it: one row per day of `days`; for each listed variable in turn its
      interpolated column is stored under its name, so a repeated variable
      overwrites its column in place. */
  function Fused(stations: seq<StationSeries>, distances: map<string, real>, days: seq<int>, variables: seq<string>,
                 eps: real, power: nat, minStations: nat): (t: Table)
    requires AllWellFormed(stations) && eps > 0.0
    ensures WellFormed(t) && t.index == days
  {
    if variables == [] then Table(days, [], [])
    else
      var last := variables[|variables| - 1];
      SetColumn(Fused(stations, distances, days, variables[..|variables| - 1], eps, power, minStations),
                last, FusedColumn(stations, distances, days, last, eps, power, minStations))
  }

  /** The fused table has one column per distinct variable, in order of first
      occurrence, and the column of each is its interpolated series. */
  lemma {:induction false} FusedCharacterized(stations: seq<StationSeries>, distances: map<string, real>, days: seq<int>,
                                              variables: seq<string>, eps: real, power: nat, minStations: nat)
    requires AllWellFormed(stations) && eps > 0.0
    ensures var t := Fused(stations, distances, days, variables, eps, power, minStations);
      && t.columns == Dedup(variables)
      && forall name :: name in variables ==>
           name in t.columns && ColumnOf(t, name) == FusedColumn(stations, distances, days, name, eps, power, minStations)
  {
    if variables != [] {
      var prefix := variables[..|variables| - 1];
      var last := variables[|variables| - 1];
      FusedCharacterized(stations, distances, days, prefix, eps, power, minStations);
      var t := Fused(stations, distances, days, variables, eps, power, minStations);
      forall name | name in variables
        ensures name in t.columns && ColumnOf(t, name) == FusedColumn(stations, distances, days, name, eps, power, minStations)
      {
        if name != last {
          InInit(variables, name);
        }
      }
    }
  }

  /** The number of missing days of each listed variable, in order. */
  function MissingCounts(stations: seq<StationSeries>, distances: map<string, real>, days: seq<int>, variables: seq<string>,
                         eps: real, power: nat, minStations: nat): (counts: seq<nat>)
    requires AllWellFormed(stations) && eps > 0.0
    ensures |counts| == |variables|
  {
    if variables == [] then []
    else
      MissingCounts(stations, distances, days, variables[..|variables| - 1], eps, power, minStations)
        + [CountMissing(FusedColumn(stations, distances, days, variables[|variables| - 1], eps, power, minStations))]
  }

  lemma {:induction false} MissingCountsCell(stations: seq<StationSeries>, distances: map<string, real>, days: seq<int>,
                                             variables: seq<string>, eps: real, power: nat, minStations: nat, i: nat)
    requires AllWellFormed(stations) && eps > 0.0 && i < |variables|
    ensures MissingCounts(stations, distances, days, variables, eps, power, minStations)[i]
            == CountMissing(FusedColumn(stations, distances, days, variables[i], eps, power, minStations))
  {
    if i < |variables| - 1 {
      MissingCountsCell(stations, distances, days, variables[..|variables| - 1], eps, power, minStations, i);
    }
  }

  /** The variables loop: each variable's column is interpolated and stored
      under its name, and its number of missing days is recorded. */
  method InterpolateVariables(stations: seq<StationSeries>, distances: map<string, real>, days: seq<int>,
                              variables: seq<string>, eps: real, power: nat, minStations: nat)
    returns (fused: Table, missingDays: seq<nat>)
    requires AllWellFormed(stations) && eps > 0.0
    ensures fused == Fused(stations, distances, days, variables, eps, power, minStations)
    ensures missingDays == MissingCounts(stations, distances, days, variables, eps, power, minStations)
  {
    fused := Table(days, [], []);
    missingDays := [];
    for v := 0 to |variables|
      invariant fused == Fused(stations, distances, days, variables[..v], eps, power, minStations)
      invariant missingDays == MissingCounts(stations, distances, days, variables[..v], eps, power, minStations)
    {
      var variable := variables[v];
      assert variables[..v + 1][..v] == variables[..v] && variables[..v + 1][v] == variable;
      var values, missing := InterpolateVariable(stations, distances, days, variable, eps, power, minStations);
      fused := SetColumn(fused, variable, values);
      missingDays := missingDays + [missing];
    }
    assert variables[..|variables|] == variables;
  }

  /** `idw_interpolate`. The result is `None` exactly when there are no station
      tables or no metadata. Otherwise it has a row for every day from the
      earliest to the latest date of any station table (with or without
      metadata) and a column per requested variable, and `missingDays[i]` is
      the number of missing days of `variables[i]`. */
  method IdwInterpolate(stations: seq<StationSeries>, metadata: map<string, (real, real)>,
                        targetLat: real, targetLon: real, variables: seq<string>,
                        haversine: (real, real, real, real) -> real,
                        power: nat, eps: real, minStations: nat)
    returns (result: Option<Table>, missingDays: seq<nat>)
    requires ValidStations(stations) && eps > 0.0
    ensures result.None? <==> |stations| == 0 || |metadata| == 0
    ensures result.Some? ==>
      var distances := DistanceMap(metadata, haversine, targetLat, targetLon);
      var days := DayRange(FirstDay(stations), LastDay(stations));
      && result.value == Fused(stations, distances, days, variables, eps, power, minStations)
      && missingDays == MissingCounts(stations, distances, days, variables, eps, power, minStations)
  {
    if |stations| == 0 || |metadata| == 0 {
      return None, [];
    }
    var days := DayRange(FirstDay(stations), LastDay(stations));
    var distances := ComputeDistances(metadata, haversine, targetLat, targetLon);
    var fused;
    fused, missingDays := InterpolateVariables(stations, distances, days, variables, eps, power, minStations);
    result := Some(fused);
  }

  /** Every date of every station table, including stations without metadata,
      is a row of the fused series, and its first and last rows are dates that
      occur in the station tables. */
  lemma RangeCoversAllStationDates(stations: seq<StationSeries>, i: nat, p: nat)
    requires |stations| > 0 && ValidStations(stations)
    requires i < |stations| && p < |stations[i].table.index|
    ensures stations[i].table.index[p] in DayRange(FirstDay(stations), LastDay(stations))
  {
    var days := DayRange(FirstDay(stations), LastDay(stations));
    var d := stations[i].table.index[p];
    assert days[d - FirstDay(stations)] == d;
  }
}
