/** `engineer_features`: next-day targets, lag columns over every column
    (targets included), calendar columns, and removal of every row with a
    missing cell. Shifts are by row position, as pandas `shift` is. */
module FeatureEngineering {
  import opened Tables
  import Calendar

  datatype FeatureError =
    | LengthMismatch            // the target and base lists differ in length
    | NoTargetPairs             // both lists are empty: `target_base_cols[0]` fails
    | MissingBaseColumn(name: string)
    | NoRowsLeft                // nothing survives `dropna`

  // ---------------------------------------------------------------------
  // Column operations

  /** pandas `col.shift(k)` by position: cell `p` takes cell `p - k`, and
      cells shifted in from outside the column are missing. */
  function Shift(col: seq<Cell>, k: int): (r: seq<Cell>)
    ensures |r| == |col|
  {
    seq(|col|, p requires 0 <= p < |col| => if 0 <= p - k < |col| then col[p - k] else None)
  }

  function DigitChar(d: nat): char
    requires d < 10
  {
    "0123456789"[d]
  }

  /** Python `str(n)` for a natural number. */
  function NatToString(n: nat): (s: string)
    ensures |s| > 0
  {
    if n < 10 then [DigitChar(n)] else NatToString(n / 10) + [DigitChar(n % 10)]
  }

  /** The f-string `f'{col}_lag_{i}'`. */
  function LagName(col: string, i: nat): (s: string)
    ensures |s| > |col| + 5
  {
    col + "_lag_" + NatToString(i)
  }

  /** A lag name begins with its column's name, followed by `_lag_`. */
  lemma LagNameStartsWithColumn(col: string, i: nat)
    ensures LagName(col, i)[..|col|] == col
    ensures LagName(col, i)[|col|..|col| + 5] == "_lag_"
  {
    assert LagName(col, i) == col + "_lag_" + NatToString(i);
  }

  /** The names of the lag columns of `col`, for lags 1 to `m`. */
  function LagRun(col: string, m: nat): (r: seq<string>)
    ensures |r| == m
  {
    if m == 0 then [] else LagRun(col, m - 1) + [LagName(col, m)]
  }

  /** Entry `i - 1` of `LagRun(col, m)` is the name of lag `i`. */
  lemma {:induction false} LagRunAt(col: string, m: nat, i: nat)
    requires 1 <= i <= m
    ensures LagRun(col, m)[i - 1] == LagName(col, i)
  {
    if i < m {
      LagRunAt(col, m - 1, i);
    }
  }

  /** The names of the lag columns of the first `n` of `cols`, column by
      column. */
  function LagNames(cols: seq<string>, lag: nat, n: nat): (r: seq<string>)
    requires n <= |cols|
  {
    if n == 0 then [] else LagNames(cols, lag, n - 1) + LagRun(cols[n - 1], lag)
  }

  const CalendarNames: seq<string> := ["month", "dayofyear", "weekday"]

  function MonthColumn(index: seq<int>): (r: seq<Cell>)
    ensures |r| == |index|
  {
    seq(|index|, p requires 0 <= p < |index| => Some(Calendar.Month(index[p]) as real))
  }

  function DayOfYearColumn(index: seq<int>): (r: seq<Cell>)
    ensures |r| == |index|
  {
    seq(|index|, p requires 0 <= p < |index| => Some(Calendar.DayOfYear(index[p]) as real))
  }

  function WeekdayColumn(index: seq<int>): (r: seq<Cell>)
    ensures |r| == |index|
  {
    seq(|index|, p requires 0 <= p < |index| => Some(Calendar.Weekday(index[p]) as real))
  }

  /** The cells of the target columns of the first `n` pairs, each base
      moved up one row. */
  function TargetData(t: Table, bases: seq<string>, n: nat): (r: seq<seq<Cell>>)
    requires WellFormed(t) && n <= |bases| && forall k :: 0 <= k < |bases| ==> bases[k] in t.columns
    ensures |r| == n
    ensures forall k :: 0 <= k < n ==> r[k] == Shift(ColumnOf(t, bases[k]), -1)
  {
    if n == 0 then [] else TargetData(t, bases, n - 1) + [Shift(ColumnOf(t, bases[n - 1]), -1)]
  }

  /** The cells of the lag columns of `col`, for lags 1 to `m`. */
  function LagData(col: seq<Cell>, m: nat): (r: seq<seq<Cell>>)
    ensures |r| == m
  {
    if m == 0 then [] else LagData(col, m - 1) + [Shift(col, m)]
  }

  /** Entry `i - 1` of `LagData(col, m)` is `col` moved down `i` rows. */
  lemma {:induction false} LagDataAt(col: seq<Cell>, m: nat, i: nat)
    requires 1 <= i <= m
    ensures LagData(col, m)[i - 1] == Shift(col, i)
  {
    if i < m {
      LagDataAt(col, m - 1, i);
    }
  }

  /** The cells of the lag columns of the first `n` of `cols`, column by
      column (in the order of `LagNames`). */
  function LagsData(cols: seq<seq<Cell>>, lag: nat, n: nat): (r: seq<seq<Cell>>)
    requires n <= |cols|
  {
    if n == 0 then [] else LagsData(cols, lag, n - 1) + LagData(cols[n - 1], lag)
  }

  function CalendarData(index: seq<int>): seq<seq<Cell>> {
    [MonthColumn(index), DayOfYearColumn(index), WeekdayColumn(index)]
  }

  // ---------------------------------------------------------------------
  // The stages, as folds over the loops of `engineer_features`

  /** The target loop after `n` pairs: `data[target] = data[base].shift(-1)`,
      where the base is looked up in the table as it is at that point. */
  function WithTargets(t: Table, targets: seq<string>, bases: seq<string>, n: nat): (r: Result<Table, FeatureError>)
    requires WellFormed(t) && n <= |targets| && n <= |bases|
    ensures r.Ok? ==> WellFormed(r.value) && r.value.index == t.index
  {
    if n == 0 then Ok(t)
    else match WithTargets(t, targets, bases, n - 1)
      case Err(e) => Err(e)
      case Ok(u) => TargetStep(u, targets[n - 1], bases[n - 1])
  }

  /** One pair of the target loop. */
  function TargetStep(u: Table, target: string, base: string): (r: Result<Table, FeatureError>)
    requires WellFormed(u)
    ensures r.Ok? ==> WellFormed(r.value) && r.value.index == u.index
  {
    if base in u.columns then Ok(SetColumn(u, target, Shift(ColumnOf(u, base), -1)))
    else Err(MissingBaseColumn(base))
  }

  /** Once a pair fails, the target loop's outcome is that failure. */
  lemma {:induction false} TargetErrorPersists(t: Table, targets: seq<string>, bases: seq<string>, n: nat, m: nat)
    requires WellFormed(t) && n <= m <= |targets| && m <= |bases|
    requires WithTargets(t, targets, bases, n).Err?
    ensures WithTargets(t, targets, bases, m).Err?
    ensures WithTargets(t, targets, bases, m).error == WithTargets(t, targets, bases, n).error
    decreases m - n
  {
    if n < m {
      TargetErrorPersists(t, targets, bases, n + 1, m);
    }
  }

  /** The inner lag loop for one column, lags 1 to `m`. */
  function WithLagsOf(u: Table, col: string, m: nat): (r: Table)
    requires WellFormed(u) && col in u.columns
    ensures WellFormed(r) && r.index == u.index
    ensures forall x :: x in u.columns ==> x in r.columns
  {
    if m == 0 then u
    else
      var v := WithLagsOf(u, col, m - 1);
      SetColumn(v, LagName(col, m), Shift(ColumnOf(v, col), m))
  }

  /** The outer lag loop over the first `n` of `cols`. */
  function WithLags(u: Table, cols: seq<string>, lag: nat, n: nat): (r: Table)
    requires WellFormed(u) && n <= |cols| && forall c :: c in cols ==> c in u.columns
    ensures WellFormed(r) && r.index == u.index
    ensures forall x :: x in u.columns ==> x in r.columns
  {
    if n == 0 then u else WithLagsOf(WithLags(u, cols, lag, n - 1), cols[n - 1], lag)
  }

  /** `data['month']`, `data['dayofyear']` and `data['weekday']`. */
  function WithCalendar(u: Table): (r: Table)
    requires WellFormed(u)
    ensures WellFormed(r) && r.index == u.index
  {
    var a := SetColumn(u, "month", MonthColumn(u.index));
    var b := SetColumn(a, "dayofyear", DayOfYearColumn(a.index));
    SetColumn(b, "weekday", WeekdayColumn(b.index))
  }

  /** The positions among the first `n` rows at which no cell is missing. */
  function CompletePositions(t: Table, n: nat): (ps: seq<nat>)
    requires WellFormed(t) && n <= |t.index|
    ensures forall i :: 0 <= i < |ps| ==> ps[i] < n
    ensures forall p: nat :: p in ps <==> p < n && RowComplete(t, p)
  {
    if n == 0 then [] else CompletePositions(t, n - 1) + (if RowComplete(t, n - 1) then [n - 1] else [])
  }

  /** pandas `dropna()`: the complete rows, in order. */
  function DropNa(t: Table): (r: Table)
    requires WellFormed(t)
    ensures WellFormed(r) && r.columns == t.columns
  {
    SelectRows(t, CompletePositions(t, |t.index|))
  }

  /** The kept positions ascend, so each complete row is kept once and in order. */
  lemma {:induction false} CompletePositionsAscending(t: Table, n: nat)
    requires WellFormed(t) && n <= |t.index|
    ensures StrictlyIncreasing(CompletePositions(t, n))
  {
    if n > 0 {
      CompletePositionsAscending(t, n - 1);
      var prev := CompletePositions(t, n - 1);
      assert forall i :: 0 <= i < |prev| ==> prev[i] < n - 1;
    }
  }

  /** The rows `dropna` leaves are exactly the complete rows of the table, in
      their order, each with its date and cells. */
  lemma DropNaRows(t: Table)
    requires WellFormed(t)
    ensures var ps := CompletePositions(t, |t.index|);
      var r := DropNa(t);
      && StrictlyIncreasing(ps)
      && (forall p: nat :: p in ps <==> p < |t.index| && RowComplete(t, p))
      && r.columns == t.columns && |r.index| == |ps|
      && (forall k :: 0 <= k < |ps| ==> r.index[k] == t.index[ps[k]])
      && (forall j, k :: 0 <= j < |r.data| && 0 <= k < |ps| ==> r.data[j][k] == t.data[j][ps[k]])
  {
    CompletePositionsAscending(t, |t.index|);
  }

  /** The lag count: `range(1, lag_days + 1)` is empty for `lag_days <= 0`. */
  function LagCount(lagDays: int): (k: nat)
    ensures k == 0 <==> lagDays <= 0
  {
    if lagDays > 0 then lagDays else 0
  }

  /** The table before `dropna`, once the targets are in place. */
  function Expanded(u: Table, lagDays: int): (w: Table)
    requires WellFormed(u)
    ensures WellFormed(w) && w.index == u.index
  {
    WithCalendar(WithLags(u, u.columns, LagCount(lagDays), |u.columns|))
  }

  /** The whole of `engineer_features`. */
  function Engineered(t: Table, targets: seq<string>, bases: seq<string>, lagDays: int): (r: Result<Table, FeatureError>)
    requires WellFormed(t)
    ensures r.Ok? ==> WellFormed(r.value) && !IsEmpty(r.value)
  {
    if |targets| != |bases| then Err(LengthMismatch)
    else if |bases| == 0 then Err(NoTargetPairs)
    else if bases[0] !in t.columns then Err(MissingBaseColumn(bases[0]))
    else match WithTargets(t, targets, bases, |bases|)
      case Err(e) => Err(e)
      case Ok(u) =>
        var d := DropNa(Expanded(u, lagDays));
        if IsEmpty(d) then Err(NoRowsLeft) else Ok(d)
  }

  // ---------------------------------------------------------------------
  // The target loop

  /** A pair's base is available when it is an original column or a target
      made by an earlier pair. */
  predicate BaseAvailable(t: Table, targets: seq<string>, bases: seq<string>, k: nat)
    requires k < |targets| && k < |bases|
  {
    bases[k] in t.columns || bases[k] in targets[..k]
  }

  /** While the target loop succeeds, its columns are the original columns
      and the targets made so far. */
  lemma {:induction false} TargetColumns(t: Table, targets: seq<string>, bases: seq<string>, n: nat)
    requires WellFormed(t) && n <= |targets| && n <= |bases|
    requires WithTargets(t, targets, bases, n).Ok?
    ensures forall x :: x in WithTargets(t, targets, bases, n).value.columns <==> x in t.columns || x in targets[..n]
  {
    if n > 0 {
      var prev := WithTargets(t, targets, bases, n - 1);
      assert prev.Ok?;
      TargetColumns(t, targets, bases, n - 1);
      var v := prev.value;
      var target, base := targets[n - 1], bases[n - 1];
      assert base in v.columns;
      var u := SetColumn(v, target, Shift(ColumnOf(v, base), -1));
      assert WithTargets(t, targets, bases, n) == Ok(u);
      assert forall x :: x in u.columns <==> x in v.columns || x == target;
      SliceNext(targets, n - 1);
      assert forall x :: x in targets[..n] <==> x in targets[..n - 1] || x == target;
    }
  }

  /** One more pair of the target loop, in terms of its outcome only. */
  lemma {:induction false} TargetNext(t: Table, targets: seq<string>, bases: seq<string>, n: nat)
    requires WellFormed(t) && 0 < n <= |targets| && n <= |bases|
    ensures var prev, next := WithTargets(t, targets, bases, n - 1), WithTargets(t, targets, bases, n);
      && (prev.Err? ==> next.Err? && next.error == prev.error)
      && (prev.Ok? ==> (next.Ok? <==> bases[n - 1] in prev.value.columns))
      && (prev.Ok? && next.Err? ==> next.error == MissingBaseColumn(bases[n - 1]))
  {
  }

  /** A base is in the table the loop has built so far exactly when it is
      available. */
  lemma {:induction false} AvailableInColumns(t: Table, targets: seq<string>, bases: seq<string>, k: nat, cols: seq<string>)
    requires k < |targets| && k < |bases|
    requires forall x :: x in cols <==> x in t.columns || x in targets[..k]
    ensures bases[k] in cols <==> BaseAvailable(t, targets, bases, k)
  {
  }

  /** The first of the first `n` pairs whose base is not available. */
  function FirstUnavailable(t: Table, targets: seq<string>, bases: seq<string>, n: nat): (r: Option<nat>)
    requires n <= |targets| && n <= |bases|
    ensures r.Some? ==> r.value < n
  {
    if n == 0 then None
    else match FirstUnavailable(t, targets, bases, n - 1)
      case Some(k) => Some(k)
      case None => if BaseAvailable(t, targets, bases, n - 1) then None else Some(n - 1)
  }

  /** One more pair for `FirstUnavailable`. */
  lemma {:induction false} FirstNext(t: Table, targets: seq<string>, bases: seq<string>, n: nat)
    requires 0 < n <= |targets| && n <= |bases|
    ensures var before, after := FirstUnavailable(t, targets, bases, n - 1), FirstUnavailable(t, targets, bases, n);
      && (before.Some? ==> after == before)
      && (before.None? ==> (after.None? <==> BaseAvailable(t, targets, bases, n - 1)))
      && (before.None? && after.Some? ==> after.value == n - 1)
  {
  }

  /** `FirstUnavailable` against its definition by quantifiers. */
  lemma {:induction false} FirstUnavailableMeans(t: Table, targets: seq<string>, bases: seq<string>, n: nat)
    requires n <= |targets| && n <= |bases|
    ensures FirstUnavailable(t, targets, bases, n).None? <==> forall k :: 0 <= k < n ==> BaseAvailable(t, targets, bases, k)
    ensures FirstUnavailable(t, targets, bases, n).Some? ==>
              var k := FirstUnavailable(t, targets, bases, n).value;
              !BaseAvailable(t, targets, bases, k) && forall j :: 0 <= j < k ==> BaseAvailable(t, targets, bases, j)
  {
    if n > 0 {
      FirstUnavailableMeans(t, targets, bases, n - 1);
    }
  }

  /** The target loop fails exactly at the first pair whose base is not
      available, naming that base. */
  lemma {:induction false} TargetOutcome(t: Table, targets: seq<string>, bases: seq<string>, n: nat)
    requires WellFormed(t) && n <= |targets| && n <= |bases|
    ensures WithTargets(t, targets, bases, n).Ok? <==> FirstUnavailable(t, targets, bases, n).None?
    ensures WithTargets(t, targets, bases, n).Err? ==>
              WithTargets(t, targets, bases, n).error == MissingBaseColumn(bases[FirstUnavailable(t, targets, bases, n).value])
  {
    if n > 0 {
      TargetOutcome(t, targets, bases, n - 1);
      if WithTargets(t, targets, bases, n - 1).Ok? {
        OutcomeAfterOk(t, targets, bases, n);
      } else {
        OutcomeAfterErr(t, targets, bases, n);
      }
    }
  }

  /** The step of `TargetOutcome` when the loop has succeeded so far. */
  lemma {:induction false} OutcomeAfterOk(t: Table, targets: seq<string>, bases: seq<string>, n: nat)
    requires WellFormed(t) && 0 < n <= |targets| && n <= |bases|
    requires WithTargets(t, targets, bases, n - 1).Ok? && FirstUnavailable(t, targets, bases, n - 1).None?
    ensures WithTargets(t, targets, bases, n).Ok? <==> FirstUnavailable(t, targets, bases, n).None?
    ensures WithTargets(t, targets, bases, n).Err? ==>
              WithTargets(t, targets, bases, n).error == MissingBaseColumn(bases[FirstUnavailable(t, targets, bases, n).value])
  {
    BuiltAvailable(t, targets, bases, n - 1);
    FirstNext(t, targets, bases, n);
    TargetNext(t, targets, bases, n);
  }

  /** The step of `TargetOutcome` once the loop has failed. */
  lemma {:induction false} OutcomeAfterErr(t: Table, targets: seq<string>, bases: seq<string>, n: nat)
    requires WellFormed(t) && 0 < n <= |targets| && n <= |bases|
    requires WithTargets(t, targets, bases, n - 1).Err? && FirstUnavailable(t, targets, bases, n - 1).Some?
    requires WithTargets(t, targets, bases, n - 1).error ==
               MissingBaseColumn(bases[FirstUnavailable(t, targets, bases, n - 1).value])
    ensures WithTargets(t, targets, bases, n).Err? && FirstUnavailable(t, targets, bases, n).Some?
    ensures WithTargets(t, targets, bases, n).error == MissingBaseColumn(bases[FirstUnavailable(t, targets, bases, n).value])
  {
    TargetNext(t, targets, bases, n);
    FirstNext(t, targets, bases, n);
  }

  /** While the loop succeeds, the next base is in the table built so far
      exactly when it is available. */
  lemma {:induction false} BuiltAvailable(t: Table, targets: seq<string>, bases: seq<string>, k: nat)
    requires WellFormed(t) && k < |targets| && k < |bases|
    requires WithTargets(t, targets, bases, k).Ok?
    ensures bases[k] in WithTargets(t, targets, bases, k).value.columns <==> BaseAvailable(t, targets, bases, k)
  {
    TargetColumns(t, targets, bases, k);
    AvailableInColumns(t, targets, bases, k, WithTargets(t, targets, bases, k).value.columns);
  }

  /** With fresh, distinct target names and bases among the original
      columns, the target loop appends one column per pair: the base moved
      up one row. */
  lemma {:induction false} TargetsAppended(t: Table, targets: seq<string>, bases: seq<string>, n: nat)
    requires WellFormed(t) && n <= |targets| == |bases| && NoDup(t.columns + targets)
    requires forall k :: 0 <= k < |bases| ==> bases[k] in t.columns
    ensures WithTargets(t, targets, bases, n).Ok?
    ensures WithTargets(t, targets, bases, n).value.columns == t.columns + targets[..n]
    ensures WithTargets(t, targets, bases, n).value.data == t.data + TargetData(t, bases, n)
  {
    if n > 0 {
      TargetsAppended(t, targets, bases, n - 1);
      var v := WithTargets(t, targets, bases, n - 1).value;
      var base := bases[n - 1];
      FreshNext(t.columns, targets, n - 1);
      ColumnOfExtended(t, v, base, targets[..n - 1], TargetData(t, bases, n - 1));
      AppendNext(t.columns, targets, n - 1);
      AppendAssoc(t.data, TargetData(t, bases, n - 1), [Shift(ColumnOf(t, base), -1)]);
    }
  }

  // ---------------------------------------------------------------------
  // The lag loops

  /** With fresh names, the inner loop appends the lag columns of `c`. */
  lemma {:induction false} LagsOfAppended(v: Table, c: string, col: seq<Cell>, m: nat)
    requires WellFormed(v) && c in v.columns && ColumnOf(v, c) == col && NoDup(v.columns + LagRun(c, m))
    ensures WithLagsOf(v, c, m).columns == v.columns + LagRun(c, m)
    ensures WithLagsOf(v, c, m).data == v.data + LagData(col, m)
  {
    if m > 0 {
      FreshLast(v.columns, LagRun(c, m - 1), LagName(c, m));
      LagsOfAppended(v, c, col, m - 1);
      var p := WithLagsOf(v, c, m - 1);
      ColumnOfExtended(v, p, c, LagRun(c, m - 1), LagData(col, m - 1));
      var cur := WithLagsOf(v, c, m);
      AppendStep(cur.columns, p.columns, v.columns, LagRun(c, m - 1), [LagName(c, m)], LagRun(c, m));
      AppendStep(cur.data, p.data, v.data, LagData(col, m - 1), [Shift(col, m)], LagData(col, m));
    }
  }

  /** With fresh names, the outer loop over the first `n` columns appends
      their lag columns. */
  lemma {:induction false} LagsAppended(u: Table, lag: nat, n: nat)
    requires WellFormed(u) && n <= |u.columns| && NoDup(u.columns + LagNames(u.columns, lag, n))
    ensures WithLags(u, u.columns, lag, n).columns == u.columns + LagNames(u.columns, lag, n)
    ensures WithLags(u, u.columns, lag, n).data == u.data + LagsData(u.data, lag, n)
  {
    if n > 0 {
      NoDupRun(u.columns, LagNames(u.columns, lag, n - 1), LagRun(u.columns[n - 1], lag));
      NoDupLeft(u.columns, LagNames(u.columns, lag, n));
      LagsAppended(u, lag, n - 1);
      LagsStep(u, lag, n);
    }
  }

  /** The lags of column `n - 1` go after those of the columns before it. */
  lemma {:induction false} LagsStep(u: Table, lag: nat, n: nat)
    requires WellFormed(u) && 0 < n <= |u.columns| && NoDup(u.columns)
    requires NoDup((u.columns + LagNames(u.columns, lag, n - 1)) + LagRun(u.columns[n - 1], lag))
    requires WithLags(u, u.columns, lag, n - 1).columns == u.columns + LagNames(u.columns, lag, n - 1)
    requires WithLags(u, u.columns, lag, n - 1).data == u.data + LagsData(u.data, lag, n - 1)
    ensures WithLags(u, u.columns, lag, n).columns == u.columns + LagNames(u.columns, lag, n)
    ensures WithLags(u, u.columns, lag, n).data == u.data + LagsData(u.data, lag, n)
  {
    var f, c := u.columns, u.columns[n - 1];
    var names, run := LagNames(f, lag, n - 1), LagRun(c, lag);
    var prev := WithLags(u, f, lag, n - 1);
    ColumnOfExtended(u, prev, c, names, LagsData(u.data, lag, n - 1));
    ColumnAt(u, n - 1);
    NoDupEq(prev.columns, f + names, run);
    LagsOfAppended(prev, c, ColumnOf(u, c), lag);
    LagsStepColumns(u, lag, n);
    LagsStepData(u, lag, n, ColumnOf(u, c));
  }

  lemma {:induction false} LagsStepColumns(u: Table, lag: nat, n: nat)
    requires WellFormed(u) && 0 < n <= |u.columns|
    requires WithLags(u, u.columns, lag, n - 1).columns == u.columns + LagNames(u.columns, lag, n - 1)
    requires WithLags(u, u.columns, lag, n).columns == WithLags(u, u.columns, lag, n - 1).columns + LagRun(u.columns[n - 1], lag)
    ensures WithLags(u, u.columns, lag, n).columns == u.columns + LagNames(u.columns, lag, n)
  {
    var f := u.columns;
    AppendStep(WithLags(u, f, lag, n).columns, WithLags(u, f, lag, n - 1).columns, f, LagNames(f, lag, n - 1),
               LagRun(f[n - 1], lag), LagNames(f, lag, n));
  }

  lemma {:induction false} LagsStepData(u: Table, lag: nat, n: nat, col: seq<Cell>)
    requires WellFormed(u) && 0 < n <= |u.columns| && col == u.data[n - 1]
    requires WithLags(u, u.columns, lag, n - 1).data == u.data + LagsData(u.data, lag, n - 1)
    requires WithLags(u, u.columns, lag, n).data == WithLags(u, u.columns, lag, n - 1).data + LagData(col, lag)
    ensures WithLags(u, u.columns, lag, n).data == u.data + LagsData(u.data, lag, n)
  {
    var f := u.columns;
    AppendStep(WithLags(u, f, lag, n).data, WithLags(u, f, lag, n - 1).data, u.data, LagsData(u.data, lag, n - 1),
               LagData(u.data[n - 1], lag), LagsData(u.data, lag, n));
  }

  /** Every lag name of each of the first `n` columns is among the lag names. */
  lemma {:induction false} LagNamesContain(cols: seq<string>, lag: nat, n: nat, j: nat, i: nat)
    requires j < n <= |cols| && 1 <= i <= lag
    ensures LagName(cols[j], i) in LagNames(cols, lag, n)
  {
    if j < n - 1 {
      LagNamesContain(cols, lag, n - 1, j, i);
    } else {
      LagRunAt(cols[j], lag, i);
    }
  }

  /** Every lag name is the lag name of one of the first `n` columns at a lag
      from 1 to `lag`. */
  lemma {:induction false} LagNamesOnly(cols: seq<string>, lag: nat, n: nat, x: string)
    requires n <= |cols| && x in LagNames(cols, lag, n)
    ensures exists j, i :: 0 <= j < n && 1 <= i <= lag && x == LagName(cols[j], i)
  {
    if x in LagNames(cols, lag, n - 1) {
      LagNamesOnly(cols, lag, n - 1, x);
    } else {
      var r := LagRun(cols[n - 1], lag);
      var k :| 0 <= k < |r| && r[k] == x;
      LagRunAt(cols[n - 1], lag, k + 1);
    }
  }

  /** Where lag `i` of column `j` sits among the lag names. */
  lemma {:induction false} LagNamesAt(cols: seq<string>, lag: nat, n: nat, j: nat, i: nat)
    requires j < n <= |cols| && 1 <= i <= lag
    ensures |LagNames(cols, lag, j)| + i - 1 < |LagNames(cols, lag, n)|
    ensures LagNames(cols, lag, n)[|LagNames(cols, lag, j)| + i - 1] == LagName(cols[j], i)
  {
    var p := |LagNames(cols, lag, j)| + i - 1;
    if j < n - 1 {
      LagNamesAt(cols, lag, n - 1, j, i);
      IndexLeft(LagNames(cols, lag, n - 1), LagRun(cols[n - 1], lag), p);
    } else {
      IndexRight(LagNames(cols, lag, j), LagRun(cols[j], lag), i - 1);
      LagRunAt(cols[j], lag, i);
    }
  }

  /** Where lag `i` of column `j` sits among the lag cells. */
  lemma {:induction false} LagsDataAt(cols: seq<seq<Cell>>, lag: nat, n: nat, j: nat, i: nat)
    requires j < n <= |cols| && 1 <= i <= lag
    ensures |LagsData(cols, lag, j)| + i - 1 < |LagsData(cols, lag, n)|
    ensures LagsData(cols, lag, n)[|LagsData(cols, lag, j)| + i - 1] == Shift(cols[j], i)
  {
    var p := |LagsData(cols, lag, j)| + i - 1;
    if j < n - 1 {
      LagsDataAt(cols, lag, n - 1, j, i);
      IndexLeft(LagsData(cols, lag, n - 1), LagData(cols[n - 1], lag), p);
    } else {
      IndexRight(LagsData(cols, lag, j), LagData(cols[j], lag), i - 1);
      LagDataAt(cols[j], lag, i);
    }
  }

  /** There are as many lag names as lag columns. */
  lemma {:induction false} LagLengths(names: seq<string>, cols: seq<seq<Cell>>, lag: nat, n: nat)
    requires n <= |names| && n <= |cols|
    ensures |LagNames(names, lag, n)| == |LagsData(cols, lag, n)|
  {
    if n > 0 {
      LagLengths(names, cols, lag, n - 1);
    }
  }

  /** Lag `i` of column `j` sits at the same place among the lag names and
      among the lag cells. */
  lemma {:induction false} LagAt(names: seq<string>, cols: seq<seq<Cell>>, lag: nat, n: nat, j: nat, i: nat)
    requires j < n <= |names| && n <= |cols| && 1 <= i <= lag
    ensures var off := |LagNames(names, lag, j)| + i - 1;
      && off < |LagNames(names, lag, n)| && off < |LagsData(cols, lag, n)|
      && LagNames(names, lag, n)[off] == LagName(names[j], i)
      && LagsData(cols, lag, n)[off] == Shift(cols[j], i)
  {
    LagNamesAt(names, lag, n, j, i);
    LagsDataAt(cols, lag, n, j, i);
    LagLengths(names, cols, lag, j);
  }

  /** `lag` lag columns per column. */
  lemma {:induction false} LagNamesCount(names: seq<string>, lag: nat, n: nat)
    requires n <= |names|
    ensures |LagNames(names, lag, n)| == n * lag
  {
    if n > 0 {
      LagNamesCount(names, lag, n - 1);
      assert (n - 1) * lag + lag == n * lag;
    }
  }

  /** With fresh names, the calendar columns are appended after the others. */
  lemma {:induction false} CalendarAppended(u: Table)
    requires WellFormed(u) && NoDup(u.columns + CalendarNames)
    ensures WithCalendar(u).columns == u.columns + CalendarNames
    ensures WithCalendar(u).data == u.data + CalendarData(u.index)
  {
    NoDupConcat(u.columns, CalendarNames);
    assert "month" in CalendarNames && "dayofyear" in CalendarNames && "weekday" in CalendarNames;
    AppendThree(u.columns, "month", "dayofyear", "weekday");
    AppendThree(u.data, MonthColumn(u.index), DayOfYearColumn(u.index), WeekdayColumn(u.index));
  }

  // ---------------------------------------------------------------------
  // The table before dropna

  /** The columns of the result: the original columns, the targets, the lag
      columns of both (column by column, lags 1 to `lag`), then the calendar
      columns. */
  function Layout(columns: seq<string>, targets: seq<string>, lag: nat): seq<string> {
    var base := columns + targets;
    (base + LagNames(base, lag, |base|)) + CalendarNames
  }

  /** The inputs for which every name the function creates is new: distinct
      original columns, distinct targets that are not original columns, and
      no generated lag or calendar name clashing with another column. */
  predicate Conforming(t: Table, targets: seq<string>, bases: seq<string>, lagDays: int) {
    && WellFormed(t)
    && |targets| == |bases| > 0
    && (forall k :: 0 <= k < |bases| ==> bases[k] in t.columns)
    && NoDup(Layout(t.columns, targets, LagCount(lagDays)))
  }

  /** The table of the target loop on conforming inputs. */
  function Targeted(t: Table, targets: seq<string>, bases: seq<string>, lagDays: int): (u: Table)
    requires Conforming(t, targets, bases, lagDays)
    ensures WellFormed(u) && u.index == t.index
    ensures u.columns == t.columns + targets && u.data == t.data + TargetData(t, bases, |bases|)
    ensures WithTargets(t, targets, bases, |bases|) == Ok(u)
  {
    var base := t.columns + targets;
    var lag := LagCount(lagDays);
    NoDupLeft(base + LagNames(base, lag, |base|), CalendarNames);
    NoDupLeft(base, LagNames(base, lag, |base|));
    TargetsAppended(t, targets, bases, |bases|);
    TakeAll(targets);
    WithTargets(t, targets, bases, |bases|).value
  }

  /** On conforming inputs the table before `dropna` has exactly the columns
      of `Layout`, holding the original cells, the targets, the lags of
      both and the calendar columns, in that order. */
  lemma {:induction false} ExpandedLayout(t: Table, targets: seq<string>, bases: seq<string>, lagDays: int)
    requires Conforming(t, targets, bases, lagDays)
    ensures var u := Targeted(t, targets, bases, lagDays);
      var w := Expanded(u, lagDays);
      && w.columns == Layout(t.columns, targets, LagCount(lagDays))
      && w.data == (u.data + LagsData(u.data, LagCount(lagDays), |u.data|)) + CalendarData(t.index)
  {
    var u := Targeted(t, targets, bases, lagDays);
    var lag := LagCount(lagDays);
    var names := LagNames(u.columns, lag, |u.columns|);
    NoDupLeft(u.columns + names, CalendarNames);
    LagsAppended(u, lag, |u.columns|);
    CalendarAppended(WithLags(u, u.columns, lag, |u.columns|));
  }

  /** NoDup of the layout for the pieces of it. */
  lemma {:induction false} LayoutNoDup(columns: seq<string>, targets: seq<string>, lag: nat)
    requires NoDup(Layout(columns, targets, lag))
    ensures NoDup(columns + targets) && NoDup(columns)
  {
    var base := columns + targets;
    NoDupLeft(base + LagNames(base, lag, |base|), CalendarNames);
    NoDupLeft(base, LagNames(base, lag, |base|));
    NoDupLeft(columns, targets);
  }

  /** The original columns pass through unchanged. */
  lemma {:induction false} ExpandedOriginals(t: Table, targets: seq<string>, bases: seq<string>, lagDays: int)
    requires Conforming(t, targets, bases, lagDays)
    ensures var w := Expanded(Targeted(t, targets, bases, lagDays), lagDays);
      forall x :: x in t.columns ==> x in w.columns && ColumnOf(w, x) == ColumnOf(t, x)
  {
    var u := Targeted(t, targets, bases, lagDays);
    var w := Expanded(u, lagDays);
    ExpandedLayout(t, targets, bases, lagDays);
    LayoutNoDup(t.columns, targets, LagCount(lagDays));
    forall x | x in t.columns ensures x in w.columns && ColumnOf(w, x) == ColumnOf(t, x) {
      var j := IndexOf(t.columns, x);
      IndexLeft(t.columns, targets, j);
      IndexLeft(t.data, TargetData(t, bases, |bases|), j);
      BaseColumnAt(w, u.columns, u.data, LagCount(lagDays), j);
    }
  }

  /** Target `k` is base `k` moved up one row: `shift(-1)`. */
  lemma {:induction false} ExpandedTargets(t: Table, targets: seq<string>, bases: seq<string>, lagDays: int)
    requires Conforming(t, targets, bases, lagDays)
    ensures var w := Expanded(Targeted(t, targets, bases, lagDays), lagDays);
      forall k :: 0 <= k < |targets| ==>
        targets[k] in w.columns && ColumnOf(w, targets[k]) == Shift(ColumnOf(t, bases[k]), -1)
  {
    var w := Expanded(Targeted(t, targets, bases, lagDays), lagDays);
    forall k | 0 <= k < |targets|
      ensures targets[k] in w.columns && ColumnOf(w, targets[k]) == Shift(ColumnOf(t, bases[k]), -1)
    {
      ExpandedTargetAt(t, targets, bases, lagDays, k);
    }
  }

  lemma {:induction false} ExpandedTargetAt(t: Table, targets: seq<string>, bases: seq<string>, lagDays: int, k: nat)
    requires Conforming(t, targets, bases, lagDays) && k < |targets|
    ensures var w := Expanded(Targeted(t, targets, bases, lagDays), lagDays);
      targets[k] in w.columns && ColumnOf(w, targets[k]) == Shift(ColumnOf(t, bases[k]), -1)
  {
    var u := Targeted(t, targets, bases, lagDays);
    var w := Expanded(u, lagDays);
    var cells := TargetData(t, bases, |bases|);
    ExpandedLayout(t, targets, bases, lagDays);
    IndexRight(t.columns, targets, k);
    IndexRight(t.data, cells, k);
    assert cells[k] == Shift(ColumnOf(t, bases[k]), -1);
    BaseColumnAt(w, u.columns, u.data, LagCount(lagDays), |t.columns| + k);
  }

  /** Lag `i` of an original column or a target is that column moved down
      `i` rows. */
  lemma {:induction false} ExpandedLags(t: Table, targets: seq<string>, bases: seq<string>, lagDays: int)
    requires Conforming(t, targets, bases, lagDays)
    ensures var w := Expanded(Targeted(t, targets, bases, lagDays), lagDays);
      forall x, i :: x in t.columns + targets && 1 <= i <= LagCount(lagDays) ==>
        && x in w.columns && LagName(x, i) in w.columns
        && ColumnOf(w, LagName(x, i)) == Shift(ColumnOf(w, x), i)
  {
    var w := Expanded(Targeted(t, targets, bases, lagDays), lagDays);
    forall x, i | x in t.columns + targets && 1 <= i <= LagCount(lagDays)
      ensures x in w.columns && LagName(x, i) in w.columns && ColumnOf(w, LagName(x, i)) == Shift(ColumnOf(w, x), i)
    {
      ExpandedLagAt(t, targets, bases, lagDays, IndexOf(t.columns + targets, x), i);
    }
  }

  lemma {:induction false} ExpandedLagAt(t: Table, targets: seq<string>, bases: seq<string>, lagDays: int, j: nat, i: nat)
    requires Conforming(t, targets, bases, lagDays)
    requires j < |t.columns + targets| && 1 <= i <= LagCount(lagDays)
    ensures var w := Expanded(Targeted(t, targets, bases, lagDays), lagDays);
      var x := (t.columns + targets)[j];
      && x in w.columns && LagName(x, i) in w.columns
      && ColumnOf(w, LagName(x, i)) == Shift(ColumnOf(w, x), i)
  {
    var u := Targeted(t, targets, bases, lagDays);
    ExpandedLayout(t, targets, bases, lagDays);
    LagColumnAt(Expanded(u, lagDays), u.columns, u.data, LagCount(lagDays), j, i);
  }

  /** Lag `i` of column `j` in a list of columns `s` laid out as `Expanded`
      lays them out, followed by any further names, is at position `p`. */
  lemma {:induction false} LayoutNameAt(base: seq<string>, lag: nat, j: nat, i: nat, more: seq<string>, s: seq<string>, p: nat)
    requires j < |base| && 1 <= i <= lag
    requires s == (base + LagNames(base, lag, |base|)) + more
    requires p == |base| + |LagNames(base, lag, j)| + i - 1
    ensures j < p < |s| && s[j] == base[j] && s[p] == LagName(base[j], i)
  {
    var names := LagNames(base, lag, |base|);
    var off := |LagNames(base, lag, j)| + i - 1;
    LagNamesAt(base, lag, |base|, j, i);
    assert p == |base| + off;
    IndexLeft(base, names, j);
    IndexLeft(base + names, more, j);
    IndexRight(base, names, off);
    IndexLeft(base + names, more, p);
  }

  /** The cells that go with `LayoutNameAt`. */
  lemma {:induction false} LayoutCellsAt(names: seq<string>, cells: seq<seq<Cell>>, lag: nat, j: nat, i: nat, more: seq<seq<Cell>>,
                                         s: seq<seq<Cell>>, p: nat)
    requires |cells| == |names| && j < |names| && 1 <= i <= lag
    requires s == (cells + LagsData(cells, lag, |names|)) + more
    requires p == |names| + |LagNames(names, lag, j)| + i - 1
    ensures p < |s| && s[j] == cells[j] && s[p] == Shift(cells[j], i)
  {
    var lags := LagsData(cells, lag, |names|);
    var off := |LagsData(cells, lag, j)| + i - 1;
    LagLengths(names, cells, lag, j);
    LagsDataAt(cells, lag, |names|, j, i);
    PickAt(cells, lags, more, s, j, off, p, Shift(cells[j], i));
  }

  /** Reading a position of the left and one of the middle part of `(a + b) + c`. */
  lemma PickAt<T>(a: seq<T>, b: seq<T>, c: seq<T>, s: seq<T>, j: nat, off: nat, p: nat, x: T)
    requires s == (a + b) + c && j < |a| && off < |b| && b[off] == x && p == |a| + off
    ensures p < |s| && s[j] == a[j] && s[p] == x
  {
    ConcatAt(a, b, c, j, off);
  }

  /** Positions in the left and the middle part of `(a + b) + c`. */
  lemma {:induction false} ConcatAt<T>(a: seq<T>, b: seq<T>, c: seq<T>, j: nat, off: nat)
    requires j < |a| && off < |b|
    ensures ((a + b) + c)[j] == a[j]
    ensures |a| + off < |(a + b) + c| && ((a + b) + c)[|a| + off] == b[off]
  {
    IndexLeft(a, b, j);
    IndexLeft(a + b, c, j);
    IndexRight(a, b, off);
    IndexLeft(a + b, c, |a| + off);
  }

  /** In a table laid out as `Expanded` lays it out, with distinct names,
      column `j` of the base columns holds its own cells. */
  lemma {:induction false} BaseColumnAt(w: Table, base: seq<string>, cells: seq<seq<Cell>>, lag: nat, j: nat)
    requires WellFormed(w) && NoDup(w.columns) && |cells| == |base|
    requires w.columns == (base + LagNames(base, lag, |base|)) + CalendarNames
    requires w.data == (cells + LagsData(cells, lag, |base|)) + CalendarData(w.index)
    requires j < |base|
    ensures base[j] in w.columns && ColumnOf(w, base[j]) == cells[j]
  {
    var names, lags := LagNames(base, lag, |base|), LagsData(cells, lag, |base|);
    IndexLeft(base, names, j);
    IndexLeft(base + names, CalendarNames, j);
    IndexLeft(cells, lags, j);
    IndexLeft(cells + lags, CalendarData(w.index), j);
    ColumnIs(w, j, base[j], cells[j]);
  }

  /** In a table laid out as `Expanded` lays it out, with distinct names,
      lag `i` of column `j` is column `j` moved down `i` rows. */
  lemma {:induction false} LagColumnAt(w: Table, base: seq<string>, cells: seq<seq<Cell>>, lag: nat, j: nat, i: nat)
    requires WellFormed(w) && NoDup(w.columns) && |cells| == |base|
    requires w.columns == (base + LagNames(base, lag, |base|)) + CalendarNames
    requires w.data == (cells + LagsData(cells, lag, |base|)) + CalendarData(w.index)
    requires j < |base| && 1 <= i <= lag
    ensures base[j] in w.columns && LagName(base[j], i) in w.columns
    ensures ColumnOf(w, LagName(base[j], i)) == Shift(ColumnOf(w, base[j]), i)
  {
    var p := |base| + |LagNames(base, lag, j)| + i - 1;
    LayoutNameAt(base, lag, j, i, CalendarNames, w.columns, p);
    LayoutCellsAt(base, cells, lag, j, i, CalendarData(w.index), w.data, p);
    ColumnIs(w, j, base[j], cells[j]);
    ColumnIs(w, p, LagName(base[j], i), Shift(cells[j], i));
  }

  /** The calendar columns of each row's date. */
  lemma {:induction false} ExpandedCalendar(t: Table, targets: seq<string>, bases: seq<string>, lagDays: int)
    requires Conforming(t, targets, bases, lagDays)
    ensures var w := Expanded(Targeted(t, targets, bases, lagDays), lagDays);
      && "month" in w.columns && ColumnOf(w, "month") == MonthColumn(t.index)
      && "dayofyear" in w.columns && ColumnOf(w, "dayofyear") == DayOfYearColumn(t.index)
      && "weekday" in w.columns && ColumnOf(w, "weekday") == WeekdayColumn(t.index)
  {
    var u := Targeted(t, targets, bases, lagDays);
    var w := Expanded(u, lagDays);
    var lag := LagCount(lagDays);
    ExpandedLayout(t, targets, bases, lagDays);
    LagLengths(u.columns, u.data, lag, |u.columns|);
    var front := |u.columns| + |LagNames(u.columns, lag, |u.columns|)|;
    assert w.columns[front] == "month" && w.data[front] == MonthColumn(t.index);
    assert w.columns[front + 1] == "dayofyear" && w.data[front + 1] == DayOfYearColumn(t.index);
    assert w.columns[front + 2] == "weekday" && w.data[front + 2] == WeekdayColumn(t.index);
    ColumnAt(w, front);
    ColumnAt(w, front + 1);
    ColumnAt(w, front + 2);
  }

  // ---------------------------------------------------------------------
  // The method

  /** The target loop. */
  method AddTargets(t: Table, targets: seq<string>, bases: seq<string>) returns (r: Result<Table, FeatureError>)
    requires WellFormed(t) && |targets| == |bases|
    ensures r == WithTargets(t, targets, bases, |bases|)
  {
    var data := t;
    for n := 0 to |bases|
      invariant WithTargets(t, targets, bases, n).Ok? && WithTargets(t, targets, bases, n).value == data
    {
      var step := TargetStep(data, targets[n], bases[n]);
      if step.Err? {
        TargetErrorPersists(t, targets, bases, n + 1, |bases|);
        return Err(step.error);
      }
      data := step.value;
    }
    return Ok(data);
  }

  /** The inner lag loop: lags 1 to `lag` of `col`. */
  method AddLagsOf(u: Table, col: string, lag: nat) returns (w: Table)
    requires WellFormed(u) && col in u.columns
    ensures w == WithLagsOf(u, col, lag)
  {
    w := u;
    for i := 1 to lag + 1
      invariant w == WithLagsOf(u, col, i - 1)
    {
      w := SetColumn(w, LagName(col, i), Shift(ColumnOf(w, col), i));
    }
  }

  /** The lag loops over the columns present after the target loop. */
  method AddLags(u: Table, lag: nat) returns (w: Table)
    requires WellFormed(u)
    ensures w == WithLags(u, u.columns, lag, |u.columns|)
  {
    w := u;
    var featureCols := u.columns;
    for n := 0 to |featureCols|
      invariant w == WithLags(u, featureCols, lag, n)
    {
      assert featureCols[n] in u.columns;
      w := AddLagsOf(w, featureCols[n], lag);
    }
  }

  /** `engineer_features` on a copy of `t`. */
  method EngineerFeatures(t: Table, targets: seq<string>, bases: seq<string>, lagDays: int)
    returns (r: Result<Table, FeatureError>)
    requires WellFormed(t)
    ensures r == Engineered(t, targets, bases, lagDays)
  {
    if |targets| != |bases| {
      return Err(LengthMismatch);
    }
    if |bases| == 0 {
      return Err(NoTargetPairs);
    }
    if bases[0] !in t.columns {
      return Err(MissingBaseColumn(bases[0]));
    }
    var withTargets := AddTargets(t, targets, bases);
    if withTargets.Err? {
      return withTargets;
    }
    var data := AddLags(withTargets.value, LagCount(lagDays));
    data := SetColumn(data, "month", MonthColumn(data.index));
    data := SetColumn(data, "dayofyear", DayOfYearColumn(data.index));
    data := SetColumn(data, "weekday", WeekdayColumn(data.index));
    data := DropNa(data);
    if IsEmpty(data) {
      return Err(NoRowsLeft);
    }
    return Ok(data);
  }
}
