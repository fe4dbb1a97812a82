/** Which rows survive `engineer_features`: the outcome of the final
    `dropna`, the error cases, and the row count for an input without
    missing cells. */
module FeatureRows {
  import opened Tables
  import opened FeatureEngineering

  // ---------------------------------------------------------------------
  // Cells present at one row

  /** Every column of `cols` has a present cell at row `p`. */
  predicate PresentAt(cols: seq<seq<Cell>>, p: nat) {
    forall c :: 0 <= c < |cols| ==> p < |cols[c]| && cols[c][p].Some?
  }

  /** Every column of `cols` has present cells on the rows before `p`. */
  predicate PresentBefore(cols: seq<seq<Cell>>, p: nat) {
    forall q: nat :: q < p ==> PresentAt(cols, q)
  }

  lemma {:induction false} RowCompletePresent(t: Table, p: nat)
    requires WellFormed(t) && p < |t.index|
    ensures RowComplete(t, p) <==> PresentAt(t.data, p)
  {
  }

  lemma {:induction false} PresentConcat(a: seq<seq<Cell>>, b: seq<seq<Cell>>, p: nat)
    ensures PresentAt(a + b, p) <==> PresentAt(a, p) && PresentAt(b, p)
  {
    if PresentAt(a, p) && PresentAt(b, p) {
      forall c | 0 <= c < |a + b| ensures p < |(a + b)[c]| && (a + b)[c][p].Some? {
        if c < |a| {
          assert (a + b)[c] == a[c];
        } else {
          assert (a + b)[c] == b[c - |a|];
        }
      }
    }
    if PresentAt(a + b, p) {
      forall c | 0 <= c < |a| ensures p < |a[c]| && a[c][p].Some? {
        assert (a + b)[c] == a[c];
      }
      forall c | 0 <= c < |b| ensures p < |b[c]| && b[c][p].Some? {
        assert (a + b)[|a| + c] == b[c];
      }
    }
  }

  lemma {:induction false} PresentBeforeConcat(a: seq<seq<Cell>>, b: seq<seq<Cell>>, p: nat)
    requires PresentBefore(a, p) && PresentBefore(b, p)
    ensures PresentBefore(a + b, p)
  {
    forall q: nat | q < p ensures PresentAt(a + b, q) {
      PresentConcat(a, b, q);
    }
  }

  /** The calendar cells are numbers on every row. */
  lemma {:induction false} CalendarPresent(index: seq<int>, p: nat)
    requires p < |index|
    ensures PresentAt(CalendarData(index), p)
  {
    var cal: seq<seq<Cell>> := CalendarData(index);
    assert cal[0][p].Some? && cal[1][p].Some? && cal[2][p].Some?;
  }

  // ---------------------------------------------------------------------
  // Target cells

  /** On a table without missing cells, the targets are present at row `p`
      exactly when there is a next row (or there are no targets). */
  lemma {:induction false} TargetsPresent(t: Table, bases: seq<string>, k: nat, p: nat)
    requires WellFormed(t) && NoMissing(t) && k <= |bases| && forall j :: 0 <= j < |bases| ==> bases[j] in t.columns
    requires p < |t.index|
    ensures PresentAt(TargetData(t, bases, k), p) <==> k == 0 || p + 1 < |t.index|
  {
    var r: seq<seq<Cell>> := TargetData(t, bases, k);
    if p + 1 < |t.index| {
      forall c | 0 <= c < k ensures p < |r[c]| && r[c][p].Some? {
        var col := ColumnOf(t, bases[c]);
        assert r[c] == Shift(col, -1);
        assert r[c][p] == col[p + 1];
        assert col == t.data[IndexOf(t.columns, bases[c])];
      }
    } else if k > 0 {
      assert r[0] == Shift(ColumnOf(t, bases[0]), -1);
      assert r[0][p].None?;
    }
  }

  /** On a table without missing cells, all cells before the last row are
      present once the targets are added. */
  lemma {:induction false} TargetedPresentBefore(t: Table, bases: seq<string>, p: nat)
    requires WellFormed(t) && NoMissing(t) && forall j :: 0 <= j < |bases| ==> bases[j] in t.columns
    requires p < |t.index|
    ensures PresentBefore(t.data + TargetData(t, bases, |bases|), p)
  {
    var r: seq<seq<Cell>> := TargetData(t, bases, |bases|);
    forall q: nat | q < p ensures PresentAt(r, q) && PresentAt(t.data, q) {
      TargetsPresent(t, bases, |bases|, q);
    }
    PresentBeforeConcat(t.data, r, p);
  }

  // ---------------------------------------------------------------------
  // Lag cells

  /** Lags 1 to `m` of a column present before row `p` are present at `p`
      when `m <= p`. */
  lemma {:induction false} LagPresent(col: seq<Cell>, m: nat, p: nat)
    requires p < |col| && m <= p && forall q :: 0 <= q < p ==> col[q].Some?
    ensures PresentAt(LagData(col, m), p)
  {
    if m > 0 {
      LagPresent(col, m - 1, p);
      assert Shift(col, m)[p] == col[p - m];
      PresentConcat(LagData(col, m - 1), [Shift(col, m)], p);
    }
  }

  lemma {:induction false} LagsPresent(cols: seq<seq<Cell>>, lag: nat, n: nat, p: nat)
    requires n <= |cols| && lag <= p
    requires forall c :: 0 <= c < |cols| ==> p < |cols[c]|
    requires PresentBefore(cols, p)
    ensures PresentAt(LagsData(cols, lag, n), p)
  {
    if n > 0 {
      LagsPresent(cols, lag, n - 1, p);
      var col := cols[n - 1];
      forall q | 0 <= q < p ensures col[q].Some? {
        assert PresentAt(cols, q);
      }
      LagPresent(col, lag, p);
      PresentConcat(LagsData(cols, lag, n - 1), LagData(col, lag), p);
    }
  }

  /** The deepest lag of the first column is missing on the first `lag`
      rows. */
  lemma {:induction false} LagsAbsent(cols: seq<seq<Cell>>, lag: nat, n: nat, p: nat)
    requires 0 < n <= |cols| && p < lag && p < |cols[0]|
    ensures !PresentAt(LagsData(cols, lag, n), p)
  {
    LagsDataAt(cols, lag, n, 0, lag);
    var r: seq<seq<Cell>> := LagsData(cols, lag, n);
    assert |LagsData(cols, lag, 0)| == 0;
    assert r[lag - 1] == Shift(cols[0], lag);
    assert r[lag - 1][p].None?;
  }

  // ---------------------------------------------------------------------
  // Rows of the expanded table

  /** The cells of the table before `dropna`: the original columns, the
      target columns `cells`, the lags of both, the calendar columns. */
  predicate ExpandedShape(w: Table, t: Table, cells: seq<seq<Cell>>, lag: nat) {
    && WellFormed(w) && w.index == t.index
    && w.data == ((t.data + cells) + LagsData(t.data + cells, lag, |t.data + cells|)) + CalendarData(t.index)
  }

  lemma {:induction false} ExpandedHasShape(t: Table, targets: seq<string>, bases: seq<string>, lagDays: int)
    requires Conforming(t, targets, bases, lagDays)
    ensures ExpandedShape(Expanded(Targeted(t, targets, bases, lagDays), lagDays), t, TargetData(t, bases, |bases|), LagCount(lagDays))
  {
    ExpandedLayout(t, targets, bases, lagDays);
  }

  /** For an input without missing cells, a row of the table before
      `dropna` is complete exactly when it has all its lags (row `L` or
      later) and a next row for its targets. */
  lemma {:induction false} ShapeRowComplete(w: Table, t: Table, bases: seq<string>, lag: nat, p: nat)
    requires WellFormed(t) && NoMissing(t) && 0 < |bases| && forall j :: 0 <= j < |bases| ==> bases[j] in t.columns
    requires ExpandedShape(w, t, TargetData(t, bases, |bases|), lag) && p < |t.index|
    ensures RowComplete(w, p) <==> lag <= p < |t.index| - 1
  {
    var cells := TargetData(t, bases, |bases|);
    var front := t.data + cells;
    var lags := LagsData(front, lag, |front|);
    RowCompletePresent(w, p);
    PresentConcat(front + lags, CalendarData(t.index), p);
    PresentConcat(front, lags, p);
    PresentConcat(t.data, cells, p);
    CalendarPresent(t.index, p);
    TargetsPresent(t, bases, |bases|, p);
    assert PresentAt(t.data, p);
    if lag <= p {
      TargetedPresentBefore(t, bases, p);
      LagsPresent(front, lag, |front|, p);
    } else {
      LagsAbsent(front, lag, |front|, p);
    }
  }

  /** For an input without missing cells, exactly rows `L` to `n - 2` are
      kept, `n - 1 - L` of them. */
  lemma {:induction false} ShapeKeptRows(w: Table, t: Table, bases: seq<string>, lag: nat)
    requires WellFormed(t) && NoMissing(t) && 0 < |bases| && forall j :: 0 <= j < |bases| ==> bases[j] in t.columns
    requires ExpandedShape(w, t, TargetData(t, bases, |bases|), lag)
    ensures CompletePositions(w, |w.index|) == Range(lag, |t.index| - 1)
  {
    forall p: nat | p < |w.index| ensures RowComplete(w, p) <==> lag <= p < |t.index| - 1 {
      ShapeRowComplete(w, t, bases, lag, p);
    }
    CompleteWindow(w, lag, |t.index| - 1, |w.index|);
  }

  /** When the complete rows are those from `lo` up to `hi`, the positions
      `dropna` keeps are those. */
  lemma {:induction false} CompleteWindow(t: Table, lo: nat, hi: int, m: nat)
    requires WellFormed(t) && m <= |t.index|
    requires forall p: nat :: p < |t.index| ==> (RowComplete(t, p) <==> lo <= p < hi)
    ensures CompletePositions(t, m) == Range(lo, if m < hi then m else hi)
  {
    if m > 0 {
      CompleteWindow(t, lo, hi, m - 1);
      assert RowComplete(t, m - 1) <==> lo <= m - 1 < hi;
    }
  }

  // ---------------------------------------------------------------------
  // The outcome

  /** `dropna` leaves no missing cell. */
  lemma {:induction false} DropNaComplete(t: Table)
    requires WellFormed(t)
    ensures NoMissing(DropNa(t))
  {
    var ps := CompletePositions(t, |t.index|);
    var r := DropNa(t);
    forall j, i | 0 <= j < |r.data| && 0 <= i < |r.data[j]| ensures r.data[j][i].Some? {
      assert ps[i] in ps;
      assert r.data[j][i] == t.data[j][ps[i]];
    }
  }

  /** Whatever the input, a successful call returns a table with at least
      one row and no missing cell. */
  lemma {:induction false} EngineeredComplete(t: Table, targets: seq<string>, bases: seq<string>, lagDays: int)
    requires WellFormed(t) && Engineered(t, targets, bases, lagDays).Ok?
    ensures var f := Engineered(t, targets, bases, lagDays).value;
      WellFormed(f) && !IsEmpty(f) && NoMissing(f)
  {
    var u := WithTargets(t, targets, bases, |bases|).value;
    DropNaComplete(Expanded(u, lagDays));
  }

  /** The column count: `(c + k) * (L + 1) + 3` for `c` original columns,
      `k` targets and `L` lags. */
  lemma {:induction false} LayoutCount(columns: seq<string>, targets: seq<string>, lag: nat)
    ensures |Layout(columns, targets, lag)| == (|columns| + |targets|) * (lag + 1) + 3
  {
    var base := columns + targets;
    LagNamesCount(base, lag, |base|);
    assert |base| + |base| * lag == |base| * (lag + 1);
  }

  /** On inputs whose new names are all fresh, the call succeeds with the
      complete rows of the expanded table, laid out as `Layout` says, unless
      no row is complete. */
  lemma {:induction false} EngineeredOutcome(t: Table, targets: seq<string>, bases: seq<string>, lagDays: int)
    requires Conforming(t, targets, bases, lagDays)
    ensures var w := Expanded(Targeted(t, targets, bases, lagDays), lagDays);
      var r := Engineered(t, targets, bases, lagDays);
      && (r.Ok? <==> |CompletePositions(w, |w.index|)| > 0)
      && (r.Err? ==> r.error == NoRowsLeft)
      && (r.Ok? ==> r.value == DropNa(w) && NoMissing(r.value)
                    && r.value.columns == Layout(t.columns, targets, LagCount(lagDays)))
  {
    var w := Expanded(Targeted(t, targets, bases, lagDays), lagDays);
    EngineeredResult(t, targets, bases, lagDays);
    ExpandedLayout(t, targets, bases, lagDays);
    DropNaComplete(w);
  }

  /** On inputs whose new names are all fresh, the result is the complete
      rows of the expanded table, or `NoRowsLeft` when there are none. */
  lemma {:induction false} EngineeredResult(t: Table, targets: seq<string>, bases: seq<string>, lagDays: int)
    requires Conforming(t, targets, bases, lagDays)
    ensures var w := Expanded(Targeted(t, targets, bases, lagDays), lagDays);
      Engineered(t, targets, bases, lagDays) ==
        if |CompletePositions(w, |w.index|)| == 0 then Err(NoRowsLeft) else Ok(DropNa(w))
  {
    var w := Expanded(Targeted(t, targets, bases, lagDays), lagDays);
    ExpandedLayout(t, targets, bases, lagDays);
    assert bases[0] in t.columns;
    assert "month" in w.columns;
  }

  /** For an input without missing cells, the call succeeds exactly when
      there are more than `L + 1` rows, and then it returns rows `L` to
      `n - 2` of the input, `n - 1 - L` of them. */
  lemma {:induction false} EngineeredFullInput(t: Table, targets: seq<string>, bases: seq<string>, lagDays: int)
    requires Conforming(t, targets, bases, lagDays) && NoMissing(t)
    ensures var r := Engineered(t, targets, bases, lagDays);
      && (r.Ok? <==> LagCount(lagDays) + 1 < |t.index|)
      && (r.Err? ==> r.error == NoRowsLeft)
      && (r.Ok? ==> && |r.value.index| == |t.index| - 1 - LagCount(lagDays)
                    && r.value.index == t.index[LagCount(lagDays)..|t.index| - 1])
  {
    var w := Expanded(Targeted(t, targets, bases, lagDays), lagDays);
    EngineeredResult(t, targets, bases, lagDays);
    ExpandedHasShape(t, targets, bases, lagDays);
    ShapeKeptRows(w, t, bases, LagCount(lagDays));
    KeptWindow(Engineered(t, targets, bases, lagDays), w, LagCount(lagDays), t.index);
  }

  /** The result of a final `dropna` that keeps the rows from `lo` to the
      last-but-one. */
  lemma {:induction false} KeptWindow(r: Result<Table, FeatureError>, w: Table, lo: nat, index: seq<int>)
    requires WellFormed(w) && w.index == index
    requires r == if |CompletePositions(w, |w.index|)| == 0 then Err(NoRowsLeft) else Ok(DropNa(w))
    requires CompletePositions(w, |w.index|) == Range(lo, |index| - 1)
    ensures r.Ok? <==> lo + 1 < |index|
    ensures r.Err? ==> r.error == NoRowsLeft
    ensures r.Ok? ==> |r.value.index| == |index| - 1 - lo && r.value.index == index[lo..|index| - 1]
  {
    if r.Ok? {
      KeptIndex(w, lo, |index| - 1);
    }
  }

  /** When `dropna` keeps the rows from `lo` up to `hi`, the index of the
      result is that slice of the index. */
  lemma {:induction false} KeptIndex(w: Table, lo: nat, hi: nat)
    requires WellFormed(w) && lo <= hi <= |w.index|
    requires CompletePositions(w, |w.index|) == Range(lo, hi)
    ensures DropNa(w).index == w.index[lo..hi]
  {
    var ps := Range(lo, hi);
    var d := DropNa(w);
    forall i | 0 <= i < |d.index| ensures d.index[i] == w.index[lo..hi][i] {
      assert d.index[i] == w.index[ps[i]];
    }
  }

  /** The error cases: the length check comes first, then the empty lists;
      otherwise a pair whose base is neither an original column nor an
      earlier target fails naming the first such base, and once every base
      is available the only possible failure is an empty result. */
  lemma {:induction false} EngineeredFailures(t: Table, targets: seq<string>, bases: seq<string>, lagDays: int)
    requires WellFormed(t)
    ensures |targets| != |bases| ==> Engineered(t, targets, bases, lagDays) == Err(LengthMismatch)
    ensures |targets| == |bases| == 0 ==> Engineered(t, targets, bases, lagDays) == Err(NoTargetPairs)
    ensures |targets| == |bases| > 0 && FirstUnavailable(t, targets, bases, |bases|).Some? ==>
              Engineered(t, targets, bases, lagDays) ==
                Err(MissingBaseColumn(bases[FirstUnavailable(t, targets, bases, |bases|).value]))
    ensures |targets| == |bases| > 0 && FirstUnavailable(t, targets, bases, |bases|).None? ==>
              Engineered(t, targets, bases, lagDays).Ok? || Engineered(t, targets, bases, lagDays) == Err(NoRowsLeft)
  {
    if |targets| == |bases| > 0 {
      TargetOutcome(t, targets, bases, |bases|);
      FirstUnavailableMeans(t, targets, bases, |bases|);
      if bases[0] !in t.columns {
        assert !BaseAvailable(t, targets, bases, 0);
      }
    }
  }
}
