/** `preprocess_data`: gap filling (forward fill, then backward fill) and
    outlier clipping at the interquartile fences, on a copy of the table.
    The quantile routine is pandas' own and is a parameter here:
    `quantile(col, q)` is the `q`-quantile of the present cells of `col`, or
    `None` where pandas yields NaN. */
module Preprocessing {
  import opened Tables

  // ---------------------------------------------------------------------
  // Reference definitions of the two fills

  /** The position of the last present cell at or before `i`. */
  function LastPresent(col: seq<Cell>, i: nat): (r: Option<nat>)
    requires i < |col|
    ensures r.Some? ==> r.value <= i && col[r.value].Some? && forall j :: r.value < j <= i ==> col[j].None?
    ensures r.None? ==> forall j :: 0 <= j <= i ==> col[j].None?
  {
    if col[i].Some? then Some(i) else if i == 0 then None else LastPresent(col, i - 1)
  }

  /** The position of the first present cell at or after `i`. */
  function NextPresent(col: seq<Cell>, i: nat): (r: Option<nat>)
    requires i <= |col|
    ensures r.Some? ==> i <= r.value < |col| && col[r.value].Some? && forall j :: i <= j < r.value ==> col[j].None?
    ensures r.None? ==> forall j :: i <= j < |col| ==> col[j].None?
    decreases |col| - i
  {
    if i == |col| then None else if col[i].Some? then Some(i) else NextPresent(col, i + 1)
  }

  /** pandas `ffill` on one column: every cell becomes the nearest present
      cell at or before it; cells before the first present one stay missing. */
  function FFill(col: seq<Cell>): (r: seq<Cell>)
    ensures |r| == |col|
  {
    seq(|col|, i requires 0 <= i < |col| =>
      match LastPresent(col, i) case Some(j) => col[j] case None => None)
  }

  /** pandas `bfill` on one column: every cell becomes the nearest present
      cell at or after it; cells after the last present one stay missing. */
  function BFill(col: seq<Cell>): (r: seq<Cell>)
    ensures |r| == |col|
  {
    seq(|col|, i requires 0 <= i < |col| =>
      match NextPresent(col, i) case Some(j) => col[j] case None => None)
  }

  /** `ffill` followed by `bfill`. */
  function Fill(col: seq<Cell>): (r: seq<Cell>)
    ensures |r| == |col|
  {
    BFill(FFill(col))
  }

  // ---------------------------------------------------------------------
  // Properties of the fill

  /** After ffill and bfill a cell holds the nearest earlier present value of
      its column or, in a leading gap, the column's first present value. */
  lemma FillCharacterized(col: seq<Cell>, i: nat)
    requires i < |col|
    ensures Fill(col)[i] ==
      match LastPresent(col, i)
      case Some(j) => col[j]
      case None => (match NextPresent(col, 0) case Some(k) => col[k] case None => None)
  {
    var f := FFill(col);
    match LastPresent(col, i)
    case Some(j) =>
      assert f[i] == col[j];
      assert NextPresent(f, i) == Some(i);
    case None =>
      assert f[i].None?;
      match NextPresent(col, 0)
      case Some(k) =>
        assert k > i;
        forall m | i <= m < k ensures f[m].None? {
          assert LastPresent(col, m).None?;
        }
        assert LastPresent(col, k) == Some(k);
        assert f[k] == col[k];
        assert NextPresent(f, i) == Some(k);
      case None =>
        forall m | i <= m < |f| ensures f[m].None? {
          assert LastPresent(col, m).None?;
        }
        assert NextPresent(f, i).None?;
  }

  /** A present cell keeps its value. */
  lemma FillKeepsPresent(col: seq<Cell>, i: nat)
    requires i < |col| && col[i].Some?
    ensures Fill(col)[i] == col[i]
  {
    FillCharacterized(col, i);
    assert LastPresent(col, i) == Some(i);
  }

  /** A cell is still missing after the fill exactly when its column had no
      present value at all. */
  lemma FillMissingExactly(col: seq<Cell>, i: nat)
    requires i < |col|
    ensures Fill(col)[i].None? <==> forall j :: 0 <= j < |col| ==> col[j].None?
  {
    FillCharacterized(col, i);
    if LastPresent(col, i).None? {
      if forall j :: 0 <= j < |col| ==> col[j].None? {
        assert NextPresent(col, 0).None?;
      }
    }
  }

  /** Filling a filled column changes nothing. */
  lemma FillIdempotent(col: seq<Cell>)
    ensures Fill(Fill(col)) == Fill(col)
  {
    var f := Fill(col);
    forall i | 0 <= i < |col| ensures Fill(f)[i] == f[i] {
      FillMissingExactly(col, i);
      if f[i].Some? {
        FillKeepsPresent(f, i);
      } else {
        forall j | 0 <= j < |col| ensures f[j].None? {
          FillMissingExactly(col, j);
        }
        FillMissingExactly(f, i);
      }
    }
  }

  // ---------------------------------------------------------------------
  // The fill, step by step

  /** `ffill(inplace=True)` on one column: a walk from the top that carries
      the last present value into the gaps below it. */
  method ForwardFill(col: seq<Cell>) returns (r: seq<Cell>)
    ensures r == FFill(col)
  {
    r := col;
    var last: Cell := None;
    for i := 0 to |col|
      invariant |r| == |col|
      invariant forall k :: 0 <= k < i ==> r[k] == FFill(col)[k]
      invariant forall k :: i <= k < |col| ==> r[k] == col[k]
      invariant i > 0 ==> last == FFill(col)[i - 1]
      invariant i == 0 ==> last.None?
    {
      if r[i].Some? {
        last := r[i];
      } else {
        r := r[i := last];
      }
      assert r[i] == FFill(col)[i];
    }
  }

  /** `bfill(inplace=True)` on one column: a walk from the bottom that
      carries the next present value into the gaps above it. */
  method BackwardFill(col: seq<Cell>) returns (r: seq<Cell>)
    ensures r == BFill(col)
  {
    r := col;
    var next: Cell := None;
    var i := |col|;
    while i > 0
      invariant 0 <= i <= |col| && |r| == |col|
      invariant forall k :: i <= k < |col| ==> r[k] == BFill(col)[k]
      invariant forall k :: 0 <= k < i ==> r[k] == col[k]
      invariant i < |col| ==> next == BFill(col)[i]
      invariant i == |col| ==> next.None?
    {
      i := i - 1;
      if r[i].Some? {
        next := r[i];
      } else {
        r := r[i := next];
      }
      assert r[i] == BFill(col)[i];
    }
  }

  /** The fill step of `preprocess_data`: every column is filled, but only
      when the table has at least one missing cell. */
  function FillStep(t: Table): (r: Table)
    requires WellFormed(t)
    ensures WellFormed(r) && r.index == t.index && r.columns == t.columns
  {
    if NoMissing(t) then t
    else Table(t.index, t.columns, seq(|t.data|, j requires 0 <= j < |t.data| => Fill(t.data[j])))
  }

  /** A second fill step changes nothing. */
  lemma FillStepIdempotent(t: Table)
    requires WellFormed(t)
    ensures FillStep(FillStep(t)) == FillStep(t)
  {
    var f := FillStep(t);
    if !NoMissing(t) && !NoMissing(f) {
      forall j | 0 <= j < |f.data| ensures Fill(f.data[j]) == f.data[j] {
        FillIdempotent(t.data[j]);
      }
      assert FillStep(f).data == f.data;
    }
  }

  method FillGaps(t: Table) returns (r: Table)
    requires WellFormed(t)
    ensures r == FillStep(t)
  {
    if NoMissing(t) {
      return t;
    }
    var data := t.data;
    for j := 0 to |data|
      invariant |data| == |t.data|
      invariant forall k :: 0 <= k < j ==> data[k] == Fill(t.data[k])
      invariant forall k :: j <= k < |data| ==> data[k] == t.data[k]
    {
      var forward := ForwardFill(data[j]);
      var filled := BackwardFill(forward);
      data := data[j := filled];
    }
    r := Table(t.index, t.columns, data);
  }

  // ---------------------------------------------------------------------
  // Clipping at the interquartile fences

  /** The fences `Q1 - 1.5 IQR` and `Q3 + 1.5 IQR`, defined only when both
      quartiles are numbers and `IQR = Q3 - Q1` is positive. */
  function Fences(q1: Option<real>, q3: Option<real>): (r: Option<(real, real)>)
    ensures r.Some? <==> q1.Some? && q3.Some? && q3.value - q1.value > 0.0
    ensures r.Some? ==> r.value.0 < q1.value < q3.value < r.value.1
  {
    if q1.Some? && q3.Some? && q3.value - q1.value > 0.0 then
      var iqr := q3.value - q1.value;
      Some((q1.value - 1.5 * iqr, q3.value + 1.5 * iqr))
    else None
  }

  /** The fences of a column under the given quantile routine. */
  function ColumnFences(col: seq<Cell>, quantile: (seq<Cell>, real) -> Option<real>): (f: Option<(real, real)>)
    ensures f.Some? ==> f.value.0 < f.value.1
  {
    Fences(quantile(col, 0.25), quantile(col, 0.75))
  }

  /** `(col < lower).sum()`: missing cells compare false. */
  function CountBelow(col: seq<Cell>, lower: real): (n: nat)
    ensures n <= |col|
  {
    if col == [] then 0
    else CountBelow(col[..|col| - 1], lower) + (var c := col[|col| - 1]; if c.Some? && c.value < lower then 1 else 0)
  }

  /** `(col > upper).sum()`. */
  function CountAbove(col: seq<Cell>, upper: real): (n: nat)
    ensures n <= |col|
  {
    if col == [] then 0
    else CountAbove(col[..|col| - 1], upper) + (var c := col[|col| - 1]; if c.Some? && c.value > upper then 1 else 0)
  }

  function ClipCell(c: Cell, lower: real, upper: real): (r: Cell)
    ensures r.Some? <==> c.Some?
    ensures r.Some? && lower <= upper ==> lower <= r.value <= upper
  {
    if c.None? then c
    else if c.value < lower then Some(lower)
    else if c.value > upper then Some(upper)
    else c
  }

  /** pandas `clip(lower, upper)`: missing cells stay missing. */
  function ClipColumn(col: seq<Cell>, lower: real, upper: real): (r: seq<Cell>)
    ensures |r| == |col|
  {
    seq(|col|, i requires 0 <= i < |col| => ClipCell(col[i], lower, upper))
  }

  /** The outliers of a column: the cells strictly outside its fences; zero
      where the fences are undefined. */
  function OutlierCount(col: seq<Cell>, quantile: (seq<Cell>, real) -> Option<real>): nat
  {
    match ColumnFences(col, quantile)
    case None => 0
    case Some((lower, upper)) => CountBelow(col, lower) + CountAbove(col, upper)
  }

  /** A column after the clipping step: clipped when it has outliers,
      otherwise left as it is. */
  function ClippedColumn(col: seq<Cell>, quantile: (seq<Cell>, real) -> Option<real>): (r: seq<Cell>)
    ensures |r| == |col|
  {
    match ColumnFences(col, quantile)
    case None => col
    case Some((lower, upper)) =>
      if CountBelow(col, lower) + CountAbove(col, upper) > 0 then ClipColumn(col, lower, upper) else col
  }

  /** The number of positions at which two columns differ. */
  function CountChanged(a: seq<Cell>, b: seq<Cell>): (n: nat)
    requires |a| == |b|
    ensures n <= |a|
  {
    if a == [] then 0
    else CountChanged(a[..|a| - 1], b[..|b| - 1]) + (if a[|a| - 1] != b[|b| - 1] then 1 else 0)
  }

  lemma {:induction false} CountChangedSame(a: seq<Cell>)
    ensures CountChanged(a, a) == 0
  {
    if a != [] {
      CountChangedSame(a[..|a| - 1]);
    }
  }

  /** Clipping changes exactly the cells outside the fences. */
  lemma {:induction false} ClipChangesOutliers(col: seq<Cell>, lower: real, upper: real)
    requires lower < upper
    ensures CountChanged(col, ClipColumn(col, lower, upper)) == CountBelow(col, lower) + CountAbove(col, upper)
  {
    if col != [] {
      var init := col[..|col| - 1];
      assert ClipColumn(col, lower, upper)[..|col| - 1] == ClipColumn(init, lower, upper);
      ClipChangesOutliers(init, lower, upper);
    }
  }

  lemma {:induction false} NoOutliersInside(col: seq<Cell>, lower: real, upper: real, i: nat)
    requires i < |col| && CountBelow(col, lower) + CountAbove(col, upper) == 0
    ensures col[i].Some? ==> lower <= col[i].value <= upper
  {
    if i < |col| - 1 {
      NoOutliersInside(col[..|col| - 1], lower, upper, i);
    }
  }

  /** A column whose fences are undefined (IQR zero, negative or NaN) is
      left unchanged. */
  lemma UndefinedFencesUnchanged(col: seq<Cell>, quantile: (seq<Cell>, real) -> Option<real>)
    requires var q1, q3 := quantile(col, 0.25), quantile(col, 0.75);
      q1.None? || q3.None? || q3.value - q1.value <= 0.0
    ensures ClippedColumn(col, quantile) == col && OutlierCount(col, quantile) == 0
  {
  }

  /** Where the fences are defined, every present value of the column after
      the clipping step lies between them, and values already between them
      are unchanged. Missing cells stay missing. */
  lemma ClippedWithinFences(col: seq<Cell>, quantile: (seq<Cell>, real) -> Option<real>, i: nat)
    requires i < |col| && ColumnFences(col, quantile).Some?
    ensures var (lower, upper) := ColumnFences(col, quantile).value;
      var r := ClippedColumn(col, quantile);
      && (r[i].None? <==> col[i].None?)
      && (r[i].Some? ==> lower <= r[i].value <= upper)
      && (col[i].Some? && lower <= col[i].value <= upper ==> r[i] == col[i])
  {
    var (lower, upper) := ColumnFences(col, quantile).value;
    if CountBelow(col, lower) + CountAbove(col, upper) == 0 {
      NoOutliersInside(col, lower, upper, i);
    }
  }

  /** The recorded count is the number of cells the clipping step changes. */
  lemma OutlierCountIsChanged(col: seq<Cell>, quantile: (seq<Cell>, real) -> Option<real>)
    ensures OutlierCount(col, quantile) == CountChanged(col, ClippedColumn(col, quantile))
  {
    match ColumnFences(col, quantile)
    case None =>
      CountChangedSame(col);
    case Some((lower, upper)) =>
      if CountBelow(col, lower) + CountAbove(col, upper) > 0 {
        ClipChangesOutliers(col, lower, upper);
      } else {
        CountChangedSame(col);
      }
  }

  /** One iteration of the clipping loop: the quartiles, the fences when the
      IQR is a positive number, and the outliers counted and clipped. */
  method ClipColumnStep(col: seq<Cell>, quantile: (seq<Cell>, real) -> Option<real>)
    returns (clipped: seq<Cell>, outliers: nat)
    ensures outliers == OutlierCount(col, quantile)
    ensures clipped == ClippedColumn(col, quantile)
    ensures outliers == 0 ==> clipped == col && ClippedColumn(col, quantile) == col
  {
    clipped, outliers := col, 0;
    var q1 := quantile(col, 0.25);
    var q3 := quantile(col, 0.75);
    if q1.Some? && q3.Some? && q3.value - q1.value > 0.0 {
      var iqr := q3.value - q1.value;
      var lower := q1.value - 1.5 * iqr;
      var upper := q3.value + 1.5 * iqr;
      outliers := CountBelow(col, lower) + CountAbove(col, upper);
      if outliers > 0 {
        clipped := ClipColumn(col, lower, upper);
      }
    }
  }

  /** The clipping loop over the numeric columns: each column with outliers
      is clipped and its outlier count recorded under its name; columns
      without outliers are absent from the counts. */
  method ClipOutliers(t: Table, quantile: (seq<Cell>, real) -> Option<real>)
    returns (r: Table, counts: map<string, nat>)
    requires WellFormed(t) && NoDup(t.columns)
    ensures WellFormed(r) && r.index == t.index && r.columns == t.columns
    ensures forall j :: 0 <= j < |t.data| ==> r.data[j] == ClippedColumn(t.data[j], quantile)
    ensures forall j :: 0 <= j < |t.columns| ==>
              (t.columns[j] in counts <==> OutlierCount(t.data[j], quantile) > 0)
    ensures forall name :: name in counts ==>
              name in t.columns && counts[name] == OutlierCount(ColumnOf(t, name), quantile)
  {
    var data := t.data;
    counts := map[];
    for j := 0 to |t.data|
      invariant |data| == |t.data|
      invariant forall k :: 0 <= k < |data| ==>
                  data[k] == if k < j then ClippedColumn(t.data[k], quantile) else t.data[k]
      invariant forall name :: name in counts ==> name in t.columns[..j]
      invariant forall k :: 0 <= k < j ==>
                  && (t.columns[k] in counts <==> OutlierCount(t.data[k], quantile) > 0)
                  && (t.columns[k] in counts ==> counts[t.columns[k]] == OutlierCount(t.data[k], quantile))
    {
      assert data[j] == t.data[j];
      var clipped, outliers := ClipColumnStep(data[j], quantile);
      NoDupBefore(t.columns, j);
      if outliers > 0 {
        data := data[j := clipped];
        counts := counts[t.columns[j] := outliers];
      }
    }
    r := Table(t.index, t.columns, data);
    forall name | name in counts ensures counts[name] == OutlierCount(ColumnOf(t, name), quantile) {
      var k := IndexOf(t.columns, name);
    }
  }

  /** `preprocess_data`: the fill step, then the clipping step, on a copy;
      the row index and the columns are those of the input. */
  method PreprocessData(t: Table, quantile: (seq<Cell>, real) -> Option<real>)
    returns (r: Table, counts: map<string, nat>)
    requires WellFormed(t) && NoDup(t.columns)
    ensures WellFormed(r) && r.index == t.index && r.columns == t.columns
    ensures forall j :: 0 <= j < |t.data| ==> r.data[j] == ClippedColumn(FillStep(t).data[j], quantile)
    ensures forall name :: name in counts <==> name in t.columns && OutlierCount(ColumnOf(FillStep(t), name), quantile) > 0
    ensures forall name :: name in counts ==> counts[name] == OutlierCount(ColumnOf(FillStep(t), name), quantile)
  {
    var filled := FillGaps(t);
    r, counts := ClipOutliers(filled, quantile);
  }
}
