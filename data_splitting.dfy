/** The chronological train/test split of the engineered table
    (`split_data`).

    The feature columns are every column except the targets and the
    original base columns; the target columns are the configured targets the
    table actually holds. The rows dated before the date at position
    `total - testDays` form the training set, the others the test set. The
    fatal exits of the program are the `Err` results here. */
module DataSplitting {
  import opened Tables

  datatype SplitError =
    | NoTargets
    | NoFeatures
    | NotEnoughRows(total: nat, testDays: int)
    | InvalidSplitIndex(splitIndex: int)

  datatype Split = Split(
    xTrain: Table, xTest: Table, yTrain: Table, yTest: Table,
    features: seq<string>, targets: seq<string>, splitDate: int,
    trainPercentage: real, testPercentage: real)

  /** The feature columns: the columns that are neither a target nor a
      target's base column, in table order. */
  function FeatureColumns(t: Table, targets: seq<string>, bases: seq<string>): (r: seq<string>)
    ensures forall c :: c in r <==> c in t.columns && c !in targets && c !in bases
  {
    Without(t.columns, targets + bases)
  }

  /** The positions below `n` of the rows dated before `d` (`index < d`),
      in row order. */
  function Before(index: seq<int>, d: int, n: nat): (ps: seq<nat>)
    requires n <= |index|
    ensures forall i :: 0 <= i < |ps| ==> ps[i] < n
  {
    if n == 0 then [] else Before(index, d, n - 1) + (if index[n - 1] < d then [n - 1] else [])
  }

  lemma {:induction false} BeforeMembers(index: seq<int>, d: int, n: nat)
    requires n <= |index|
    ensures forall i :: 0 <= i < |Before(index, d, n)| ==> index[Before(index, d, n)[i]] < d
  {
    if n > 0 {
      BeforeMembers(index, d, n - 1);
    }
  }

  /** The positions below `n` of the rows dated `d` or later (`index >= d`),
      in row order. */
  function From(index: seq<int>, d: int, n: nat): (ps: seq<nat>)
    requires n <= |index|
    ensures forall i :: 0 <= i < |ps| ==> ps[i] < n
  {
    if n == 0 then [] else From(index, d, n - 1) + (if index[n - 1] >= d then [n - 1] else [])
  }

  lemma {:induction false} FromMembers(index: seq<int>, d: int, n: nat)
    requires n <= |index|
    ensures forall i :: 0 <= i < |From(index, d, n)| ==> index[From(index, d, n)[i]] >= d
  {
    if n > 0 {
      FromMembers(index, d, n - 1);
    }
  }

  /** Every row falls on exactly one side of the split date. */
  lemma {:induction false} SidesCount(index: seq<int>, d: int, n: nat)
    requires n <= |index|
    ensures |Before(index, d, n)| + |From(index, d, n)| == n
  {
    if n > 0 {
      SidesCount(index, d, n - 1);
    }
  }


  /** The dates at the positions `ps`. */
  function Days(index: seq<int>, ps: seq<nat>): (r: seq<int>)
    requires forall i :: 0 <= i < |ps| ==> ps[i] < |index|
    ensures |r| == |ps|
  {
    if ps == [] then [] else Days(index, ps[..|ps| - 1]) + [index[ps[|ps| - 1]]]
  }

  lemma {:induction false} DaysAt(index: seq<int>, ps: seq<nat>, i: nat)
    requires forall k :: 0 <= k < |ps| ==> ps[k] < |index|
    requires i < |ps|
    ensures Days(index, ps)[i] == index[ps[i]]
    decreases |ps|
  {
    if i < |ps| - 1 {
      DaysAt(index, ps[..|ps| - 1], i);
    }
  }

  /** The dates on either side of the split are the dates of the rows with
      the others left out, in row order. */
  lemma {:induction false} BeforeSubsequence(index: seq<int>, d: int, n: nat)
    requires n <= |index|
    ensures Subsequence(Days(index, Before(index, d, n)), index[..n])
  {
    if n > 0 {
      BeforeSubsequence(index, d, n - 1);
      var b := Before(index, d, n - 1);
      var x := index[n - 1];
      assert index[..n] == index[..n - 1] + [x];
      if x < d {
        assert Before(index, d, n) == b + [n - 1];
        TakeDays(index, b, n - 1);
        SubsequenceSnoc(Days(index, b), index[..n - 1], x);
      } else {
        assert Before(index, d, n) == b;
        SubsequenceSkip(Days(index, b), index[..n - 1], x);
      }
    }
  }

  lemma {:induction false} FromSubsequence(index: seq<int>, d: int, n: nat)
    requires n <= |index|
    ensures Subsequence(Days(index, From(index, d, n)), index[..n])
  {
    if n > 0 {
      FromSubsequence(index, d, n - 1);
      var f := From(index, d, n - 1);
      var x := index[n - 1];
      assert index[..n] == index[..n - 1] + [x];
      if x >= d {
        assert From(index, d, n) == f + [n - 1];
        TakeDays(index, f, n - 1);
        SubsequenceSnoc(Days(index, f), index[..n - 1], x);
      } else {
        assert From(index, d, n) == f;
        SubsequenceSkip(Days(index, f), index[..n - 1], x);
      }
    }
  }

  lemma {:induction false} TakeDays(index: seq<int>, ps: seq<nat>, p: nat)
    requires forall i :: 0 <= i < |ps| ==> ps[i] < |index|
    requires p < |index|
    ensures Days(index, ps + [p]) == Days(index, ps) + [index[p]]
  {
    assert (ps + [p])[..|ps|] == ps;
  }

  /** The share of `part` in `whole`, in per cent. */
  function Percentage(part: nat, whole: nat): (r: real)
    requires whole > 0
    ensures part <= whole ==> 0.0 <= r <= 100.0
  {
    (part as real / whole as real) * 100.0
  }

  /** The shares of two parts of a whole add up to 100 per cent. */
  lemma PercentagesAdd(a: nat, b: nat)
    requires a + b > 0
    ensures Percentage(a, a + b) + Percentage(b, a + b) == 100.0
    ensures 0.0 <= Percentage(a, a + b) <= 100.0
    ensures Percentage(b, b + a) == Percentage(b, a + b)
  {
    var w := (a + b) as real;
    assert a as real / w + b as real / w == 1.0;
  }

  /** The split of `t` at `splitDate` into features and targets. */
  function SplitAt(t: Table, features: seq<string>, present: seq<string>, splitDate: int): (s: Split)
    requires WellFormed(t) && |t.index| > 0
    requires forall i :: 0 <= i < |features| ==> features[i] in t.columns
    requires forall i :: 0 <= i < |present| ==> present[i] in t.columns
    ensures |s.xTrain.index| + |s.xTest.index| == |t.index|
    ensures s.xTrain.index == s.yTrain.index && s.xTest.index == s.yTest.index
  {
    var n := |t.index|;
    var train, test := Before(t.index, splitDate, n), From(t.index, splitDate, n);
    var x, y := Project(t, features), Project(t, present);
    SidesCount(t.index, splitDate, n);
    Split(SelectRows(x, train), SelectRows(x, test), SelectRows(y, train), SelectRows(y, test),
          features, present, splitDate,
          Percentage(|train|, |train| + |test|), Percentage(|test|, |train| + |test|))
  }

  /** `split_data`: the split of the engineered table `t`. */
  function SplitData(t: Table, targets: seq<string>, bases: seq<string>, testDays: int): (r: Result<Split, SplitError>)
    requires WellFormed(t)
    ensures r.Ok? ==> && r.value.features == FeatureColumns(t, targets, bases)
                      && r.value.targets == PresentNames(t, targets)
  {
    var features := FeatureColumns(t, targets, bases);
    var present := PresentNames(t, targets);
    var total := |t.index|;
    if |present| == 0 then Err(NoTargets)
    else if |features| == 0 then Err(NoFeatures)
    else if total <= testDays then Err(NotEnoughRows(total, testDays))
    else
      var splitIndex := total - testDays;
      // `index[split_index]` raises IndexError once `split_index` reaches
      // the row count, which is what a test period of zero or fewer days
      // gives.
      if splitIndex >= total then Err(InvalidSplitIndex(splitIndex))
      else Ok(SplitAt(t, features, present, t.index[splitIndex]))
  }

  // ---------------------------------------------------------------------
  // Properties

  /** The split fails exactly when there is no target, no feature or too
      few rows, and the first of these checks to fail names the error. */
  lemma SplitOutcome(t: Table, targets: seq<string>, bases: seq<string>, testDays: int)
    requires WellFormed(t)
    ensures var r := SplitData(t, targets, bases, testDays);
      && (r.Ok? <==> (exists c :: c in targets && c in t.columns)
                     && (exists c :: c in t.columns && c !in targets && c !in bases)
                     && 0 < testDays < |t.index|)
      && ((forall c :: c in targets ==> c !in t.columns) ==> r == Err(NoTargets))
      && (((exists c :: c in targets && c in t.columns)
           && (forall c :: c in t.columns ==> c in targets || c in bases)) ==> r == Err(NoFeatures))
      && (r.Err? && r.error.NotEnoughRows? ==> |t.index| <= testDays)
      && (r.Err? && r.error.InvalidSplitIndex? ==> testDays <= 0 && r.error.splitIndex >= |t.index|)
  {
    var features := FeatureColumns(t, targets, bases);
    var present := PresentNames(t, targets);
    if |present| > 0 {
      assert present[0] in present;
    }
    if |features| > 0 {
      assert features[0] in features;
    }
  }

  /** A successful split is the split at the date of row
      `|t.index| - testDays`. */
  lemma SplitDataOk(t: Table, targets: seq<string>, bases: seq<string>, testDays: int)
    requires WellFormed(t) && SplitData(t, targets, bases, testDays).Ok?
    ensures 0 < testDays < |t.index|
    ensures SplitData(t, targets, bases, testDays).value
            == SplitAt(t, FeatureColumns(t, targets, bases), PresentNames(t, targets), t.index[|t.index| - testDays])
  {
  }

  /** The feature and target columns are disjoint, and both keep the order
      they have in the table and in the configuration; when the table holds
      every target, the targets are the configuration itself. */
  lemma SplitColumns(t: Table, targets: seq<string>, bases: seq<string>)
    ensures forall c :: c in FeatureColumns(t, targets, bases) ==> c !in PresentNames(t, targets)
    ensures Subsequence(FeatureColumns(t, targets, bases), t.columns)
    ensures Subsequence(PresentNames(t, targets), targets)
    ensures (forall c :: c in targets ==> c in t.columns) ==> PresentNames(t, targets) == targets
  {
    WithoutSubsequence(t.columns, targets + bases);
    WithinSubsequence(targets, t.columns);
    if forall c :: c in targets ==> c in t.columns {
      WithinAll(targets, t.columns);
    }
  }

  /** The feature columns and the excluded columns together are the table's
      columns, each as often as the table has it. */
  lemma FeaturesPartitionColumns(t: Table, targets: seq<string>, bases: seq<string>)
    ensures multiset(FeatureColumns(t, targets, bases)) + multiset(Within(t.columns, targets + bases))
            == multiset(t.columns)
  {
    WithinWithoutPartition(t.columns, targets + bases);
  }

  /** The rows dated before the split date form the training set and the
      others the test set: features and targets are split alike, each side
      keeps its rows in order, every row lands on exactly one side (the two
      sides are subsequences of the rows whose sizes add up to the row
      count, and the dates tell them apart), and the shares add up to 100
      per cent. */
  lemma {:induction false} SplitAtPartition(t: Table, features: seq<string>, present: seq<string>, d: int)
    requires WellFormed(t) && |t.index| > 0
    requires forall i :: 0 <= i < |features| ==> features[i] in t.columns
    requires forall i :: 0 <= i < |present| ==> present[i] in t.columns
    ensures var s := SplitAt(t, features, present, d);
      && s.xTrain.columns == features && s.xTest.columns == features
      && s.yTrain.columns == present && s.yTest.columns == present
      && s.xTrain.index == s.yTrain.index && s.xTest.index == s.yTest.index
      && (forall i :: 0 <= i < |s.xTrain.index| ==> s.xTrain.index[i] < d)
      && (forall i :: 0 <= i < |s.xTest.index| ==> s.xTest.index[i] >= d)
      && Subsequence(s.xTrain.index, t.index) && Subsequence(s.xTest.index, t.index)
      && |s.xTrain.index| + |s.xTest.index| == |t.index|
  {
    var n := |t.index|;
    var train, test := Before(t.index, d, n), From(t.index, d, n);
    var x, y := Project(t, features), Project(t, present);
    SelectedDays(x, train);
    SelectedDays(x, test);
    SelectedDays(y, train);
    SelectedDays(y, test);
    SideDates(t.index, d, n);
    BeforeSubsequence(t.index, d, n);
    FromSubsequence(t.index, d, n);
    SidesCount(t.index, d, n);
    assert t.index[..n] == t.index;
  }

  /** The two shares printed after the split add up to 100 per cent. */
  lemma {:induction false} SplitAtShares(t: Table, features: seq<string>, present: seq<string>, d: int)
    requires WellFormed(t) && |t.index| > 0
    requires forall i :: 0 <= i < |features| ==> features[i] in t.columns
    requires forall i :: 0 <= i < |present| ==> present[i] in t.columns
    ensures var s := SplitAt(t, features, present, d);
      && s.trainPercentage + s.testPercentage == 100.0
      && 0.0 <= s.trainPercentage <= 100.0 && 0.0 <= s.testPercentage <= 100.0
  {
    var n := |t.index|;
    var a, b := |Before(t.index, d, n)|, |From(t.index, d, n)|;
    SidesCount(t.index, d, n);
    PercentagesAdd(a, b);
    PercentagesAdd(b, a);
  }

  /** The dates of the rows `SelectRows` picks. */
  lemma {:induction false} SelectedDays(t: Table, ps: seq<nat>)
    requires WellFormed(t) && forall i :: 0 <= i < |ps| ==> ps[i] < |t.index|
    ensures SelectRows(t, ps).index == Days(t.index, ps)
  {
    forall i | 0 <= i < |ps| ensures SelectRows(t, ps).index[i] == Days(t.index, ps)[i] {
      DaysAt(t.index, ps, i);
    }
  }

  /** Each side holds only dates that belong on that side. */
  lemma {:induction false} SideDates(index: seq<int>, d: int, n: nat)
    requires n <= |index|
    ensures var b := Days(index, Before(index, d, n)); forall i :: 0 <= i < |b| ==> b[i] < d
    ensures var f := Days(index, From(index, d, n)); forall i :: 0 <= i < |f| ==> f[i] >= d
  {
    var train, test := Before(index, d, n), From(index, d, n);
    BeforeMembers(index, d, n);
    FromMembers(index, d, n);
    forall i | 0 <= i < |train| ensures Days(index, train)[i] < d {
      DaysAt(index, train, i);
    }
    forall i | 0 <= i < |test| ensures Days(index, test)[i] >= d {
      DaysAt(index, test, i);
    }
  }

  /** `SplitAtPartition` for the split `split_data` makes. */
  lemma SplitPartition(t: Table, targets: seq<string>, bases: seq<string>, testDays: int)
    requires WellFormed(t) && SplitData(t, targets, bases, testDays).Ok?
    ensures var s := SplitData(t, targets, bases, testDays).value;
      && s.xTrain.columns == s.features && s.xTest.columns == s.features
      && s.yTrain.columns == s.targets && s.yTest.columns == s.targets
      && s.xTrain.index == s.yTrain.index && s.xTest.index == s.yTest.index
      && s.splitDate == t.index[|t.index| - testDays]
      && (forall i :: 0 <= i < |s.xTrain.index| ==> s.xTrain.index[i] < s.splitDate)
      && (forall i :: 0 <= i < |s.xTest.index| ==> s.xTest.index[i] >= s.splitDate)
      && Subsequence(s.xTrain.index, t.index) && Subsequence(s.xTest.index, t.index)
      && |s.xTrain.index| + |s.xTest.index| == |t.index|
  {
    SplitDataOk(t, targets, bases, testDays);
    SplitAtPartition(t, FeatureColumns(t, targets, bases), PresentNames(t, targets), t.index[|t.index| - testDays]);
  }

  lemma {:induction false} BeforeWindow(index: seq<int>, k: nat, m: nat)
    requires StrictlyIncreasing(index) && k < |index| && m <= |index|
    ensures Before(index, index[k], m) == Range(0, if m < k then m else k)
  {
    if m > 0 {
      BeforeWindow(index, k, m - 1);
      assert index[m - 1] < index[k] <==> m - 1 < k;
    }
  }

  lemma {:induction false} FromWindow(index: seq<int>, k: nat, m: nat)
    requires StrictlyIncreasing(index) && k < |index| && m <= |index|
    ensures From(index, index[k], m) == Range(k, m)
  {
    if m > 0 {
      FromWindow(index, k, m - 1);
      assert index[m - 1] >= index[k] <==> k <= m - 1;
    }
  }

  /** On dates that strictly increase (one row per day), splitting at the
      date of row `k` puts the first `k` rows into the training set and the
      others into the test set. */
  lemma {:induction false} SplitAtChronological(t: Table, features: seq<string>, present: seq<string>, k: nat)
    requires WellFormed(t) && StrictlyIncreasing(t.index) && k < |t.index|
    requires forall i :: 0 <= i < |features| ==> features[i] in t.columns
    requires forall i :: 0 <= i < |present| ==> present[i] in t.columns
    ensures var s := SplitAt(t, features, present, t.index[k]);
      && s.xTrain.index == t.index[..k] && s.xTest.index == t.index[k..]
  {
    var n := |t.index|;
    BeforeWindow(t.index, k, n);
    FromWindow(t.index, k, n);
    var s := SplitAt(t, features, present, t.index[k]);
    assert s.xTrain.index == t.index[..k];
    assert s.xTest.index == t.index[k..];
  }

  /** On a table whose dates strictly increase, the last `testDays` rows
      form the test set and the rows before them the training set, so every
      training date comes before the split date, which is the first test
      date. */
  lemma SplitChronological(t: Table, targets: seq<string>, bases: seq<string>, testDays: int)
    requires WellFormed(t) && StrictlyIncreasing(t.index)
    requires SplitData(t, targets, bases, testDays).Ok?
    ensures var s := SplitData(t, targets, bases, testDays).value;
      var k := |t.index| - testDays;
      && s.xTrain.index == t.index[..k] && s.xTest.index == t.index[k..]
      && |s.xTrain.index| == k && |s.xTest.index| == testDays
  {
    SplitDataOk(t, targets, bases, testDays);
    var k := |t.index| - testDays;
    var features, present := FeatureColumns(t, targets, bases), PresentNames(t, targets);
    var s := SplitAt(t, features, present, t.index[k]);
    assert SplitData(t, targets, bases, testDays).value == s;
    SplitAtChronological(t, features, present, k);
    assert |s.xTrain.index| == |t.index[..k]| == k;
    assert |s.xTest.index| == |t.index[k..]| == testDays;
  }

  /** The two shares printed after the split add up to 100 per cent; on
      dates that strictly increase they are the shares of
      `|t.index| - testDays` and `testDays` rows. */
  lemma SplitPercentages(t: Table, targets: seq<string>, bases: seq<string>, testDays: int)
    requires WellFormed(t) && SplitData(t, targets, bases, testDays).Ok?
    ensures var s := SplitData(t, targets, bases, testDays).value;
      && s.trainPercentage + s.testPercentage == 100.0
      && 0.0 <= s.trainPercentage <= 100.0 && 0.0 <= s.testPercentage <= 100.0
      && (StrictlyIncreasing(t.index) ==>
            && s.trainPercentage == Percentage(|t.index| - testDays, |t.index|)
            && s.testPercentage == Percentage(testDays, |t.index|))
  {
    SplitDataOk(t, targets, bases, testDays);
    var n, k := |t.index|, |t.index| - testDays;
    var d := t.index[k];
    SplitAtShares(t, FeatureColumns(t, targets, bases), PresentNames(t, targets), d);
    if StrictlyIncreasing(t.index) {
      BeforeWindow(t.index, k, n);
      FromWindow(t.index, k, n);
      assert |Before(t.index, d, n)| == k && |From(t.index, d, n)| == testDays;
    }
  }
}
