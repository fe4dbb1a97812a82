/** The daily forecast update: fetch the days before the target date, fill
    and engineer them as training did, take the features of the last row,
    let each model predict, and assemble the forecast record.

    Days are day numbers (day 0 is 1970-01-01) and instants are Unix
    seconds. The weather service, the stored models, the clock and the JSON
    file are outside the model: the fetched table, the models' predictions
    (`None` where the model raises) and the time stamp are parameters. */
module UpdatePrediction {
  import opened Tables
  import Preprocessing
  import FeatureEngineering
  import FeatureRows
  import DataCollection
  import DataSplitting

  const SecondsPerDay: int := 86400

  /** The target names whose predictions the record carries. */
  const TempTarget: string := "tavg_target"
  const WindTarget: string := "wspd_target"

  datatype Config = Config(
    required: seq<string>, essential: seq<string>,
    targets: seq<string>, bases: seq<string>, lagDays: int)

  // ---------------------------------------------------------------------
  // The fetch window

  /** The first and the last second requested from the weather service. */
  datatype Window = Window(start: int, end: int)

  /** Midnight `lagDays + 5` days before the target day, up to the second
      before the target day begins. */
  function FetchWindow(targetDay: int, lagDays: int): (w: Window)
    ensures w.start <= w.end <==> lagDays >= -4
  {
    var end := targetDay * SecondsPerDay;
    Window(end - (lagDays + 5) * SecondsPerDay, end - 1)
  }

  /** The window starts at midnight `lagDays + 5` days before the target
      day, ends at 23:59:59 of the day before it, and spans `lagDays + 5`
      whole days. */
  lemma FetchWindowDays(targetDay: int, lagDays: int)
    ensures var w := FetchWindow(targetDay, lagDays);
      && w.start % SecondsPerDay == 0 && w.start / SecondsPerDay == targetDay - (lagDays + 5)
      && w.end / SecondsPerDay == targetDay - 1 && w.end % SecondsPerDay == SecondsPerDay - 1
      && w.end - w.start + 1 == (lagDays + 5) * SecondsPerDay
  {
    var w := FetchWindow(targetDay, lagDays);
    assert w.start == (targetDay - (lagDays + 5)) * SecondsPerDay;
    assert w.end == (targetDay - 1) * SecondsPerDay + (SecondsPerDay - 1);
  }

  // ---------------------------------------------------------------------
  // The features of the last day

  /** The features for one prediction: the date of the row they come from,
      the feature columns and their values, and whether that row is the day
      before the target day (when it is not, the program only warns). */
  datatype Prepared = Prepared(date: int, columns: seq<string>, values: seq<real>, onExpectedDay: bool)

  /** The fill, then `dropna` when the fill left a gap; `None` when no row
      survives. */
  function Cleaned(data: Table): (r: Option<Table>)
    requires WellFormed(data)
    ensures r.Some? ==> WellFormed(r.value) && r.value.columns == data.columns
  {
    var filled := Preprocessing.FillStep(data);
    if NoMissing(filled) then Some(filled)
    else
      var dropped := FeatureEngineering.DropNa(filled);
      if IsEmpty(dropped) then None else Some(dropped)
  }

  /** The feature columns of the last row of `f`; `None` when one of them
      is missing. */
  function LastRowFeatures(f: Table, targets: seq<string>, bases: seq<string>, targetDay: int): (r: Option<Prepared>)
    requires WellFormed(f) && |f.index| > 0
    ensures r.Some? ==> && r.value.date == f.index[|f.index| - 1]
                        && r.value.columns == DataSplitting.FeatureColumns(f, targets, bases)
                        && |r.value.values| == |r.value.columns|
                        && (r.value.onExpectedDay <==> r.value.date == targetDay - 1)
  {
    var last := |f.index| - 1;
    var names := DataSplitting.FeatureColumns(f, targets, bases);
    match RowValues(f, names, last)
    case None => None
    case Some(vs) => Some(Prepared(f.index[last], names, vs, f.index[last] == targetDay - 1))
  }

  /** The values of the columns `names` at row position `p`, or `None` when
      one of them is missing. */
  function RowValues(f: Table, names: seq<string>, p: nat): (r: Option<seq<real>>)
    requires WellFormed(f) && p < |f.index| && forall c :: c in names ==> c in f.columns
    ensures r.Some? ==> |r.value| == |names|
  {
    if names == [] then Some([])
    else match RowValues(f, names[..|names| - 1], p)
      case None => None
      case Some(vs) => match ColumnOf(f, names[|names| - 1])[p]
        case None => None
        case Some(v) => Some(vs + [v])
  }

  /** `get_features_for_date`: `None` wherever the program returns
      `(None, None)`, including the exceptions it catches. */
  function FeaturesForDate(raw: Table, cfg: Config, targetDay: int): (r: Option<Prepared>)
    requires WellFormed(raw)
    ensures r.Some? ==> |r.value.values| == |r.value.columns|
  {
    match DataCollection.GetWeatherData(raw, cfg.required, cfg.essential)
    case Err(_) => None
    case Ok(c) =>
      if IsEmpty(c.data) then None
      else match Cleaned(c.data)
        case None => None
        case Some(clean) =>
          match FeatureEngineering.Engineered(clean, cfg.targets, cfg.bases, cfg.lagDays)
          case Err(_) => None
          case Ok(f) =>
            if IsEmpty(f) then None
            else
              FeatureRows.EngineeredComplete(clean, cfg.targets, cfg.bases, cfg.lagDays);
              LastRowFeatures(f, cfg.targets, cfg.bases, targetDay)
  }

  /** `get_features_for_date`, filling and dropping rows of the fetched
      table in place. */
  method GetFeaturesForDate(raw: Table, cfg: Config, targetDay: int) returns (r: Option<Prepared>)
    requires WellFormed(raw)
    ensures r == FeaturesForDate(raw, cfg, targetDay)
  {
    var collected := DataCollection.GetWeatherData(raw, cfg.required, cfg.essential);
    if collected.Err? || IsEmpty(collected.value.data) {
      return None;
    }
    var data := collected.value.data;
    data := Preprocessing.FillGaps(data);
    if !NoMissing(data) {
      data := FeatureEngineering.DropNa(data);
      if IsEmpty(data) {
        return None;
      }
    }
    var featured := FeatureEngineering.EngineerFeatures(data, cfg.targets, cfg.bases, cfg.lagDays);
    if featured.Err? || IsEmpty(featured.value) {
      return None;
    }
    FeatureRows.EngineeredComplete(data, cfg.targets, cfg.bases, cfg.lagDays);
    r := LastRowFeatures(featured.value, cfg.targets, cfg.bases, targetDay);
  }

  // ---------------------------------------------------------------------
  // Properties of the features

  /** The fill of the update fills every column: on a table without gaps
      the fill leaves each column as it is. */
  lemma {:induction false} FillFillsAll(t: Table)
    requires WellFormed(t)
    ensures forall j :: 0 <= j < |t.data| ==> Preprocessing.FillStep(t).data[j] == Preprocessing.Fill(t.data[j])
  {
    if NoMissing(t) {
      forall j | 0 <= j < |t.data| ensures t.data[j] == Preprocessing.Fill(t.data[j]) {
        forall i | 0 <= i < |t.data[j]| ensures Preprocessing.Fill(t.data[j])[i] == t.data[j][i] {
          Preprocessing.FillKeepsPresent(t.data[j], i);
        }
      }
    }
  }

  /** A gap the fill cannot close is a column with no value at all, and
      then `dropna` keeps no row: the update gives up. */
  lemma {:induction false} CleanedMeans(data: Table)
    requires WellFormed(data)
    ensures Cleaned(data) == if NoMissing(Preprocessing.FillStep(data)) then Some(Preprocessing.FillStep(data)) else None
  {
    var filled := Preprocessing.FillStep(data);
    if !NoMissing(filled) {
      var j, p :| 0 <= j < |filled.data| && 0 <= p < |filled.data[j]| && filled.data[j][p].None?;
      FillFillsAll(data);
      Preprocessing.FillMissingExactly(data.data[j], p);
      forall q | 0 <= q < |filled.index| ensures !RowComplete(filled, q) {
        Preprocessing.FillMissingExactly(data.data[j], q);
      }
      NoRowComplete(filled, |filled.index|);
    }
  }

  lemma {:induction false} NoRowComplete(t: Table, n: nat)
    requires WellFormed(t) && n <= |t.index|
    requires forall q :: 0 <= q < |t.index| ==> !RowComplete(t, q)
    ensures FeatureEngineering.CompletePositions(t, n) == []
  {
    if n > 0 {
      NoRowComplete(t, n - 1);
    }
  }

  /** The features are those of the last row: its date, the columns that
      are neither targets nor their bases, and their values; the result is
      `None` exactly when one of those values is missing. Whether the row is
      from the expected day only sets the flag. */
  lemma LastRowMeaning(f: Table, targets: seq<string>, bases: seq<string>, targetDay: int)
    requires WellFormed(f) && |f.index| > 0
    ensures var r := LastRowFeatures(f, targets, bases, targetDay);
      var names := DataSplitting.FeatureColumns(f, targets, bases);
      && (r.Some? <==> forall i :: 0 <= i < |names| ==> ColumnOf(f, names[i])[|f.index| - 1].Some?)
      && (NoMissing(f) ==> r.Some?)
      && (r.Some? ==> forall i :: 0 <= i < |names| ==> ColumnOf(f, names[i])[|f.index| - 1] == Some(r.value.values[i]))
  {
    var last := |f.index| - 1;
    var names := DataSplitting.FeatureColumns(f, targets, bases);
    RowValuesMeaning(f, names, last);
    if NoMissing(f) {
      forall i | 0 <= i < |names| ensures ColumnOf(f, names[i])[last].Some? {
        var k := IndexOf(f.columns, names[i]);
        assert ColumnOf(f, names[i])[last] == f.data[k][last];
      }
    }
  }

  /** The row values are present exactly when every named cell at that
      position is, and they are then the numbers in those cells. */
  lemma {:induction false} RowValuesMeaning(f: Table, names: seq<string>, p: nat)
    requires WellFormed(f) && p < |f.index| && forall c :: c in names ==> c in f.columns
    ensures var r := RowValues(f, names, p);
      && (r.Some? <==> forall i :: 0 <= i < |names| ==> ColumnOf(f, names[i])[p].Some?)
      && (r.Some? ==> forall i :: 0 <= i < |names| ==> ColumnOf(f, names[i])[p] == Some(r.value[i]))
  {
    if names != [] {
      var init := names[..|names| - 1];
      RowValuesMeaning(f, init, p);
      assert forall i :: 0 <= i < |init| ==> init[i] == names[i];
    }
  }

  /** `get_features_for_date` yields features exactly when the collection
      succeeds, the fill closes every gap and feature engineering succeeds;
      the features are then those of the last engineered row, and a
      missing feature value cannot occur. The target day plays no part in
      whether there is a result: a date mismatch is only a warning. */
  lemma FeaturesOutcome(raw: Table, cfg: Config, targetDay: int)
    requires WellFormed(raw)
    ensures var r := FeaturesForDate(raw, cfg, targetDay);
      var c := DataCollection.GetWeatherData(raw, cfg.required, cfg.essential);
      && (c.Err? ==> r.None?)
      && (c.Ok? ==>
            var filled := Preprocessing.FillStep(c.value.data);
            var e := FeatureEngineering.Engineered(filled, cfg.targets, cfg.bases, cfg.lagDays);
            && (r.Some? <==> NoMissing(filled) && e.Ok?)
            && (r.Some? ==> r == LastRowFeatures(e.value, cfg.targets, cfg.bases, targetDay)))
  {
    var c := DataCollection.GetWeatherData(raw, cfg.required, cfg.essential);
    if c.Ok? {
      DataCollection.CollectedTable(raw, cfg.required, cfg.essential);
      var filled := Preprocessing.FillStep(c.value.data);
      CleanedMeans(c.value.data);
      if NoMissing(filled) {
        var e := FeatureEngineering.Engineered(filled, cfg.targets, cfg.bases, cfg.lagDays);
        if e.Ok? {
          FeatureRows.EngineeredComplete(filled, cfg.targets, cfg.bases, cfg.lagDays);
          LastRowMeaning(e.value, cfg.targets, cfg.bases, targetDay);
        }
      }
    }
  }

  /** A collected table without gaps goes to feature engineering as it is. */
  lemma FeaturesOfComplete(raw: Table, cfg: Config, targetDay: int)
    requires WellFormed(raw) && DataCollection.GetWeatherData(raw, cfg.required, cfg.essential).Ok?
    requires var data := DataCollection.GetWeatherData(raw, cfg.required, cfg.essential).value.data;
      NoMissing(data) && FeatureEngineering.Engineered(data, cfg.targets, cfg.bases, cfg.lagDays).Ok?
    ensures var data := DataCollection.GetWeatherData(raw, cfg.required, cfg.essential).value.data;
      FeaturesForDate(raw, cfg, targetDay)
        == LastRowFeatures(FeatureEngineering.Engineered(data, cfg.targets, cfg.bases, cfg.lagDays).value,
                           cfg.targets, cfg.bases, targetDay)
    ensures FeaturesForDate(raw, cfg, targetDay).Some?
  {
    var data := DataCollection.GetWeatherData(raw, cfg.required, cfg.essential).value.data;
    DataCollection.CollectedTable(raw, cfg.required, cfg.essential);
    FillStepComplete(data);
    FeatureRows.EngineeredComplete(data, cfg.targets, cfg.bases, cfg.lagDays);
    LastRowMeaning(FeatureEngineering.Engineered(data, cfg.targets, cfg.bases, cfg.lagDays).value,
                   cfg.targets, cfg.bases, targetDay);
  }

  /** The fill leaves a table without gaps as it is. */
  lemma FillStepComplete(t: Table)
    requires WellFormed(t) && NoMissing(t)
    ensures Preprocessing.FillStep(t) == t
  {
  }

  /** Feature engineering of a gap-free table keeps the fetched dates from
      position `L` up to but excluding the last (the last day has no
      next-day target, so `dropna` removes it; `EngineeredFullInput`). The
      features then come from the last-but-one fetched day; so when the
      service delivers every day up to the day before the target day, they
      are never from the expected day and the warning always appears. */
  lemma WindowLastRow(f: Table, index: seq<int>, lag: nat, targets: seq<string>, bases: seq<string>, targetDay: int)
    requires WellFormed(f) && lag + 1 < |index| && f.index == index[lag..|index| - 1]
    requires LastRowFeatures(f, targets, bases, targetDay).Some?
    ensures var p := LastRowFeatures(f, targets, bases, targetDay).value;
      && p.date == index[|index| - 2]
      && (StrictlyIncreasing(index) && index[|index| - 1] == targetDay - 1 ==> !p.onExpectedDay)
  {
  }

  // ---------------------------------------------------------------------
  // The predictions

  /** A loaded model under the key it has in the model dictionary; its
      prediction for one row of features is one value per target, `None`
      standing for NaN, or `None` altogether where the model raises. */
  datatype Model = Model(name: string, predict: seq<real> -> Option<seq<Cell>>)

  /** The two values kept from one model's prediction. */
  datatype ModelOutput = ModelOutput(temp: Option<real>, wspd: Option<real>)

  /** `target_cols.index(name)`, or -1 when the name is not a target. */
  function TargetIndex(targets: seq<string>, name: string): (k: int)
    ensures -1 <= k < |targets|
  {
    if name in targets then IndexOf(targets, name) else -1
  }

  /** The prediction at position `k`, or `None` when there is no such
      position or the value there is NaN. */
  function PredictedValue(row: seq<Cell>, k: int): (v: Option<real>)
    requires k >= -1
    ensures v.Some? ==> 0 <= k < |row| && row[k] == v
  {
    if k != -1 && k < |row| then row[k] else None
  }

  /** The value kept for a target: `None` when the name is not a target,
      when the prediction is too narrow to reach its position or when the
      model predicted NaN there, and otherwise the predicted number at the
      position of the first target with that name. */
  lemma ExtractedValue(row: seq<Cell>, targets: seq<string>, name: string)
    ensures var v := PredictedValue(row, TargetIndex(targets, name));
      && (TargetIndex(targets, name) == -1 <==> name !in targets)
      && (v.Some? <==> name in targets && IndexOf(targets, name) < |row| && row[IndexOf(targets, name)].Some?)
      && (v.Some? ==> var k := IndexOf(targets, name);
            targets[k] == name && (forall i :: 0 <= i < k ==> targets[i] != name) && v == row[k])
  {
    if name in targets {
      IndexOfFirst(targets, name);
    }
  }

  /** One pass of the model loop: the temperature and wind values of the
      model's prediction, or two `None`s when the call fails. */
  function ModelResult(m: Model, p: Prepared, targets: seq<string>): (r: ModelOutput)
    ensures r.temp.Some? ==> TempTarget in targets
    ensures r.wspd.Some? ==> WindTarget in targets
  {
    // The feature-count check raises ValueError on a mismatch.
    if |p.values| != |p.columns| then ModelOutput(None, None)
    else match m.predict(p.values)
      case None => ModelOutput(None, None)
      case Some(row) =>
        ModelOutput(PredictedValue(row, TargetIndex(targets, TempTarget)),
                    PredictedValue(row, TargetIndex(targets, WindTarget)))
  }

  /** The dictionary the model loop fills, one entry per model key, a later
      model overwriting an earlier one with the same key. */
  function Predictions(models: seq<Model>, p: Prepared, targets: seq<string>): (out: map<string, ModelOutput>)
    ensures |out| <= |models|
  {
    if models == [] then map[]
    else
      var m := models[|models| - 1];
      Predictions(models[..|models| - 1], p, targets)[m.name := ModelResult(m, p, targets)]
  }

  /** The model loop of `run_prediction_and_save`. */
  method PredictAll(models: seq<Model>, p: Prepared, targets: seq<string>) returns (out: map<string, ModelOutput>)
    ensures out == Predictions(models, p, targets)
  {
    out := map[];
    for i := 0 to |models|
      invariant out == Predictions(models[..i], p, targets)
    {
      assert models[..i + 1][..i] == models[..i];
      out := out[models[i].name := ModelResult(models[i], p, targets)];
    }
    assert models[..|models|] == models;
  }

  /** The dictionary has an entry for exactly the model keys, and each
      entry is the output of the last model with that key. */
  lemma {:induction false} PredictionsLookup(models: seq<Model>, p: Prepared, targets: seq<string>, name: string)
    ensures var out := Predictions(models, p, targets);
      && (name in out <==> exists i :: 0 <= i < |models| && models[i].name == name)
      && (name in out ==> exists i :: && 0 <= i < |models| && models[i].name == name
                                      && out[name] == ModelResult(models[i], p, targets)
                                      && forall j :: i < j < |models| ==> models[j].name != name)
  {
    if models != [] {
      var init, m := models[..|models| - 1], models[|models| - 1];
      PredictionsLookup(init, p, targets, name);
      if name != m.name {
        forall i | 0 <= i < |init| ensures init[i] == models[i] {
        }
        if name in Predictions(init, p, targets) {
          var i :| 0 <= i < |init| && init[i].name == name
                   && Predictions(init, p, targets)[name] == ModelResult(init[i], p, targets)
                   && forall j :: i < j < |init| ==> init[j].name != name;
          assert models[i] == init[i];
        }
        if exists i :: 0 <= i < |models| && models[i].name == name {
          var i :| 0 <= i < |models| && models[i].name == name;
          assert init[i] == models[i];
        }
      } else {
        assert models[|models| - 1].name == name;
      }
    }
  }

  // ---------------------------------------------------------------------
  // The forecast record

  /** The record written to the JSON file, the date as a day number. */
  datatype ForecastRecord = ForecastRecord(
    forecastDate: int,
    rfTemp: Option<real>, rfWspd: Option<real>,
    xgbTemp: Option<real>, xgbWspd: Option<real>,
    generatedAt: string)

  /** `predictions_output.get(key, {}).get(field)`. */
  function Field(out: map<string, ModelOutput>, key: string, temp: bool): (v: Option<real>)
    ensures key !in out ==> v.None?
  {
    if key !in out then None else if temp then out[key].temp else out[key].wspd
  }

  function MakeRecord(lastDate: int, out: map<string, ModelOutput>, generatedAt: string): (r: ForecastRecord)
    ensures out == map[] ==> r.rfTemp.None? && r.rfWspd.None? && r.xgbTemp.None? && r.xgbWspd.None?
  {
    ForecastRecord(lastDate + 1,
                   Field(out, "rf", true), Field(out, "rf", false),
                   Field(out, "xgb", true), Field(out, "xgb", false),
                   generatedAt)
  }

  datatype RunError = FeaturesUnavailable

  /** `run_prediction_and_save` once both models are loaded: the features
      for `today`, then the record. */
  function Forecast(raw: Table, cfg: Config, today: int, rf: seq<real> -> Option<seq<Cell>>,
                    xgb: seq<real> -> Option<seq<Cell>>, generatedAt: string): (r: Result<ForecastRecord, RunError>)
    requires WellFormed(raw)
    ensures r.Ok? <==> FeaturesForDate(raw, cfg, today).Some?
    ensures r.Ok? ==> r.value.forecastDate == FeaturesForDate(raw, cfg, today).value.date + 1
  {
    match FeaturesForDate(raw, cfg, today)
    case None => Err(FeaturesUnavailable)
    case Some(p) =>
      Ok(MakeRecord(p.date, Predictions([Model("rf", rf), Model("xgb", xgb)], p, cfg.targets), generatedAt))
  }

  method RunPrediction(raw: Table, cfg: Config, today: int, rf: seq<real> -> Option<seq<Cell>>,
                       xgb: seq<real> -> Option<seq<Cell>>, generatedAt: string)
    returns (r: Result<ForecastRecord, RunError>)
    requires WellFormed(raw)
    ensures r == Forecast(raw, cfg, today, rf, xgb, generatedAt)
  {
    var models := [Model("rf", rf), Model("xgb", xgb)];
    var prepared := GetFeaturesForDate(raw, cfg, today);
    if prepared.None? {
      return Err(FeaturesUnavailable);
    }
    var out := PredictAll(models, prepared.value, cfg.targets);
    r := Ok(MakeRecord(prepared.value.date, out, generatedAt));
  }

  /** The update stops without a record exactly when there are no
      features. Otherwise the forecast is for the day after the feature
      row, and each of the four fields is the value kept from that model's
      prediction for that target: `None` when the model raises, when the
      target is not configured or out of the prediction's reach, or when
      the prediction there is NaN. */
  lemma ForecastFields(raw: Table, cfg: Config, today: int, rf: seq<real> -> Option<seq<Cell>>,
                       xgb: seq<real> -> Option<seq<Cell>>, generatedAt: string)
    requires WellFormed(raw)
    ensures var r := Forecast(raw, cfg, today, rf, xgb, generatedAt);
      var f := FeaturesForDate(raw, cfg, today);
      && (r.Ok? <==> f.Some?)
      && (r.Ok? ==>
            var p := f.value;
            && r.value.forecastDate == p.date + 1
            && r.value.generatedAt == generatedAt
            && r.value.rfTemp == (match rf(p.values) case None => None
                                  case Some(row) => PredictedValue(row, TargetIndex(cfg.targets, TempTarget)))
            && r.value.rfWspd == (match rf(p.values) case None => None
                                  case Some(row) => PredictedValue(row, TargetIndex(cfg.targets, WindTarget)))
            && r.value.xgbTemp == (match xgb(p.values) case None => None
                                   case Some(row) => PredictedValue(row, TargetIndex(cfg.targets, TempTarget)))
            && r.value.xgbWspd == (match xgb(p.values) case None => None
                                   case Some(row) => PredictedValue(row, TargetIndex(cfg.targets, WindTarget))))
  {
    var f := FeaturesForDate(raw, cfg, today);
    if f.Some? {
      RecordFields(f.value, cfg.targets, rf, xgb, generatedAt);
    }
  }

  /** The record of one set of features: each field comes from the model
      under its key. */
  lemma RecordFields(p: Prepared, targets: seq<string>, rf: seq<real> -> Option<seq<Cell>>,
                     xgb: seq<real> -> Option<seq<Cell>>, generatedAt: string)
    requires |p.values| == |p.columns|
    ensures var r := MakeRecord(p.date, Predictions([Model("rf", rf), Model("xgb", xgb)], p, targets), generatedAt);
      && r.forecastDate == p.date + 1
      && r.generatedAt == generatedAt
      && r.rfTemp == ModelResult(Model("rf", rf), p, targets).temp
      && r.rfWspd == ModelResult(Model("rf", rf), p, targets).wspd
      && r.xgbTemp == ModelResult(Model("xgb", xgb), p, targets).temp
      && r.xgbWspd == ModelResult(Model("xgb", xgb), p, targets).wspd
  {
    var models := [Model("rf", rf), Model("xgb", xgb)];
    assert models[..1] == [Model("rf", rf)];
    assert [Model("rf", rf)][..0] == [];
  }
}
