/** `get_weather_data`: the column selection applied to the daily table the
    weather service returns. The fetch itself is not modelled: the table it
    returns is the parameter `raw`. */
module DataCollection {
  import opened Tables

  datatype CollectionError =
    | MissingEssential(columns: seq<string>)   // essential columns not among the available ones
    | NoDataAfterSelection                     // the selected table is empty

  /** The selected table, and the required columns the service did not
      deliver (reported as a warning only). */
  datatype Collected = Collected(data: Table, missing: seq<string>)

  /** The required columns the raw table lacks, in required order. */
  function Missing(raw: Table, required: seq<string>): (r: seq<string>)
    ensures forall c :: c in r <==> c in required && c !in raw.columns
  {
    Without(required, raw.columns)
  }

  /** The essential columns that are not available. */
  function MissingEssentials(raw: Table, required: seq<string>, essential: seq<string>): (r: seq<string>)
    ensures forall c :: c in r <==> c in essential && !(c in required && c in raw.columns)
  {
    Without(essential, PresentNames(raw, required))
  }

  /** `get_weather_data` once the raw table is in hand. */
  function GetWeatherData(raw: Table, required: seq<string>, essential: seq<string>): (r: Result<Collected, CollectionError>)
    requires WellFormed(raw)
    ensures r.Ok? ==> forall c :: c in essential ==> c in r.value.data.columns
  {
    var available := PresentNames(raw, required);
    var missingEssential := MissingEssentials(raw, required, essential);
    if |missingEssential| > 0 then Err(MissingEssential(missingEssential))
    else
      var data := Project(raw, available);
      if IsEmpty(data) then Err(NoDataAfterSelection)
      else Ok(Collected(data, Missing(raw, required)))
  }

  // ---------------------------------------------------------------------
  // Properties

  /** Available and missing columns split the required list: both keep its
      order, and together they hold each required column as often as the
      list does. */
  lemma ColumnsPartitionRequired(raw: Table, required: seq<string>)
    ensures Subsequence(PresentNames(raw, required), required)
    ensures Subsequence(Missing(raw, required), required)
    ensures multiset(PresentNames(raw, required)) + multiset(Missing(raw, required)) == multiset(required)
  {
    WithinSubsequence(required, raw.columns);
    WithoutSubsequence(required, raw.columns);
    WithinWithoutPartition(required, raw.columns);
  }

  /** The collection fails exactly when an essential column is unavailable
      (the error lists those columns), or when the selection leaves no row
      or no column; a missing column that is not essential is no error. */
  lemma CollectionOutcome(raw: Table, required: seq<string>, essential: seq<string>)
    requires WellFormed(raw)
    ensures var r := GetWeatherData(raw, required, essential);
      && (r.Ok? <==> && (forall c :: c in essential ==> c in required && c in raw.columns)
                     && |raw.index| > 0
                     && (exists c :: c in required && c in raw.columns))
      && ((exists c :: c in essential && !(c in required && c in raw.columns)) ==>
            && r.Err? && r.error.MissingEssential?
            && forall c :: c in r.error.columns <==> c in essential && !(c in required && c in raw.columns))
      && (r.Err? && r.error.NoDataAfterSelection? ==>
            |raw.index| == 0 || forall c :: c in required ==> c !in raw.columns)
  {
    var available := PresentNames(raw, required);
    var missingEssential := MissingEssentials(raw, required, essential);
    if |missingEssential| > 0 {
      assert missingEssential[0] in missingEssential;
    }
    if |available| > 0 {
      assert available[0] in available;
    }
  }

  /** A successful collection keeps every row and the daily dates, and
      holds exactly the available columns, in required order, with the raw
      cells; the missing columns it reports are the absent required ones. */
  lemma CollectedTable(raw: Table, required: seq<string>, essential: seq<string>)
    requires WellFormed(raw) && GetWeatherData(raw, required, essential).Ok?
    ensures var c := GetWeatherData(raw, required, essential).value;
      && WellFormed(c.data) && !IsEmpty(c.data)
      && c.data.index == raw.index
      && c.data.columns == PresentNames(raw, required)
      && (forall i :: 0 <= i < |c.data.columns| ==> c.data.data[i] == ColumnOf(raw, c.data.columns[i]))
      && c.missing == Missing(raw, required)
      && (forall e :: e in essential ==> e in c.data.columns)
  {
  }

  /** Selecting columns keeps a table without missing cells complete. */
  lemma CollectedComplete(raw: Table, required: seq<string>, essential: seq<string>)
    requires WellFormed(raw) && NoMissing(raw) && GetWeatherData(raw, required, essential).Ok?
    ensures NoMissing(GetWeatherData(raw, required, essential).value.data)
  {
    var d := GetWeatherData(raw, required, essential).value.data;
    forall j, p | 0 <= j < |d.data| && 0 <= p < |d.data[j]| ensures d.data[j][p].Some? {
      var k := IndexOf(raw.columns, d.columns[j]);
      assert d.data[j] == raw.data[k];
    }
  }
}
