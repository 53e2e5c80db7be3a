/** The `WeatherForecast` model: one durable row per postal code, kept fresh for
    thirty minutes, and the upsert that refreshes it (`find_or_create_by_zip_code`).
    The table is the sequence of its rows in insertion order; `now` is the one
    clock reading (in seconds) of the request doing the upsert. */
module WeatherForecastModel {
  import opened Common
  import Text
  import Validation
  import WeatherService

  /** A row of `weather_forecasts`. The NOT NULL columns are plain values. */
  datatype ForecastRow = ForecastRow(
    zipCode: string,
    temperature: int,
    highTemp: int,
    lowTemp: int,
    description: string,
    extendedForecast: Option<seq<WeatherService.DailyForecast>>,
    cachedAt: int)

  /** What one call of `find_or_create_by_zip_code` leaves behind: the new table
      and the record returned, or the message of the error raised. */
  datatype Upsert = Upsert(rows: seq<ForecastRow>, outcome: Result<ForecastRow>)

  /** `30.minutes`, in seconds. */
  const FreshnessWindow := 1800

  // ---------------------------------------------------------------------------
  // expired? and the two scopes

  /** `expired?`: `cached_at <= 30.minutes.ago`. */
  predicate Expired(row: ForecastRow, now: int) {
    row.cachedAt <= now - FreshnessWindow
  }

  /** The condition of the `recent` scope: `cached_at > 30.minutes.ago`. */
  predicate Recent(row: ForecastRow, now: int) {
    row.cachedAt > now - FreshnessWindow
  }

  /** A row cached exactly thirty minutes ago is expired; one second later than
      that it is still recent. */
  lemma ExpiryBoundary(row: ForecastRow, now: int)
    ensures row.cachedAt == now - 1800 ==> Expired(row, now) && !Recent(row, now)
    ensures row.cachedAt == now - 1799 ==> !Expired(row, now) && Recent(row, now)
    ensures Expired(row, now) <==> now - row.cachedAt >= 1800
  {
  }

  /** `WeatherForecast.recent`, in table order. */
  function RecentScope(rows: seq<ForecastRow>, now: int): (r: seq<ForecastRow>)
    ensures |r| <= |rows|
    ensures forall x :: x in r <==> x in rows && Recent(x, now)
  {
    if rows == [] then []
    else (if Recent(rows[0], now) then [rows[0]] else []) + RecentScope(rows[1..], now)
  }

  /** `WeatherForecast.expired`, in table order. */
  function ExpiredScope(rows: seq<ForecastRow>, now: int): (r: seq<ForecastRow>)
    ensures |r| <= |rows|
    ensures forall x :: x in r <==> x in rows && Expired(x, now)
  {
    if rows == [] then []
    else (if Expired(rows[0], now) then [rows[0]] else []) + ExpiredScope(rows[1..], now)
  }

  /** The two scopes split the table: every row is in exactly one of them. */
  lemma {:induction false} ScopesPartition(rows: seq<ForecastRow>, now: int)
    ensures multiset(RecentScope(rows, now)) + multiset(ExpiredScope(rows, now)) == multiset(rows)
    ensures |RecentScope(rows, now)| + |ExpiredScope(rows, now)| == |rows|
  {
    if rows != [] {
      ScopesPartition(rows[1..], now);
      assert rows == [rows[0]] + rows[1..];
    }
  }

  // ---------------------------------------------------------------------------
  // Validations

  /** The errors `valid?` collects, in declaration order. The temperatures and
      `cached_at` are always set by the upsert, so only `zip_code` and
      `description` can be blank; the uniqueness clause cannot fire, because
      the upsert creates a row only when no row has that zip code. */
  function ForecastErrors(zip: Option<string>, description: string): (errors: seq<string>)
    ensures errors == [] <==> Validation.PresentString(zip) && Validation.PresentString(Some(description))
    ensures !Validation.PresentString(zip) && Validation.PresentString(Some(description)) ==>
      errors == [Validation.BlankMessage("Zip code")]
    ensures Validation.PresentString(zip) && !Validation.PresentString(Some(description)) ==>
      errors == [Validation.BlankMessage("Description")]
    ensures !Validation.PresentString(zip) && !Validation.PresentString(Some(description)) ==>
      errors == [Validation.BlankMessage("Zip code"), Validation.BlankMessage("Description")]
  {
    Validation.Require(Validation.PresentString(zip), "Zip code")
      + Validation.Require(Validation.PresentString(Some(description)), "Description")
  }

  /** A row that passes its validations. */
  predicate ValidRow(row: ForecastRow) {
    ForecastErrors(Some(row.zipCode), row.description) == []
  }

  function Zips(rows: seq<ForecastRow>): (zs: seq<string>)
    ensures |zs| == |rows| && forall i :: 0 <= i < |rows| ==> zs[i] == rows[i].zipCode
  {
    seq(|rows|, i requires 0 <= i < |rows| => rows[i].zipCode)
  }

  /** The unique index on `zip_code`. */
  predicate UniqueZips(rows: seq<ForecastRow>) {
    forall i, j :: 0 <= i < j < |rows| ==> rows[i].zipCode != rows[j].zipCode
  }

  predicate TableValid(rows: seq<ForecastRow>) {
    UniqueZips(rows) && forall i :: 0 <= i < |rows| ==> ValidRow(rows[i])
  }

  // ---------------------------------------------------------------------------
  // find_or_create_by_zip_code

  /** `find_by(zip_code: zip)` as an index, |rows| when nothing is found; a nil
      zip code matches no row, since the column is NOT NULL. */
  function FindByZip(rows: seq<ForecastRow>, zip: Option<string>): (k: nat)
    ensures k <= |rows|
    ensures k < |rows| ==> zip.Some? && rows[k].zipCode == zip.value
    ensures k == |rows| <==> zip.None? || forall i :: 0 <= i < |rows| ==> rows[i].zipCode != zip.value
  {
    if zip.None? then |rows| else IndexOf(Zips(rows), zip.value)
  }

  /** The attributes `update!`/`create!` write from the weather data. */
  function Refreshed(zip: string, w: WeatherService.WeatherData, now: int): ForecastRow {
    ForecastRow(zip, w.temperature, w.highTemp, w.lowTemp, w.description, w.extendedForecast, now)
  }

  /** `find_or_create_by_zip_code(zip, weather_data)`: an expired row is updated
      in place, a missing one is created, a fresh one is returned untouched; a
      write that fails validation raises "Validation failed: ..." and writes
      nothing. */
  function FindOrCreateByZip(rows: seq<ForecastRow>, zip: Option<string>, w: WeatherService.WeatherData, now: int): (u: Upsert)
    // A fresh row is returned as it is and nothing changes.
    ensures FindByZip(rows, zip) < |rows| && !Expired(rows[FindByZip(rows, zip)], now) ==>
      u == Upsert(rows, Ok(rows[FindByZip(rows, zip)]))
    // An expired row is overwritten where it is, with cached_at = now.
    ensures FindByZip(rows, zip) < |rows| && Expired(rows[FindByZip(rows, zip)], now)
            && Validation.PresentString(zip) && Validation.PresentString(Some(w.description)) ==>
      && u.outcome == Ok(Refreshed(zip.value, w, now))
      && u.rows == rows[FindByZip(rows, zip) := Refreshed(zip.value, w, now)]
    // A missing row is appended.
    ensures FindByZip(rows, zip) == |rows| && Validation.PresentString(zip)
            && Validation.PresentString(Some(w.description)) ==>
      && u.outcome == Ok(Refreshed(zip.value, w, now))
      && u.rows == rows + [Refreshed(zip.value, w, now)]
    // A missing or expired row whose new attributes fail validation is refused
    // with the validation message, and nothing is written.
    ensures (FindByZip(rows, zip) == |rows| || Expired(rows[FindByZip(rows, zip)], now))
            && ForecastErrors(zip, w.description) != [] ==>
      u == Upsert(rows, Err(Validation.FailureMessage(ForecastErrors(zip, w.description))))
    // Any failure is a validation failure and leaves the table as it was.
    ensures u.outcome.Err? ==>
      && u.rows == rows
      && u.outcome.msg == Validation.FailureMessage(ForecastErrors(zip, w.description))
      && ForecastErrors(zip, w.description) != []
    // The count grows by one exactly when a row is created.
    ensures |u.rows| == |rows| + (if FindByZip(rows, zip) == |rows| && u.outcome.Ok? then 1 else 0)
    // The record returned is in the table, carries the zip code asked for, and is not expired.
    ensures u.outcome.Ok? ==>
      && zip.Some? && u.outcome.value.zipCode == zip.value
      && u.outcome.value in u.rows
      && !Expired(u.outcome.value, now)
  {
    var k := FindByZip(rows, zip);
    if k < |rows| && !Expired(rows[k], now) then
      Upsert(rows, Ok(rows[k]))
    else
      var errors := ForecastErrors(zip, w.description);
      if errors != [] then
        Upsert(rows, Err(Validation.FailureMessage(errors)))
      else
        var row := Refreshed(zip.value, w, now);
        if k < |rows| then
          assert rows[k := row][k] == row;
          Upsert(rows[k := row], Ok(row))
        else
          Upsert(rows + [row], Ok(row))
  }

  /** The upsert keeps zip codes unique and rows valid, and touches no row of
      another zip code. */
  lemma UpsertPreservesTable(rows: seq<ForecastRow>, zip: Option<string>, w: WeatherService.WeatherData, now: int)
    requires TableValid(rows)
    ensures TableValid(FindOrCreateByZip(rows, zip, w, now).rows)
    ensures forall i :: 0 <= i < |rows| && (zip.None? || rows[i].zipCode != zip.value) ==>
      FindOrCreateByZip(rows, zip, w, now).rows[i] == rows[i]
  {
    var u := FindOrCreateByZip(rows, zip, w, now);
    var k := FindByZip(rows, zip);
    if u.outcome.Ok? && u.rows != rows {
      var row := Refreshed(zip.value, w, now);
      assert ValidRow(row);
      if k < |rows| {
        assert u.rows == rows[k := row];
      } else {
        assert u.rows == rows + [row];
        assert forall i :: 0 <= i < |rows| ==> u.rows[i] == rows[i];
      }
    }
  }

  /** A second upsert of the same zip code, while the record the first one
      returned is still fresh, changes nothing and returns that record. */
  lemma UpsertIsStableWhileFresh(rows: seq<ForecastRow>, zip: Option<string>,
                                 w1: WeatherService.WeatherData, w2: WeatherService.WeatherData, now1: int, now2: int)
    requires TableValid(rows)
    requires FindOrCreateByZip(rows, zip, w1, now1).outcome.Ok?
    requires now2 < FindOrCreateByZip(rows, zip, w1, now1).outcome.value.cachedAt + FreshnessWindow
    ensures var u1 := FindOrCreateByZip(rows, zip, w1, now1);
      FindOrCreateByZip(u1.rows, zip, w2, now2) == Upsert(u1.rows, u1.outcome)
  {
    var u1 := FindOrCreateByZip(rows, zip, w1, now1);
    UpsertPreservesTable(rows, zip, w1, now1);
    var r := u1.outcome.value;
    var j :| 0 <= j < |u1.rows| && u1.rows[j] == r;
    assert FindByZip(u1.rows, zip) == j;
  }

  // ---------------------------------------------------------------------------
  // The table

  class ForecastTable {
    var rows: seq<ForecastRow>

    predicate Valid()
      reads this
    {
      TableValid(rows)
    }

    constructor ()
      ensures rows == [] && Valid()
    {
      rows := [];
    }

    /** `WeatherForecast.find_or_create_by_zip_code(zip, weather_data)`. */
    method FindOrCreateByZipCode(zip: Option<string>, w: WeatherService.WeatherData, now: int)
      returns (outcome: Result<ForecastRow>)
      modifies this
      ensures rows == FindOrCreateByZip(old(rows), zip, w, now).rows
      ensures outcome == FindOrCreateByZip(old(rows), zip, w, now).outcome
      ensures old(Valid()) ==> Valid()
    {
      if Valid() {
        UpsertPreservesTable(rows, zip, w, now);
      }
      var k := FindByZip(rows, zip);
      if k < |rows| && !Expired(rows[k], now) {
        outcome := Ok(rows[k]);
        return;
      }
      var errors := ForecastErrors(zip, w.description);
      if errors != [] {
        outcome := Err(Validation.FailureMessage(errors));
        return;
      }
      var row := Refreshed(zip.value, w, now);
      if k < |rows| {
        rows := rows[k := row];
      } else {
        rows := rows + [row];
      }
      outcome := Ok(row);
    }
  }
}
