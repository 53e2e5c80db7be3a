/** `WeatherController#forecast`: one request of the forecast pipeline as a
    state machine over three stores (the response cache, the address table and
    the forecast table). The two providers are parameters that either answer
    with a record or fail with a message; `now` is the one clock reading of the
    request. `HandleForecast` says what a request does; the method `Forecast`
    does it step by step on the three stores. */
module WeatherController {
  import opened Common
  import Text
  import Validation
  import GeocodingService
  import WeatherService
  import WeatherForecastModel
  import AddressModel
  import ResponseCache
  import opened CacheKeys

  /** The hash the controller builds on a miss, renders, and caches. */
  datatype Payload = Payload(
    location: string,
    currentTemp: int,
    highTemp: int,
    lowTemp: int,
    description: string,
    humidity: string,
    windSpeed: string,
    forecast: seq<WeatherService.DailyForecast>)

  /** The JSON rendered: `{success: true, weather: payload + {cached}}` or
      `{success: false, error}`. */
  datatype Response = Success(weather: Payload, cached: bool) | Failure(error: string)

  /** A call into one of the two providers, in the order made. */
  datatype ProviderCall = GeocodeCall(address: string) | WeatherCall(latitude: Option<Coord>, longitude: Option<Coord>)

  datatype Stores = Stores(
    cache: map<string, ResponseCache.Entry<Payload>>,
    addresses: seq<AddressModel.AddressRow>,
    forecasts: seq<WeatherForecastModel.ForecastRow>)

  datatype Outcome = Outcome(response: Response, calls: seq<ProviderCall>, stores: Stores)

  type Geocoder = string -> Result<GeocodingService.GeocodedData>
  type WeatherApi = (Option<Coord>, Option<Coord>) -> Result<WeatherService.WeatherData>

  const BlankAddressError := "Please enter an address"
  /** `30.minutes`, in seconds. */
  const CacheTtl := 1800
  const NotAvailable := "N/A"

  /** `address.blank?` for the `address` parameter, which may be missing. */
  predicate Blank(address: Option<string>) {
    address.None? || Text.IsBlank(address.value)
  }

  /** String interpolation of a value that may be nil. */
  function Interpolate(s: Option<string>): string {
    if s.Some? then s.value else ""
  }

  /** `x || default` for a value that may be nil. */
  function OrElse<T>(x: Option<T>, default: T): T {
    if x.Some? then x.value else default
  }

  /** The payload assembled from the fresh provider data. */
  function Assemble(g: GeocodingService.GeocodedData, w: WeatherService.WeatherData): Payload {
    Payload(Interpolate(g.city) + ", " + Interpolate(g.state),
            w.temperature, w.highTemp, w.lowTemp, w.description,
            OrElse(w.humidity, NotAvailable), OrElse(w.windSpeed, NotAvailable),
            OrElse(w.extendedForecast, []))
  }

  /** The miss path after the cache read, from geocoding to the cache write
      under `key`. */
  function HandleMiss(address: string, key: string, now: int, geocoder: Geocoder, weather: WeatherApi, s: Stores): Outcome {
    var geo := geocoder(address);
    if geo.Err? then Outcome(Failure(geo.msg), [GeocodeCall(address)], s)
    else
      var g := geo.value;
      var calls := [GeocodeCall(address), WeatherCall(g.latitude, g.longitude)];
      var w := weather(g.latitude, g.longitude);
      if w.Err? then Outcome(Failure(w.msg), calls, s)
      else
        var au := AddressModel.FindOrCreate(s.addresses, address, g);
        if au.outcome.Err? then Outcome(Failure(au.outcome.msg), calls, s)
        else
          var fu := WeatherForecastModel.FindOrCreateByZip(s.forecasts, g.zipCode, w.value, now);
          if fu.outcome.Err? then Outcome(Failure(fu.outcome.msg), calls, s.(addresses := au.rows))
          else
            var p := Assemble(g, w.value);
            Outcome(Success(p, false), calls,
                    Stores(ResponseCache.AfterWrite(s.cache, key, p, now, CacheTtl), au.rows, fu.rows))
  }

  /** What the miss path does, case by case: each step either fails, with its
      own message and the stores as the earlier steps left them, or hands on to
      the next; the last step renders and caches the fresh payload. */
  lemma HandleMissOutcome(address: string, key: string, now: int, geocoder: Geocoder, weather: WeatherApi, s: Stores)
    // A geocoding failure is rendered with its message, after the one call, and
    // writes nothing.
    ensures geocoder(address).Err? ==>
      HandleMiss(address, key, now, geocoder, weather, s) == Outcome(Failure(geocoder(address).msg), [GeocodeCall(address)], s)
    // Otherwise the weather provider is called next, with the geocoded coordinates.
    ensures geocoder(address).Ok? ==>
      var g := geocoder(address).value;
      HandleMiss(address, key, now, geocoder, weather, s).calls == [GeocodeCall(address), WeatherCall(g.latitude, g.longitude)]
    // A weather failure is rendered with its message and writes nothing.
    ensures geocoder(address).Ok? && weather(geocoder(address).value.latitude, geocoder(address).value.longitude).Err? ==>
      var o := HandleMiss(address, key, now, geocoder, weather, s);
      o.response == Failure(weather(geocoder(address).value.latitude, geocoder(address).value.longitude).msg) && o.stores == s
    // An address that is not stored and whose geocoded data fail validation is
    // refused with the validation message, and nothing is written.
    ensures geocoder(address).Ok? && weather(geocoder(address).value.latitude, geocoder(address).value.longitude).Ok? ==>
      var o := HandleMiss(address, key, now, geocoder, weather, s);
      var g := geocoder(address).value;
      AddressModel.FindOrCreate(s.addresses, address, g).outcome.Err? ==>
      && o.response == Failure(Validation.FailureMessage(AddressModel.AddressErrors(address, g)))
      && o.stores == s
    // A forecast upsert that fails validation is refused with its message; the
    // address row created just before stays, and nothing else is written.
    ensures geocoder(address).Ok? && weather(geocoder(address).value.latitude, geocoder(address).value.longitude).Ok? ==>
      var o := HandleMiss(address, key, now, geocoder, weather, s);
      var g := geocoder(address).value;
      var w := weather(g.latitude, g.longitude).value;
      var au := AddressModel.FindOrCreate(s.addresses, address, g);
      var fu := WeatherForecastModel.FindOrCreateByZip(s.forecasts, g.zipCode, w, now);
      au.outcome.Ok? && fu.outcome.Err? ==>
      && o.response == Failure(Validation.FailureMessage(WeatherForecastModel.ForecastErrors(g.zipCode, w.description)))
      && o.stores == s.(addresses := au.rows)
    // When every step succeeds, the fresh payload is rendered, not marked
    // cached, and written under the key for thirty minutes next to both upserts.
    ensures geocoder(address).Ok? && weather(geocoder(address).value.latitude, geocoder(address).value.longitude).Ok? ==>
      var o := HandleMiss(address, key, now, geocoder, weather, s);
      var g := geocoder(address).value;
      var w := weather(g.latitude, g.longitude).value;
      var au := AddressModel.FindOrCreate(s.addresses, address, g);
      var fu := WeatherForecastModel.FindOrCreateByZip(s.forecasts, g.zipCode, w, now);
      au.outcome.Ok? && fu.outcome.Ok? ==>
      && o.response == Success(Assemble(g, w), false)
      && o.stores == Stores(ResponseCache.AfterWrite(s.cache, key, Assemble(g, w), now, CacheTtl), au.rows, fu.rows)
    // Conversely, any failure leaves the cache and the forecast table as they
    // were, and a success is exactly the case above.
    ensures var o := HandleMiss(address, key, now, geocoder, weather, s);
      o.response.Failure? ==> o.stores.cache == s.cache && o.stores.forecasts == s.forecasts
    ensures var o := HandleMiss(address, key, now, geocoder, weather, s);
      o.response.Success? ==>
      && !o.response.cached
      && geocoder(address).Ok?
      && weather(geocoder(address).value.latitude, geocoder(address).value.longitude).Ok?
      && o.response.weather == Assemble(geocoder(address).value,
                                        weather(geocoder(address).value.latitude, geocoder(address).value.longitude).value)
      && o.stores.cache == ResponseCache.AfterWrite(s.cache, key, o.response.weather, now, CacheTtl)
      && o.stores.addresses == AddressModel.FindOrCreate(s.addresses, address, geocoder(address).value).rows
      && o.stores.forecasts == WeatherForecastModel.FindOrCreateByZip(
           s.forecasts, geocoder(address).value.zipCode,
           weather(geocoder(address).value.latitude, geocoder(address).value.longitude).value, now).rows
    ensures var o := HandleMiss(address, key, now, geocoder, weather, s);
      && |s.addresses| <= |o.stores.addresses| <= |s.addresses| + 1
      && |s.forecasts| <= |o.stores.forecasts| <= |s.forecasts| + 1
  {
    var geo := geocoder(address);
    if geo.Ok? {
      var g := geo.value;
      var w := weather(g.latitude, g.longitude);
      if w.Ok? {
        var au := AddressModel.FindOrCreate(s.addresses, address, g);
        if au.outcome.Ok? {
          var fu := WeatherForecastModel.FindOrCreateByZip(s.forecasts, g.zipCode, w.value, now);
        }
      }
    }
  }

  /** `forecast` for the `address` parameter at time `now`. */
  function HandleForecast(address: Option<string>, now: int, geocoder: Geocoder, weather: WeatherApi, s: Stores): Outcome {
    if Blank(address) then Outcome(Failure(BlankAddressError), [], s)
    else
      var key := CacheKey(address.value);
      var cached := ResponseCache.Lookup(s.cache, key, now);
      if cached.Some? then Outcome(Success(cached.value, true), [], s)
      else HandleMiss(address.value, key, now, geocoder, weather, s.(cache := ResponseCache.AfterRead(s.cache, key, now)))
  }

  /** What one request does. */
  lemma HandleForecastOutcome(address: Option<string>, now: int, geocoder: Geocoder, weather: WeatherApi, s: Stores)
    // A missing, empty or whitespace-only address is refused before anything else.
    ensures Blank(address) ==>
      HandleForecast(address, now, geocoder, weather, s) == Outcome(Failure(BlankAddressError), [], s)
    // A live cache entry is served as cached, with no provider call and no write.
    ensures !Blank(address) && ResponseCache.Lookup(s.cache, CacheKey(address.value), now).Some? ==>
      HandleForecast(address, now, geocoder, weather, s)
        == Outcome(Success(ResponseCache.Lookup(s.cache, CacheKey(address.value), now).value, true), [], s)
    // A miss reads the cache (dropping an expired entry) and then runs the miss path.
    ensures !Blank(address) && ResponseCache.Lookup(s.cache, CacheKey(address.value), now).None? ==>
      HandleForecast(address, now, geocoder, weather, s)
        == HandleMiss(address.value, CacheKey(address.value), now, geocoder, weather,
                      s.(cache := ResponseCache.AfterRead(s.cache, CacheKey(address.value), now)))
    // Provider calls happen only on a miss.
    ensures HandleForecast(address, now, geocoder, weather, s).calls != [] ==>
      !Blank(address) && ResponseCache.Lookup(s.cache, CacheKey(address.value), now).None?
    // No failure puts an entry into the cache.
    ensures var o := HandleForecast(address, now, geocoder, weather, s);
      o.response.Failure? ==> forall k :: k in o.stores.cache ==> k in s.cache && o.stores.cache[k] == s.cache[k]
  {
    if !Blank(address) {
      var key := CacheKey(address.value);
      if ResponseCache.Lookup(s.cache, key, now).None? {
        HandleMissOutcome(address.value, key, now, geocoder, weather, s.(cache := ResponseCache.AfterRead(s.cache, key, now)));
      }
    }
  }

  /** The invariants of the two tables. */
  predicate StoresValid(s: Stores) {
    AddressModel.UniqueAddresses(s.addresses) && WeatherForecastModel.TableValid(s.forecasts)
  }

  /** No request breaks the unique indexes or stores an invalid forecast row. */
  lemma HandleForecastPreservesStores(address: Option<string>, now: int, geocoder: Geocoder, weather: WeatherApi, s: Stores)
    requires StoresValid(s)
    ensures StoresValid(HandleForecast(address, now, geocoder, weather, s).stores)
  {
    HandleForecastOutcome(address, now, geocoder, weather, s);
    if !Blank(address) {
      var a := address.value;
      var key := CacheKey(a);
      if ResponseCache.Lookup(s.cache, key, now).None? {
        var s1 := s.(cache := ResponseCache.AfterRead(s.cache, key, now));
        HandleMissOutcome(a, key, now, geocoder, weather, s1);
        var geo := geocoder(a);
        if geo.Ok? {
          var g := geo.value;
          AddressModel.FindOrCreateKeepsUnique(s.addresses, a, g);
          var w := weather(g.latitude, g.longitude);
          if w.Ok? {
            WeatherForecastModel.UpsertPreservesTable(s.forecasts, g.zipCode, w.value, now);
          }
        }
      }
    }
  }

  // ---------------------------------------------------------------------------
  // Two requests in a row

  /** After a successful miss, a request within thirty minutes for an address
      with the same key is served from the cache, whatever the providers would
      say now, and changes nothing. */
  lemma RepeatWithinTtlIsHit(a1: Option<string>, a2: Option<string>, now1: int, now2: int,
                             geocoder: Geocoder, weather: WeatherApi, geocoder2: Geocoder, weather2: WeatherApi, s: Stores)
    requires HandleForecast(a1, now1, geocoder, weather, s).response.Success?
    requires !HandleForecast(a1, now1, geocoder, weather, s).response.cached
    requires a2.Some? && !Blank(a2) && CacheKey(a2.value) == CacheKey(a1.value)
    requires now2 < now1 + CacheTtl
    ensures var o1 := HandleForecast(a1, now1, geocoder, weather, s);
      HandleForecast(a2, now2, geocoder2, weather2, o1.stores)
        == Outcome(Success(o1.response.weather, true), [], o1.stores)
  {
    var o1 := HandleForecast(a1, now1, geocoder, weather, s);
    var key := CacheKey(a1.value);
    assert !Blank(a1);
    var s1 := s.(cache := ResponseCache.AfterRead(s.cache, key, now1));
    HandleForecastOutcome(a1, now1, geocoder, weather, s);
    HandleMissOutcome(a1.value, key, now1, geocoder, weather, s1);
    assert o1 == HandleMiss(a1.value, key, now1, geocoder, weather, s1);
    assert o1.stores.cache == ResponseCache.AfterWrite(s1.cache, key, o1.response.weather, now1, CacheTtl);
    ResponseCache.WrittenIsReadUntilExpiry(s1.cache, key, o1.response.weather, now1, CacheTtl, now2);
    assert ResponseCache.Lookup(o1.stores.cache, CacheKey(a2.value), now2) == Some(o1.response.weather);
    HandleForecastOutcome(a2, now2, geocoder2, weather2, o1.stores);
  }

  /** Thirty minutes after a successful miss the entry has expired: the next
      request for the same key geocodes again. */
  lemma RepeatAfterTtlIsMiss(a1: Option<string>, a2: Option<string>, now1: int, now2: int,
                             geocoder: Geocoder, weather: WeatherApi, geocoder2: Geocoder, weather2: WeatherApi, s: Stores)
    requires HandleForecast(a1, now1, geocoder, weather, s).response.Success?
    requires !HandleForecast(a1, now1, geocoder, weather, s).response.cached
    requires a2.Some? && !Blank(a2) && CacheKey(a2.value) == CacheKey(a1.value)
    requires now1 + CacheTtl <= now2
    ensures var o1 := HandleForecast(a1, now1, geocoder, weather, s);
      && |HandleForecast(a2, now2, geocoder2, weather2, o1.stores).calls| > 0
      && HandleForecast(a2, now2, geocoder2, weather2, o1.stores).calls[0] == GeocodeCall(a2.value)
  {
    var o1 := HandleForecast(a1, now1, geocoder, weather, s);
    var key := CacheKey(a1.value);
    assert !Blank(a1);
    var s1 := s.(cache := ResponseCache.AfterRead(s.cache, key, now1));
    HandleForecastOutcome(a1, now1, geocoder, weather, s);
    HandleMissOutcome(a1.value, key, now1, geocoder, weather, s1);
    assert o1 == HandleMiss(a1.value, key, now1, geocoder, weather, s1);
    assert o1.stores.cache == ResponseCache.AfterWrite(s1.cache, key, o1.response.weather, now1, CacheTtl);
    ResponseCache.WrittenIsReadUntilExpiry(s1.cache, key, o1.response.weather, now1, CacheTtl, now2);
    assert ResponseCache.Lookup(o1.stores.cache, CacheKey(a2.value), now2).None?;
    var s2 := o1.stores.(cache := ResponseCache.AfterRead(o1.stores.cache, key, now2));
    HandleForecastOutcome(a2, now2, geocoder2, weather2, o1.stores);
    HandleMissOutcome(a2.value, key, now2, geocoder2, weather2, s2);
    assert HandleForecast(a2, now2, geocoder2, weather2, o1.stores) == HandleMiss(a2.value, key, now2, geocoder2, weather2, s2);
  }

  // ---------------------------------------------------------------------------
  // With the production services

  /** The geocoder the application uses: the provider's answer for the raw
      address, through `geocode_address`. */
  function ProductionGeocoder(http: string -> GeocodingService.GeocodeResponse): Geocoder {
    a => GeocodingService.GeocodeAddress(a, http(a))
  }

  /** The weather provider the application uses: the two answers for the
      coordinates, through `get_forecast`. */
  function ProductionWeather(http: (Option<Coord>, Option<Coord>) -> (WeatherService.CurrentResponse, WeatherService.ForecastResponse)): WeatherApi {
    (lat, lng) => WeatherService.GetForecast(http(lat, lng).0, http(lat, lng).1)
  }

  /** `get_forecast` never sets humidity or wind speed, so a fresh response
      always shows "N/A" for both; its description is capitalized and its
      forecast is the parsed list. */
  lemma ProductionShowsNoHumidity(address: Option<string>, now: int,
                                  geoHttp: string -> GeocodingService.GeocodeResponse,
                                  weatherHttp: (Option<Coord>, Option<Coord>) -> (WeatherService.CurrentResponse, WeatherService.ForecastResponse),
                                  s: Stores)
    requires HandleForecast(address, now, ProductionGeocoder(geoHttp), ProductionWeather(weatherHttp), s).response.Success?
    requires !HandleForecast(address, now, ProductionGeocoder(geoHttp), ProductionWeather(weatherHttp), s).response.cached
    ensures var p := HandleForecast(address, now, ProductionGeocoder(geoHttp), ProductionWeather(weatherHttp), s).response.weather;
      && p.humidity == NotAvailable && p.windSpeed == NotAvailable
      && p.description == Text.Capitalize(p.description)
  {
    var geocoder, weather := ProductionGeocoder(geoHttp), ProductionWeather(weatherHttp);
    var o := HandleForecast(address, now, geocoder, weather, s);
    HandleForecastOutcome(address, now, geocoder, weather, s);
    var a := address.value;
    var key := CacheKey(a);
    var s1 := s.(cache := ResponseCache.AfterRead(s.cache, key, now));
    HandleMissOutcome(a, key, now, geocoder, weather, s1);
    var g := geocoder(a).value;
    var http := weatherHttp(g.latitude, g.longitude);
    var w := weather(g.latitude, g.longitude);
    assert w == WeatherService.GetForecast(http.0, http.1);
    assert o.response.weather == Assemble(g, w.value);
    Text.CapitalizeIdempotent(http.0.description.value);
  }

  /** A geocoding failure in production is rendered as "Unable to geocode
      address: " followed by the address typed. */
  lemma ProductionGeocodingFailure(address: Option<string>, now: int,
                                   geoHttp: string -> GeocodingService.GeocodeResponse,
                                   weatherHttp: (Option<Coord>, Option<Coord>) -> (WeatherService.CurrentResponse, WeatherService.ForecastResponse),
                                   s: Stores)
    requires !Blank(address) && ResponseCache.Lookup(s.cache, CacheKey(address.value), now).None?
    requires !GeocodingService.Geocodable(geoHttp(address.value))
    ensures HandleForecast(address, now, ProductionGeocoder(geoHttp), ProductionWeather(weatherHttp), s).response
      == Failure(GeocodingService.FailurePrefix + address.value)
  {
    assert ProductionGeocoder(geoHttp)(address.value).Err?;
  }

  // ---------------------------------------------------------------------------
  // The pipeline, step by step

  /** The miss path of `forecast`, from geocoding to the cache write. */
  method Miss(address: string, key: string, now: int, geocoder: Geocoder, weather: WeatherApi,
              cache: ResponseCache.Store<Payload>, addresses: AddressModel.AddressTable,
              forecasts: WeatherForecastModel.ForecastTable)
    returns (response: Response, calls: seq<ProviderCall>)
    modifies cache, addresses, forecasts
    ensures HandleMiss(address, key, now, geocoder, weather, old(Stores(cache.entries, addresses.rows, forecasts.rows)))
         == Outcome(response, calls, Stores(cache.entries, addresses.rows, forecasts.rows))
    ensures old(addresses.Valid()) ==> addresses.Valid()
    ensures old(forecasts.Valid()) ==> forecasts.Valid()
  {
    calls := [GeocodeCall(address)];
    var geo := geocoder(address);
    if geo.Err? {
      response := Failure(geo.msg);
      return;
    }
    var g := geo.value;
    calls := calls + [WeatherCall(g.latitude, g.longitude)];
    var w := weather(g.latitude, g.longitude);
    if w.Err? {
      response := Failure(w.msg);
      return;
    }
    var addressRecord := addresses.FindOrCreateFromAddress(address, g);
    if addressRecord.Err? {
      response := Failure(addressRecord.msg);
      return;
    }
    var forecastRecord := forecasts.FindOrCreateByZipCode(g.zipCode, w.value, now);
    if forecastRecord.Err? {
      response := Failure(forecastRecord.msg);
      return;
    }
    var payload := Assemble(g, w.value);
    cache.Write(key, payload, now, CacheTtl);
    response := Success(payload, false);
  }

  /** `WeatherController#forecast`. */
  method Forecast(address: Option<string>, now: int, geocoder: Geocoder, weather: WeatherApi,
                  cache: ResponseCache.Store<Payload>, addresses: AddressModel.AddressTable,
                  forecasts: WeatherForecastModel.ForecastTable)
    returns (response: Response, calls: seq<ProviderCall>)
    modifies cache, addresses, forecasts
    ensures var o := HandleForecast(address, now, geocoder, weather,
                                    old(Stores(cache.entries, addresses.rows, forecasts.rows)));
      && response == o.response && calls == o.calls
      && cache.entries == o.stores.cache
      && addresses.rows == o.stores.addresses
      && forecasts.rows == o.stores.forecasts
    ensures old(addresses.Valid()) ==> addresses.Valid()
    ensures old(forecasts.Valid()) ==> forecasts.Valid()
  {
    calls := [];
    if Blank(address) {
      response := Failure(BlankAddressError);
      return;
    }
    var raw := address.value;
    var key := CacheKey(raw);
    var cached := cache.Read(key, now);
    if cached.Some? {
      response := Success(cached.value, true);
      return;
    }
    response, calls := Miss(raw, key, now, geocoder, weather, cache, addresses, forecasts);
  }
}
