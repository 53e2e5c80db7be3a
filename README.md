# weatherapp forecast pipeline, modelled in Dafny

This project models the request path of the Rails weather application. A user types a free-form address. `WeatherController#forecast` then does these steps:

- It refuses a blank address.
- It derives a cache key from the address: strip, downcase, `parameterize`, and the prefix `weather_forecast_`.
- It serves a live response-cache entry as `cached: true`.
- On a miss, it geocodes the raw address (`GeocodingService#geocode_address`) and fetches current weather and a 5-day forecast (`WeatherService#get_forecast`).
- It upserts two tables: `Address.find_or_create_from_address` keyed by the exact address string, and `WeatherForecast.find_or_create_by_zip_code` keyed by postal code, with a thirty-minute freshness window.
- It assembles the payload, caches it for thirty minutes, and renders it.
- Any error becomes `{success: false, error: message}`.

Module layout, one file each:

- `Common`: `Option`, `Result`, coordinates as integers, and a generic first-index function.
- `Text`, `Inflector`, `Validation`: the Ruby and Rails string behaviour the pipeline relies on, on ASCII. That is `blank?`, `strip`, `downcase`, `capitalize`, `parameterize`, and the presence-validation messages.
- `GeocodingService`, `WeatherService`, `WeatherForecastModel`, `AddressModel`: the four core classes other than the controller.
- `ResponseCache`: `Rails.cache` as the controller uses it. It is a map from key to entry with an expiry time, and a class `Store` whose `Read` and `Write` change that map.
- `CacheKeys`: the cache key. `CacheKeyExample`, in the same file, evaluates the key of one concrete address.
- `WeatherController`:
  - `HandleForecast` computes what one request does to the three stores: the cache, the address table and the forecast table. `HandleMiss` covers the miss path, with the key computed once.
  - The lemmas `HandleForecastOutcome` and `HandleMissOutcome` state what those two functions promise.
  - The methods `Forecast` and `Miss` do the same step by step on a `Store`, an `AddressTable` and a `ForecastTable`.
  - The two providers are function parameters (`Geocoder`, `WeatherApi`). `ProductionGeocoder` and `ProductionWeather` plug the two service models in behind an HTTP answer given as a parameter.

The two tables are classes whose `rows` field each upsert reassigns. Each table method is proved equal to a function (`FindOrCreateByZip`, `FindOrCreate`). The properties that matter are proved about those functions:

- the freshness window;
- updating an expired row in place;
- keeping postal codes and addresses unique;
- idempotence.

Where the code and its tests disagree, the model follows the code:

- `spec/services/weather_service_spec.rb:62-75` expects the first forecast day to have high 82. The code groups samples by date, and the two samples in that test fall on different dates, so the first day's high and low are both 75. `WeatherService.TwoDayListExample` proves what the code gives.
- `spec/services/weather_service_spec.rb:106` expects the message "Weather API call failed". The code re-raises every failure as "Unable to fetch weather data" (`WeatherService.GetForecast`).
- `spec/services/geocoding_service_spec.rb:77` and `:94` expect "Geocoding failed" and "No results found". The code re-raises every failure as "Unable to geocode address: " followed by the address (`GeocodingService.GeocodeAddress`).

`get_forecast` never returns `humidity` or `wind_speed`. So with the real services, a freshly assembled payload always shows "N/A" for both (`WeatherController.ProductionShowsNoHumidity`).

## Model

| member | source | states |
|---|---|---|
| WeatherController.Blank | app/controllers/weather_controller.rb:9 | `address.blank?` for the parameter: it is missing, or empty or made only of white space. |
| WeatherController.HandleForecast | app/controllers/weather_controller.rb:6-63 | The outcome of one request: the refusal of a blank address, the cache read, and then a hit or the miss path. Its properties are the ones `HandleForecastOutcome` states. |
| WeatherController.HandleForecastOutcome | app/controllers/weather_controller.rb:6-63 | A blank or missing address fails with "Please enter an address", with no provider call and no store change. A live entry under the key is served with `cached` true, with no call and no change. A miss drops an expired entry and runs the miss path. Providers are called only on a miss. No failure adds a cache entry. |
| WeatherController.Assemble | app/controllers/weather_controller.rb:37-46 | The payload: location "city, state" with nil shown as empty text, the current weather fields, "N/A" for a missing humidity or wind speed, and an empty forecast for a missing one. |
| WeatherController.HandleMiss | app/controllers/weather_controller.rb:24-51 | The miss path: geocode, fetch the weather, upsert the address, upsert the forecast, then assemble, cache and render. Any raise stops the path there. Its properties are the ones `HandleMissOutcome` states. |
| WeatherController.HandleMissOutcome | app/controllers/weather_controller.rb:24-61 | Each case of the miss path. A geocoding failure is rendered with its message after one call and writes nothing. Once geocoding succeeds, the weather provider is always called next, with the geocoded coordinates. A weather failure is rendered with its message and writes nothing. A refused address upsert is rendered as "Validation failed: " and its errors, and writes nothing. A refused forecast upsert is rendered the same way with the forecast's errors, and the address row created before it stays. When every step succeeds, the response is `Assemble` of the fresh data, not marked cached, and it is written under the key for 1800 s next to both upserts. Conversely, a failure never changes the cache or the forecast table, and a success happens only in that last case. Each table grows by at most one row. |
| WeatherController.Forecast | app/controllers/weather_controller.rb:6-63 | The imperative pipeline over the three stores returns the response and calls of `HandleForecast`, leaves exactly its stores, and keeps both table invariants. |
| WeatherController.Miss | app/controllers/weather_controller.rb:24-51 | The imperative miss path returns the response and calls of `HandleMiss` and leaves exactly its stores, while keeping both table invariants. |
| WeatherController.HandleForecastPreservesStores | app/controllers/weather_controller.rb:33-34 | No request breaks address uniqueness, postal-code uniqueness or forecast-row validity. |
| WeatherController.RepeatWithinTtlIsHit | app/controllers/weather_controller.rb:18-49 | After a successful miss, a request with the same key less than thirty minutes later is a hit with the same payload, whatever the providers would say, and changes nothing. |
| WeatherController.RepeatAfterTtlIsMiss | app/controllers/weather_controller.rb:18-49 | Thirty minutes or more after a successful miss, the next request with the same key geocodes again. |
| WeatherController.ProductionShowsNoHumidity | app/controllers/weather_controller.rb:43-44 | With the real weather service, a fresh payload has humidity and wind speed "N/A" and a capitalized description. |
| WeatherController.ProductionGeocodingFailure | app/controllers/weather_controller.rb:58-61 | With the real geocoder, an address the provider cannot resolve is rendered as "Unable to geocode address: " followed by the raw address. |
| CacheKeys.CacheKey | app/controllers/weather_controller.rb:15-16 | The key: the prefix and the `parameterize` of the stripped, lower-cased address. Its shape is what `CacheKeyShape` states. |
| CacheKeys.CacheKeyShape | app/controllers/weather_controller.rb:15-16 | The key is "weather_forecast_" followed by a slug: lower-case letters, digits, "-" and "_" only, no "--", and no "-" at either end. |
| CacheKeys.CacheKeyIgnoresCaseAndOuterSpace | app/controllers/weather_controller.rb:14-16 | Addresses that differ only in letter case, or in white space around them, share one key. |
| CacheKeys.CacheKeyOfSlug | app/controllers/weather_controller.rb:15-16 | An address typed as the slug part of a key gets that same key, so it shares the cache entry of the address that produced it. |
| CacheKeys.SlugIsStrippedLower | app/controllers/weather_controller.rb:15-16 | A slug is unchanged by `strip` and by `downcase`. |
| CacheKeyExample.CacheKeyExample | app/controllers/weather_controller.rb:15-16 | "123 Main St, New York, NY" has key "weather_forecast_123-main-st-new-york-ny". |
| Inflector.Parameterize | app/controllers/weather_controller.rb:16 | `parameterize` always yields a slug. |
| Inflector.SlugIsFixedPoint | app/controllers/weather_controller.rb:16 | `parameterize` leaves a slug unchanged. |
| Inflector.ParameterizeIdempotent | app/controllers/weather_controller.rb:16 | `parameterize` applied twice equals applying it once. |
| Inflector.ParameterizeKeepsWords | app/controllers/weather_controller.rb:16 | The letters, digits and underscores of the slug are exactly those of the input, in order and lower-cased. |
| Inflector.ParameterizeJoinsWords | app/controllers/weather_controller.rb:16 | Two non-empty words of letters, digits and underscores, separated by any non-empty run of characters outside letters, digits, "-" and "_", become the two words lower-cased, joined by a single "-". |
| Text.IsBlank | app/controllers/weather_controller.rb:9 | `blank?` on a string: every character is white space, so the empty string is blank. |
| Text.Strip | app/controllers/weather_controller.rb:15 | The result is the contiguous part of the input that begins right after its leading run of white space and NUL (`LeadingStripped`). Only such characters follow it, and it does not itself start or end with one. It is empty exactly when the input is made only of those characters. |
| Text.Downcase | app/controllers/weather_controller.rb:15 | The result has the input's length, and each character is the input's character with A-Z lowered. |
| Text.Capitalize | app/services/weather_service.rb:39 | The result has the input's length. Its first character is the input's first character upper-cased, and every later character is the input's character at that place lower-cased. |
| Text.LeadingStripped | app/controllers/weather_controller.rb:15 | The count of leading characters `strip` removes: all of them are white space or NUL, and the character after them, if any, is not. |
| Text.TrimStartDropsLeading | app/controllers/weather_controller.rb:15 | The left half of `strip` drops exactly that leading run. |
| Text.DowncaseStrip | app/controllers/weather_controller.rb:15 | `strip` and `downcase` commute. |
| Text.StripIgnoresOuterSpace | app/controllers/weather_controller.rb:15 | White space and NUL added around a string do not change its `strip`. |
| Text.DowncaseIdempotent | app/controllers/weather_controller.rb:15 | `downcase` applied twice equals applying it once. |
| Text.CapitalizeIdempotent | app/services/weather_service.rb:39 | `capitalize` applied twice equals applying it once. |
| ResponseCache.Lookup | app/controllers/weather_controller.rb:18-20 | A read hits exactly when the key has an entry whose expiry is still ahead, and then yields that entry's value. |
| ResponseCache.AfterRead | app/controllers/weather_controller.rb:18 | A read removes only an expired entry under its key. Every other entry stays. The key remains exactly when the read hits. |
| ResponseCache.AfterWrite | app/controllers/weather_controller.rb:49 | A write stores the value under the key, expiring at now + ttl, and leaves every other key as it was. |
| ResponseCache.WrittenIsReadUntilExpiry | app/controllers/weather_controller.rb:18-49 | A written value is read back strictly before now + ttl, and not from then on. |
| ResponseCache.ReadIsIdempotent | app/controllers/weather_controller.rb:18 | A read changes nothing that a second read at the same time would see. |
| ResponseCache.Store.Read | app/controllers/weather_controller.rb:18 | The imperative read returns `Lookup` and leaves `AfterRead`. |
| ResponseCache.Store.Write | app/controllers/weather_controller.rb:49 | The imperative write leaves `AfterWrite`. |
| WeatherForecastModel.ExpiryBoundary | app/models/weather_forecast.rb:12-14 | A row cached exactly 1800 s ago is expired and not recent. One cached 1799 s ago is recent and not expired. Expired means at least 1800 s old. |
| WeatherForecastModel.RecentScope | app/models/weather_forecast.rb:9 | `recent` holds exactly the rows with `cached_at > now - 1800`. |
| WeatherForecastModel.ExpiredScope | app/models/weather_forecast.rb:10 | `expired` holds exactly the rows with `cached_at <= now - 1800`. |
| WeatherForecastModel.ScopesPartition | app/models/weather_forecast.rb:9-10 | The two scopes are a partition of the table as a multiset. |
| WeatherForecastModel.ForecastErrors | app/models/weather_forecast.rb:2-7 | There are no errors exactly when zip code and description are present. Otherwise the list is exactly "Zip code can't be blank", "Description can't be blank", or both in that order, according to which attributes are missing. |
| WeatherForecastModel.FindByZip | app/models/weather_forecast.rb:17 | Gives the index of the first row with that zip code, or the table size when there is none. A nil zip matches nothing. |
| WeatherForecastModel.FindOrCreateByZip | app/models/weather_forecast.rb:16-41 | A fresh row is returned and nothing changes. An expired row is overwritten in place with the new data and `cached_at` now. A missing row is appended. For a missing or expired row, a blank zip code or description is refused with "Validation failed: " and the errors, and nothing is written. A failure happens only in that case. The table grows only on creation. The record returned has the zip asked for, is in the table, and is not expired. |
| WeatherForecastModel.UpsertPreservesTable | app/models/weather_forecast.rb:2-41 | The upsert keeps zip codes unique and every row valid, and does not touch rows of other zip codes. |
| WeatherForecastModel.UpsertIsStableWhileFresh | app/models/weather_forecast.rb:16-41 | A second upsert of the same zip, while the first one's record is still fresh, changes nothing and returns that record. |
| WeatherForecastModel.ForecastTable.FindOrCreateByZipCode | app/models/weather_forecast.rb:16-41 | The imperative upsert leaves the rows and returns the outcome of `FindOrCreateByZip`, and keeps the table valid. |
| AddressModel.AddressErrors | app/models/address.rb:2-7 | There are no errors exactly when the address, zip code, both coordinates, city and state are present, and there are at most six. |
| AddressModel.AddressErrorsInOrder | app/models/address.rb:2-7 | The errors are one blank message per missing attribute, in the declaration order full address, zip code, latitude, longitude, city, state. |
| AddressModel.FindOrCreate | app/models/address.rb:11-26 | An existing row with the exact same string is returned unchanged, whatever the geocoded data. For an address not stored, valid geocoded data append the row built from them. Invalid data are refused with "Validation failed: " and the errors, and nothing is written. A failure happens only in that case. Earlier rows never change. |
| AddressModel.FindOrCreateKeepsUnique | app/models/address.rb:2 | The operation keeps `full_address` unique. |
| AddressModel.DistinctSpellingsAreDistinctRows | app/models/address.rb:12 | Under exact comparison of the lookup, two different strings give two different rows. |
| AddressModel.FindOrCreateIdempotent | app/models/address.rb:11-26 | Asking again for a stored address, with any geocoded data, returns the same row and writes nothing. |
| AddressModel.AddressTable.FindOrCreateFromAddress | app/models/address.rb:11-26 | The imperative operation leaves the rows and returns the outcome of `FindOrCreate`, and keeps addresses unique. |
| WeatherService.AddSample | app/services/weather_service.rb:54-56 | One step of `group_by`: the sample joins the group of its date, or opens a new last group. No group becomes empty. |
| WeatherService.GroupByDate | app/services/weather_service.rb:54-56 | `group_by` over the list. No group is empty. The full grouping property is what `GroupByDateCorrect` states. |
| WeatherService.GroupByDateCorrect | app/services/weather_service.rb:54-56 | Groups are keyed by date in order of first appearance. Each group's first member is the first sample of its date. Every sample lies in its date's group and every member is a sample of that date. |
| WeatherService.GroupDatesAreSampleDates | app/services/weather_service.rb:54-56 | The groups' dates are exactly the dates of the input. |
| WeatherService.MaxTemp | app/services/weather_service.rb:64 | The maximum is at least every temperature and is attained. |
| WeatherService.MinTemp | app/services/weather_service.rb:65 | The minimum is at most every temperature and is attained. |
| WeatherService.Summarize | app/services/weather_service.rb:58-67 | A group's day: its date, the highest and lowest temperature, and the capitalized description and the icon of its first sample. `ForecastTemperatures` and `ForecastFirstSample` state it against the input. |
| WeatherService.ParseExtendedForecast | app/services/weather_service.rb:52-70 | There are at most five days: the first five groups, summarized in order. An empty list gives no days, and only an empty list does. |
| WeatherService.ForecastDatesInOrder | app/services/weather_service.rb:54-58 | Every day's date occurs in the input, and days come in order of their dates' first appearance, so no date repeats. |
| WeatherService.ForecastTemperatures | app/services/weather_service.rb:59-65 | A day's high and low bound every temperature of that date's samples, and each is attained by one of them. |
| WeatherService.ForecastFirstSample | app/services/weather_service.rb:60-67 | A day's description, capitalized, and its icon come from the first sample of that date. |
| WeatherService.ForecastKeepsFirstDates | app/services/weather_service.rb:69 | Every input date has its day, unless five days of earlier-appearing dates are already shown. |
| WeatherService.TwoDayListExample | app/services/weather_service.rb:52-70 | Samples 75 on one date and 82 on the next give two days. The first day has high and low 75, "Sunny" and "01d". |
| WeatherService.GetForecast | app/services/weather_service.rb:10-48 | It succeeds exactly when both responses succeeded and every field read is there. The temperatures come from `main` and the description is capitalized. Every failure is "Unable to fetch weather data". |
| GeocodingService.FirstWithType | app/services/geocoding_service.rb:41 | `find` gives the first component carrying the tag, or the list size when none does. |
| GeocodingService.ExtractByType | app/services/geocoding_service.rb:40-53 | The result is nil exactly when no component carries the tag. Otherwise it is the long name of a component carrying it. |
| GeocodingService.ExtractZipCode | app/services/geocoding_service.rb:40-43 | nil exactly when no component is tagged "postal_code". Otherwise, the long name of the first one that is. |
| GeocodingService.ExtractCity | app/services/geocoding_service.rb:45-48 | nil exactly when no component is tagged "locality". Otherwise, the long name of the first one that is. |
| GeocodingService.ExtractState | app/services/geocoding_service.rb:50-53 | nil exactly when no component is tagged "administrative_area_level_1". Otherwise, the long name of the first one that is. |
| GeocodingService.ExtractFirstMatch | app/services/geocoding_service.rb:40-53 | When several components carry the tag, the first one's long name is returned. |
| GeocodingService.ExtractIgnoresUntaggedPrefix | app/services/geocoding_service.rb:40-53 | Components without the tag placed in front do not change the result. |
| GeocodingService.GeocodeAddress | app/services/geocoding_service.rb:10-36 | It succeeds exactly when the transport succeeded, status is "OK", and the first result has a location and components. The coordinates and the postal code, city and state then come from that first result. Every failure is "Unable to geocode address: " followed by the address. |
| GeocodingService.ExampleResponse | app/services/geocoding_service.rb:10-36 | A one-result answer with one component per tag yields its coordinates, "10001", "New York" and "New York". |
| Validation.Require | app/models/weather_forecast.rb:2-7 | A presence validation adds no error exactly when the attribute is present, and otherwise exactly the one message "<Attribute> can't be blank". |
| Validation.Missing | app/models/address.rb:2-7 | A list of presence validations yields no error exactly when every attribute is present, and never more errors than validations. |
| Validation.MissingSix | app/models/address.rb:2-7 | The errors of six validations are the messages of each validation in turn, concatenated in declaration order. |

## Left out

- The HTTP requests, API keys from the environment, the logger and the backtrace lines. Provider answers are inputs, a failure is a message, and what is logged is not modelled.
- `index` and `show`, and the routes. They render views and have no logic beyond a record lookup.
- Clocks. Each request takes one `now` in seconds. The cache expiry and `Time.current` use that same reading, and `30.minutes.ago` is `now - 1800`.
- Concurrency. Requests are sequential, so the uniqueness validations, checked after a `find_by` that found nothing, can never fire. Their message is not modelled.
- Floating point. Temperatures and coordinates are integers (coordinates in 10^-8 degrees), so `.round` is the identity.
- Dates. Forecast dates are integer keys standing for `Date.parse(dt_txt)`, so `strftime('%A, %B %d')` is not modelled. The key identifies the date.
- Unicode. `blank?`, `strip`, `downcase`, `capitalize` and `parameterize` are modelled on ASCII. Transliteration of other characters by `parameterize` and Unicode case mapping are not modelled.
- Database collation. `db/schema.rb` declares both tables with the collation `utf8mb4_0900_ai_ci`, which ignores case and accents. In the deployed database, `find_by(full_address: "10 main st")` therefore finds the row stored as "10 Main St", and `find_by(zip_code:)` compares the same way. The model deliberately compares strings exactly, as a binary collation does. So for addresses differing only in case or accents, it creates a second row where the deployed database returns the first one (`AddressModel.DistinctSpellingsAreDistinctRows` holds only under that choice).
- Column limits. The string columns are `varchar(255)`. A longer address, description or zip code fails on insert in the database, and the controller renders that failure. The model has no length limit and stores the row.
- Database errors other than validation. An insert or update that fails for another reason, such as a lost connection, is not modelled.
- WeatherService.ParseExtendedForecast: every forecast sample carries its date, temperature, description and icon. The source reads these differently, and the model cannot represent a sample that lacks one:
  - A missing `dt_txt` or `main.temp` on any sample makes `get_forecast` fail.
  - The description and icon are read only from the first sample of each date (`weather_service.rb:60`). There, a missing `weather` list or description makes `get_forecast` fail, while a missing icon gives a nil icon. On a later sample of the same date, missing weather fields have no effect.
  - The source summarizes every date before it keeps the first five, so a failing date after the fifth still makes `get_forecast` fail.
- GeocodingService.Component: every address component has a long name and a list of types. In the source, a first matching component without `long_name` gives nil through `&.dig` (`geocoding_service.rb:40-53`). A component without `types`, reached before a match, raises, and that is re-raised as "Unable to geocode address: " followed by the address. Neither input is representable in the model.
- WeatherForecastModel.ForecastErrors: the presence validations of the temperatures and `cached_at` are omitted, because the upsert always supplies them from a successful `get_forecast` and the clock.
- Cache store internals. Serialisation and the copy on read and write are not modelled. The `cached` flag is set on the rendered response only and is never stored, which is what the copy-on-write store gives.
- The in-memory object identity of records. A record is its row value.
