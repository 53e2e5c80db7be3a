/** `GeocodingService`: turns the geocoding provider's answer for one address
    into coordinates, postal code, city and state, or raises. The HTTP request
    itself is not part of this model; its answer is the `GeocodeResponse` input. */
module GeocodingService {
  import opened Common

  /** One entry of `address_components`. */
  datatype Component = Component(longName: string, types: seq<string>)

  /** `geometry.location` of a result; either coordinate may be missing. */
  datatype Location = Location(lat: Option<Coord>, lng: Option<Coord>)

  /** One entry of `results`: `location` is None when `geometry` or its
      `location` is missing, `components` is None when `address_components` is. */
  datatype GeoResult = GeoResult(location: Option<Location>, components: Option<seq<Component>>)

  /** What the HTTP call returned: whether the transport succeeded (`success?`),
      the `status` field, and the `results` list (a missing list is empty). */
  datatype GeocodeResponse = GeocodeResponse(transportOk: bool, status: string, results: seq<GeoResult>)

  /** The hash `geocode_address` returns; a field is None where Ruby gives nil. */
  datatype GeocodedData = GeocodedData(
    latitude: Option<Coord>,
    longitude: Option<Coord>,
    zipCode: Option<string>,
    city: Option<string>,
    state: Option<string>)

  const StatusOk := "OK"
  const PostalCodeType := "postal_code"
  const LocalityType := "locality"
  const StateType := "administrative_area_level_1"
  const FailurePrefix := "Unable to geocode address: "

  /** Whether each component carries `tag`, in order. */
  function Tagged(cs: seq<Component>, tag: string): (ts: seq<bool>)
    ensures |ts| == |cs| && forall i :: 0 <= i < |cs| ==> ts[i] == (tag in cs[i].types)
  {
    seq(|cs|, i requires 0 <= i < |cs| => tag in cs[i].types)
  }

  /** `components.find { |c| c['types'].include?(tag) }` as an index: the first
      component carrying `tag`, or |cs| when there is none. */
  function FirstWithType(cs: seq<Component>, tag: string): (k: nat)
    ensures k <= |cs|
    ensures k < |cs| ==> tag in cs[k].types
    ensures forall j :: 0 <= j < k ==> tag !in cs[j].types
    ensures k == |cs| <==> forall j :: 0 <= j < |cs| ==> tag !in cs[j].types
  {
    IndexOf(Tagged(cs, tag), true)
  }

  /** `find` followed by `&.dig('long_name')`. */
  function ExtractByType(cs: seq<Component>, tag: string): (r: Option<string>)
    ensures r.None? <==> forall j :: 0 <= j < |cs| ==> tag !in cs[j].types
    ensures r.Some? ==> exists k :: 0 <= k < |cs| && tag in cs[k].types && r.value == cs[k].longName
  {
    var k := FirstWithType(cs, tag);
    if k < |cs| then Some(cs[k].longName) else None
  }

  /** `extract_zip_code`: the long name of the first component tagged "postal_code", or nil. */
  function ExtractZipCode(cs: seq<Component>): (r: Option<string>)
    ensures r.None? <==> forall j :: 0 <= j < |cs| ==> PostalCodeType !in cs[j].types
    ensures r.Some? ==> FirstWithType(cs, PostalCodeType) < |cs| && r.value == cs[FirstWithType(cs, PostalCodeType)].longName
  {
    ExtractByType(cs, PostalCodeType)
  }

  /** `extract_city`: the long name of the first component tagged "locality", or nil. */
  function ExtractCity(cs: seq<Component>): (r: Option<string>)
    ensures r.None? <==> forall j :: 0 <= j < |cs| ==> LocalityType !in cs[j].types
    ensures r.Some? ==> FirstWithType(cs, LocalityType) < |cs| && r.value == cs[FirstWithType(cs, LocalityType)].longName
  {
    ExtractByType(cs, LocalityType)
  }

  /** `extract_state`: the long name of the first component tagged
      "administrative_area_level_1", or nil. */
  function ExtractState(cs: seq<Component>): (r: Option<string>)
    ensures r.None? <==> forall j :: 0 <= j < |cs| ==> StateType !in cs[j].types
    ensures r.Some? ==> FirstWithType(cs, StateType) < |cs| && r.value == cs[FirstWithType(cs, StateType)].longName
  {
    ExtractByType(cs, StateType)
  }

  /** The condition under which `geocode_address` returns instead of raising:
      transport success, status exactly "OK", and a first result whose geometry
      location and address components can be read. */
  predicate Geocodable(resp: GeocodeResponse) {
    && resp.transportOk
    && resp.status == StatusOk
    && |resp.results| > 0
    && resp.results[0].location.Some?
    && resp.results[0].components.Some?
  }

  /** `geocode_address(address)`: every failure, whatever raised it, is re-raised
      as "Unable to geocode address: " followed by the raw address. */
  function GeocodeAddress(address: string, resp: GeocodeResponse): (r: Result<GeocodedData>)
    ensures r.Ok? <==> Geocodable(resp)
    ensures r.Err? ==> r.msg == FailurePrefix + address
    ensures r.Ok? ==>
      && r.value.latitude == resp.results[0].location.value.lat
      && r.value.longitude == resp.results[0].location.value.lng
      && r.value.zipCode == ExtractZipCode(resp.results[0].components.value)
      && r.value.city == ExtractCity(resp.results[0].components.value)
      && r.value.state == ExtractState(resp.results[0].components.value)
  {
    if Geocodable(resp) then
      var first := resp.results[0];
      var cs := first.components.value;
      Ok(GeocodedData(first.location.value.lat, first.location.value.lng,
                      ExtractZipCode(cs), ExtractCity(cs), ExtractState(cs)))
    else
      Err(FailurePrefix + address)
  }

  /** Each extractor yields the long name of the FIRST component carrying its tag. */
  lemma ExtractFirstMatch(cs: seq<Component>, tag: string, k: nat)
    requires k < |cs| && tag in cs[k].types
    requires forall j :: 0 <= j < k ==> tag !in cs[j].types
    ensures ExtractByType(cs, tag) == Some(cs[k].longName)
  {
  }

  /** Components that do not carry the tag have no effect, wherever they are put in front. */
  lemma ExtractIgnoresUntaggedPrefix(pre: seq<Component>, cs: seq<Component>, tag: string)
    requires forall j :: 0 <= j < |pre| ==> tag !in pre[j].types
    ensures ExtractByType(pre + cs, tag) == ExtractByType(cs, tag)
  {
    var k := FirstWithType(cs, tag);
    var all := pre + cs;
    assert forall j :: 0 <= j < |cs| ==> all[|pre| + j] == cs[j];
    if k < |cs| {
      ExtractFirstMatch(all, tag, |pre| + k);
    }
  }

  /** The answer of the provider in the controller test: three components, one per tag. */
  lemma ExampleResponse()
    ensures
      var cs := [Component("10001", [PostalCodeType]), Component("New York", [LocalityType]),
                 Component("New York", [StateType])];
      var resp := GeocodeResponse(true, StatusOk, [GeoResult(Some(Location(Some(4071280000), Some(-7400600000))), Some(cs))]);
      GeocodeAddress("123 Main St, New York, NY", resp)
        == Ok(GeocodedData(Some(4071280000), Some(-7400600000), Some("10001"), Some("New York"), Some("New York")))
  {
    var cs := [Component("10001", [PostalCodeType]), Component("New York", [LocalityType]),
               Component("New York", [StateType])];
    ExtractFirstMatch(cs, PostalCodeType, 0);
    assert LocalityType !in cs[0].types;
    ExtractFirstMatch(cs, LocalityType, 1);
    assert StateType !in cs[0].types && StateType !in cs[1].types;
    ExtractFirstMatch(cs, StateType, 2);
  }
}
