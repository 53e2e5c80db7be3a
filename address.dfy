/** The `Address` model: one row per raw address string the user typed, with
    what geocoding said about it, created on first sight and never updated
    (`find_or_create_from_address`). The table is the sequence of its rows in
    insertion order. */
module AddressModel {
  import opened Common
  import Validation
  import GeocodingService

  /** A row of `addresses` that passed its validations. */
  datatype AddressRow = AddressRow(
    fullAddress: string,
    zipCode: string,
    latitude: Coord,
    longitude: Coord,
    city: string,
    state: string)

  /** What one call of `find_or_create_from_address` leaves behind. */
  datatype Upsert = Upsert(rows: seq<AddressRow>, outcome: Result<AddressRow>)

  /** The presence validations of `Address`, in declaration order, on the row
      built from `fullAddress` and the geocoded data. */
  function AddressChecks(fullAddress: string, g: GeocodingService.GeocodedData): seq<Validation.Check> {
    [Validation.Check(Validation.PresentString(Some(fullAddress)), "Full address"),
     Validation.Check(Validation.PresentString(g.zipCode), "Zip code"),
     Validation.Check(g.latitude.Some?, "Latitude"),
     Validation.Check(g.longitude.Some?, "Longitude"),
     Validation.Check(Validation.PresentString(g.city), "City"),
     Validation.Check(Validation.PresentString(g.state), "State")]
  }

  /** The errors `valid?` collects for a new row, in declaration order. The
      uniqueness clause on `full_address` cannot fire, because a row is created
      only when no row has that address. */
  function AddressErrors(fullAddress: string, g: GeocodingService.GeocodedData): (errors: seq<string>)
    ensures errors == [] <==>
      && Validation.PresentString(Some(fullAddress)) && Validation.PresentString(g.zipCode)
      && g.latitude.Some? && g.longitude.Some?
      && Validation.PresentString(g.city) && Validation.PresentString(g.state)
    ensures |errors| <= 6
  {
    Validation.Require(Validation.PresentString(Some(fullAddress)), "Full address")
      + (Validation.Require(Validation.PresentString(g.zipCode), "Zip code")
      + (Validation.Require(g.latitude.Some?, "Latitude")
      + (Validation.Require(g.longitude.Some?, "Longitude")
      + (Validation.Require(Validation.PresentString(g.city), "City")
      + (Validation.Require(Validation.PresentString(g.state), "State") + [])))))
  }

  /** The errors are the blank messages of the missing attributes, one each,
      in the order the validations are declared. */
  lemma AddressErrorsInOrder(fullAddress: string, g: GeocodingService.GeocodedData)
    ensures AddressErrors(fullAddress, g) == Validation.Missing(AddressChecks(fullAddress, g))
  {
    var cs := AddressChecks(fullAddress, g);
    Validation.MissingSix(cs[0], cs[1], cs[2], cs[3], cs[4], cs[5]);
    assert cs == [cs[0], cs[1], cs[2], cs[3], cs[4], cs[5]];
  }

  function FullAddresses(rows: seq<AddressRow>): (fs: seq<string>)
    ensures |fs| == |rows| && forall i :: 0 <= i < |rows| ==> fs[i] == rows[i].fullAddress
  {
    seq(|rows|, i requires 0 <= i < |rows| => rows[i].fullAddress)
  }

  /** The unique index on `full_address`. */
  predicate UniqueAddresses(rows: seq<AddressRow>) {
    forall i, j :: 0 <= i < j < |rows| ==> rows[i].fullAddress != rows[j].fullAddress
  }

  /** `find_or_create_from_address(full_address, geocoded_data)`: the lookup is
      by the exact string; an existing row is returned as it is, whatever the
      geocoded data say; otherwise a row is created from them, or the
      validation error is raised and nothing is written. */
  function FindOrCreate(rows: seq<AddressRow>, fullAddress: string, g: GeocodingService.GeocodedData): (u: Upsert)
    ensures IndexOf(FullAddresses(rows), fullAddress) < |rows| ==>
      u == Upsert(rows, Ok(rows[IndexOf(FullAddresses(rows), fullAddress)]))
    ensures IndexOf(FullAddresses(rows), fullAddress) == |rows| && AddressErrors(fullAddress, g) == [] ==>
      && u.outcome == Ok(AddressRow(fullAddress, g.zipCode.value, g.latitude.value, g.longitude.value,
                                    g.city.value, g.state.value))
      && u.rows == rows + [u.outcome.value]
    ensures IndexOf(FullAddresses(rows), fullAddress) == |rows| && AddressErrors(fullAddress, g) != [] ==>
      u == Upsert(rows, Err(Validation.FailureMessage(AddressErrors(fullAddress, g))))
    ensures u.outcome.Err? ==>
      && u.rows == rows
      && u.outcome.msg == Validation.FailureMessage(AddressErrors(fullAddress, g))
    ensures u.outcome.Ok? ==> u.outcome.value.fullAddress == fullAddress && u.outcome.value in u.rows
    ensures |rows| <= |u.rows| <= |rows| + 1 && u.rows[..|rows|] == rows
  {
    var k := IndexOf(FullAddresses(rows), fullAddress);
    if k < |rows| then
      Upsert(rows, Ok(rows[k]))
    else
      var errors := AddressErrors(fullAddress, g);
      if errors != [] then
        Upsert(rows, Err(Validation.FailureMessage(errors)))
      else
        var row := AddressRow(fullAddress, g.zipCode.value, g.latitude.value, g.longitude.value,
                              g.city.value, g.state.value);
        assert (rows + [row])[|rows|] == row;
        Upsert(rows + [row], Ok(row))
  }

  /** The operation keeps addresses unique. */
  lemma FindOrCreateKeepsUnique(rows: seq<AddressRow>, fullAddress: string, g: GeocodingService.GeocodedData)
    requires UniqueAddresses(rows)
    ensures UniqueAddresses(FindOrCreate(rows, fullAddress, g).rows)
  {
    var u := FindOrCreate(rows, fullAddress, g);
    if |u.rows| > |rows| {
      var names := FullAddresses(rows);
      assert IndexOf(names, fullAddress) == |rows|;
      forall i | 0 <= i < |rows|
        ensures rows[i].fullAddress != fullAddress
      {
        assert names[i] == rows[i].fullAddress;
      }
      assert u.rows == rows + [u.outcome.value];
    }
  }

  /** Two strings that differ in any way, case included, are two rows. */
  lemma DistinctSpellingsAreDistinctRows(rows: seq<AddressRow>, a: string, b: string, g: GeocodingService.GeocodedData)
    requires UniqueAddresses(rows) && a != b
    requires FindOrCreate(rows, a, g).outcome.Ok?
    requires FindOrCreate(FindOrCreate(rows, a, g).rows, b, g).outcome.Ok?
    ensures FindOrCreate(FindOrCreate(rows, a, g).rows, b, g).outcome.value
         != FindOrCreate(rows, a, g).outcome.value
  {
  }

  /** Asking again for an address already stored returns the same row and
      writes nothing. */
  lemma FindOrCreateIdempotent(rows: seq<AddressRow>, fullAddress: string,
                               g1: GeocodingService.GeocodedData, g2: GeocodingService.GeocodedData)
    requires UniqueAddresses(rows)
    requires FindOrCreate(rows, fullAddress, g1).outcome.Ok?
    ensures FindOrCreate(FindOrCreate(rows, fullAddress, g1).rows, fullAddress, g2)
         == FindOrCreate(rows, fullAddress, g1)
  {
    var u := FindOrCreate(rows, fullAddress, g1);
    FindOrCreateKeepsUnique(rows, fullAddress, g1);
    var j :| 0 <= j < |u.rows| && u.rows[j] == u.outcome.value;
    var names := FullAddresses(u.rows);
    assert names[j] == fullAddress;
    var k := IndexOf(names, fullAddress);
    assert k == j by {
      assert k <= j;
      assert u.rows[k].fullAddress == u.rows[j].fullAddress;
    }
    var u2 := FindOrCreate(u.rows, fullAddress, g2);
    assert u2 == Upsert(u.rows, Ok(u.rows[j]));
  }

  class AddressTable {
    var rows: seq<AddressRow>

    predicate Valid()
      reads this
    {
      UniqueAddresses(rows)
    }

    constructor ()
      ensures rows == [] && Valid()
    {
      rows := [];
    }

    /** `Address.find_or_create_from_address(full_address, geocoded_data)`. */
    method FindOrCreateFromAddress(fullAddress: string, g: GeocodingService.GeocodedData)
      returns (outcome: Result<AddressRow>)
      modifies this
      ensures rows == FindOrCreate(old(rows), fullAddress, g).rows
      ensures outcome == FindOrCreate(old(rows), fullAddress, g).outcome
      ensures old(Valid()) ==> Valid()
    {
      if Valid() {
        FindOrCreateKeepsUnique(rows, fullAddress, g);
      }
      var k := IndexOf(FullAddresses(rows), fullAddress);
      if k < |rows| {
        outcome := Ok(rows[k]);
        return;
      }
      var errors := AddressErrors(fullAddress, g);
      if errors != [] {
        outcome := Err(Validation.FailureMessage(errors));
        return;
      }
      var row := AddressRow(fullAddress, g.zipCode.value, g.latitude.value, g.longitude.value,
                            g.city.value, g.state.value);
      rows := rows + [row];
      outcome := Ok(row);
    }
  }
}
