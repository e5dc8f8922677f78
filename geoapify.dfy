/** Geoapify/GeoNames post-processing (TruckServices/Services/GeoapifyService.cs):
    the geocoder's first feature and the "first different city" selection over
    an already parsed GeoNames reply. */
module Geoapify {
  import opened Common
  import opened Text
  import GoogleMaps

  type City = GoogleMaps.City
  type Coords = GoogleMaps.Coords

  /** `GeocodeAddressAsync`: `features` is `None` when the property is missing
      (which throws); an empty array gives no coordinates; otherwise the first
      feature's coordinates. */
  function GeocodeAddress(features: Option<seq<Coords>>): (r: Fetch<Option<Coords>>)
    ensures r.Threw? <==> features.None?
    ensures r == Ok(None) <==> features == Some([])
    ensures r.Ok? && r.value.Some? ==> r.value.value == features.value[0]
  {
    match features
    case None => Threw
    case Some(fs) => if fs == [] then Ok(None) else Ok(Some(fs[0]))
  }

  /** One entry of the `geonames` array. `name` and `countryName` are `None`
      when the property is missing (reading it throws) and `Some(None)` when it
      is null; `adminName1` likewise, but a missing one is tolerated. */
  datatype GeoPlace = GeoPlace(name: Option<Option<string>>, countryName: Option<Option<string>>, adminName1: Option<Option<string>>)

  /** The (city, state, country) read from one place, null strings read as "". */
  function Fields(p: GeoPlace): (r: Fetch<City>)
    ensures r.Ok? <==> p.name.Some? && p.countryName.Some?
    ensures r.Ok? ==> r.value.city == (if p.name.value.Some? then p.name.value.value else "")
    ensures r.Ok? ==> r.value.country == (if p.countryName.value.Some? then p.countryName.value.value else "")
    ensures r.Ok? && (p.adminName1.None? || p.adminName1 == Some(None)) ==> r.value.state == ""
  {
    if p.name.None? || p.countryName.None? then Threw
    else
      var city := if p.name.value.Some? then p.name.value.value else "";
      var country := if p.countryName.value.Some? then p.countryName.value.value else "";
      var state := if p.adminName1.Some? && p.adminName1.value.Some? then p.adminName1.value.value else "";
      Ok(GoogleMaps.City(city, state, country))
  }

  /** The place is read without throwing and its city is not
      contained, ignoring case, in the location text. */
  predicate Different(location: string, p: GeoPlace) {
    Fields(p).Ok? && !ContainsIgnoreCase(location, Fields(p).value.city)
  }

  /** The place is read without throwing and its city is contained in the
      location text, so the scan passes over it. */
  predicate Same(location: string, p: GeoPlace) {
    Fields(p).Ok? && ContainsIgnoreCase(location, Fields(p).value.city)
  }

  /** The result of the scan: the first place, in reply order, whose city is
      not contained in the location; `None` when there is none; `Threw` when a
      place before it cannot be read. */
  function FirstDifferent(location: string, places: seq<GeoPlace>): (r: Fetch<Option<City>>)
    ensures r.Ok? && r.value.Some? ==> r.value.value.city != []
    decreases |places|
  {
    if places == [] then Ok(None)
    else
      match Fields(places[0])
      case Threw => Threw
      case Ok(c) =>
        if !ContainsIgnoreCase(location, c.city) then
          assert c.city != [] by {
            if c.city == [] { ContainsEmpty(Lower(location)); }
          }
          Ok(Some(c))
        else FirstDifferent(location, places[1..])
  }

  /** The `foreach` over the places, returning at the first different city. */
  method ScanGeoNames(location: string, places: seq<GeoPlace>) returns (r: Fetch<Option<City>>)
    ensures r == FirstDifferent(location, places)
  {
    for i := 0 to |places|
      invariant FirstDifferent(location, places[i..]) == FirstDifferent(location, places)
    {
      assert places[i..][0] == places[i] && places[i..][1..] == places[i + 1..];
      var place := places[i];
      var fields := Fields(place);
      if fields.Threw? {
        return Threw;
      }
      if !ContainsIgnoreCase(location, fields.value.city) {
        return Ok(Some(fields.value));
      }
    }
    r := Ok(None);
  }

  /** `GetNearestDifferentCityAsync(location)` given the geocoder's answer and
      the `geonames` array (`None` when the reply has none). */
  method GetNearestDifferentCity(location: string, features: Option<seq<Coords>>, geonames: Option<seq<GeoPlace>>)
    returns (r: Fetch<Option<City>>)
    ensures features.None? ==> r == Threw
    ensures features == Some([]) ==> r == Ok(None)
    ensures features.Some? && features.value != [] ==>
              if geonames.None? then r == Ok(None) else r == FirstDifferent(location, geonames.value)
  {
    var coords := GeocodeAddress(features);
    if coords.Threw? {
      return Threw;
    }
    if coords.value.None? {
      return Ok(None);
    }
    if geonames.None? {
      return Ok(None);
    }
    r := ScanGeoNames(location, geonames.value);
  }

  /** The scan picks the place at `k` exactly when every earlier place was
      read and skipped and the place at `k` is different. */
  lemma {:induction false} FirstDifferentAt(location: string, places: seq<GeoPlace>, k: nat)
    requires k < |places|
    requires forall j :: 0 <= j < k ==> Same(location, places[j])
    requires Different(location, places[k])
    ensures FirstDifferent(location, places) == Ok(Some(Fields(places[k]).value))
    decreases k
  {
    if k > 0 {
      assert Same(location, places[0]);
      forall j | 0 <= j < k - 1 ensures Same(location, places[1..][j]) {
        assert places[1..][j] == places[j + 1];
      }
      FirstDifferentAt(location, places[1..], k - 1);
    }
  }

  /** A selected city comes from some place that is different, with every
      place before it skipped. */
  lemma {:induction false} FirstDifferentSelected(location: string, places: seq<GeoPlace>)
    requires FirstDifferent(location, places).Ok? && FirstDifferent(location, places).value.Some?
    ensures exists k :: 0 <= k < |places|
              && Different(location, places[k])
              && Fields(places[k]).value == FirstDifferent(location, places).value.value
              && forall j :: 0 <= j < k ==> Same(location, places[j])
    decreases |places|
  {
    if Different(location, places[0]) {
      assert Fields(places[0]).value == FirstDifferent(location, places).value.value;
    } else {
      var rest := places[1..];
      FirstDifferentSelected(location, rest);
      var k :| 0 <= k < |rest| && Different(location, rest[k])
                && Fields(rest[k]).value == FirstDifferent(location, rest).value.value
                && forall j :: 0 <= j < k ==> Same(location, rest[j]);
      assert places[k + 1] == rest[k];
      forall j | 0 <= j < k + 1 ensures Same(location, places[j]) {
        if j > 0 { assert places[j] == rest[j - 1]; }
      }
    }
  }

  /** The scan finds nothing exactly when every place is read and its city is
      contained in the location text. */
  lemma {:induction false} FirstDifferentNone(location: string, places: seq<GeoPlace>)
    ensures FirstDifferent(location, places) == Ok(None) <==> forall j :: 0 <= j < |places| ==> Same(location, places[j])
    decreases |places|
  {
    if places != [] {
      var rest := places[1..];
      FirstDifferentNone(location, rest);
      assert forall j :: 1 <= j < |places| ==> places[j] == rest[j - 1];
    }
  }
}
