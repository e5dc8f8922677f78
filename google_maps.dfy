/** The decision logic of the Google Maps gateway
    (TruckServices/Services/GoogleMapsService.cs) over responses that have
    already been fetched and parsed: city autocomplete, the nearby-city scan,
    the two reverse geocoders and the business-status mapping. */
module GoogleMaps {
  import opened Common
  import opened Text
  import opened Sorting

  /** A (City, State, Country) tuple. */
  datatype City = City(city: string, state: string, country: string)

  // ---------------------------------------------------------------------------
  // Autocomplete
  // ---------------------------------------------------------------------------

  /** One autocomplete prediction. `mainText` is `None` when there is no
      `structured_formatting`, `Some(None)` when its `main_text` is null;
      `terms` is `None` when the prediction has no `terms`, and each term's
      `value` may be null. */
  datatype Prediction = Prediction(mainText: Option<Option<string>>, terms: Option<seq<Option<string>>>)

  /** The autocomplete reply: a failed status, or a body that may lack
      `predictions`. */
  datatype AutocompleteResponse =
    | AutocompleteFailed
    | AutocompleteBody(predictions: Option<seq<Prediction>>)

  /** The term values that are not null, in order. */
  function NonNullTerms(ts: seq<Option<string>>): (r: seq<string>)
    ensures |r| <= |ts|
    ensures forall x :: x in r <==> Some(x) in ts
  {
    if ts == [] then []
    else
      var rest := NonNullTerms(ts[1..]);
      assert forall o :: o in ts <==> o == ts[0] || o in ts[1..];
      if ts[0].Some? then [ts[0].value] + rest else rest
  }

  /** Dropping the null values works term by term: a value is kept, a null
      is dropped, and the order of the kept values is that of the terms. */
  lemma {:induction false} NonNullTermsAppend(a: seq<Option<string>>, b: seq<Option<string>>)
    ensures NonNullTerms(a + b) == NonNullTerms(a) + NonNullTerms(b)
    ensures NonNullTerms([None]) == []
    ensures forall x :: NonNullTerms([Some(x)]) == [x]
  {
    if a == [] {
      assert a + b == b;
    } else {
      assert (a + b)[0] == a[0] && (a + b)[1..] == a[1..] + b;
      NonNullTermsAppend(a[1..], b);
    }
  }

  /** When no term value is null, the terms are the values in order, so the
      second and third terms are the state and the country. */
  lemma {:induction false} NonNullTermsOfValues(ts: seq<Option<string>>)
    requires forall i :: 0 <= i < |ts| ==> ts[i].Some?
    ensures |NonNullTerms(ts)| == |ts|
    ensures forall i :: 0 <= i < |ts| ==> NonNullTerms(ts)[i] == ts[i].value
  {
    if ts != [] {
      NonNullTermsOfValues(ts[1..]);
    }
  }

  /** The country switch: "USA" and "CA" are renamed, anything else is kept. */
  function MapCountry(country: string): (r: string)
    ensures country == "USA" ==> r == "United States"
    ensures country == "CA" ==> r == "Canada"
    ensures country != "USA" && country != "CA" ==> r == country
  {
    match country
    case "USA" => "United States"
    case "CA" => "Canada"
    case _ => country
  }

  /** The two countries the site serves. */
  predicate IsServed(country: string) {
    country == "United States" || country == "Canada"
  }

  /** The terms of a prediction (none when it has no `terms`). */
  function TermsOf(p: Prediction): seq<string> {
    if p.terms.Some? then NonNullTerms(p.terms.value) else []
  }

  /** The tuple a prediction yields: the main text (or ""), the second term as
      the state and the mapped third term as the country, both "" when there
      are fewer than two terms. */
  function Candidate(p: Prediction): City {
    var city := if p.mainText.Some? && p.mainText.value.Some? then p.mainText.value.value else "";
    var terms := TermsOf(p);
    var state := if |terms| >= 2 then terms[1] else "";
    var country := if |terms| >= 3 then terms[2] else "";
    City(city, state, MapCountry(country))
  }

  /** A prediction is kept when its mapped country is one the site serves. */
  predicate Kept(p: Prediction) {
    IsServed(Candidate(p).country)
  }

  /** A prediction is kept exactly when it has a third term naming the United
      States or Canada in one of the accepted spellings; with fewer than three
      terms the country stays "" and it is dropped. */
  lemma KeptIff(p: Prediction)
    ensures Kept(p) <==>
              var terms := TermsOf(p);
              |terms| >= 3 && terms[2] in {"USA", "United States", "CA", "Canada"}
  {
  }

  /** The tuples of the kept predictions, in response order. */
  function Collected(ps: seq<Prediction>): (r: seq<City>)
    ensures |r| <= |ps|
    ensures forall c :: c in r <==> exists i :: 0 <= i < |ps| && Kept(ps[i]) && Candidate(ps[i]) == c
  {
    MapFilter(ps, Kept, Candidate)
  }

  /** The `foreach` over the predictions. */
  method CollectPredictions(ps: seq<Prediction>) returns (results: seq<City>)
    ensures results == Collected(ps)
  {
    results := [];
    for i := 0 to |ps|
      invariant results == Collected(ps[..i])
    {
      assert ps[..i + 1][..i] == ps[..i];
      var city := "";
      var state := "";
      var country := "";
      if ps[i].mainText.Some? {
        city := if ps[i].mainText.value.Some? then ps[i].mainText.value.value else "";
      }
      if ps[i].terms.Some? {
        var termList := NonNullTerms(ps[i].terms.value);
        if |termList| >= 2 {
          state := termList[1];
          country := if |termList| >= 3 then termList[2] else "";
        }
      }
      var mappedCountry := MapCountry(country);
      if mappedCountry == "United States" || mappedCountry == "Canada" {
        results := results + [City(city, state, mappedCountry)];
      }
    }
    assert ps[..|ps|] == ps;
  }

  /** `OrderBy(r => r.City)`, modelled with the ordinal order. */
  predicate CityLe(a: City, b: City) {
    StrLe(a.city, b.city)
  }

  /** No lookup is made for a null or blank term, or one shorter than two
      characters. */
  predicate TermTooShort(term: Option<string>) {
    IsNullOrWhiteSpace(term) || |term.value| < 2
  }

  /** `AutocompleteCitiesAsync(term)` given the reply to its request. */
  method AutocompleteCities(term: Option<string>, response: AutocompleteResponse) returns (r: seq<City>)
    ensures TermTooShort(term) || !response.AutocompleteBody? || response.predictions.None? ==> r == []
    ensures NoDuplicates(r)
    ensures SortedBy(r, CityLe)
    ensures forall c :: c in r ==> IsServed(c.country)
    ensures forall c :: c in r <==>
              && !TermTooShort(term) && response.AutocompleteBody? && response.predictions.Some?
              && exists i :: 0 <= i < |response.predictions.value|
                             && Kept(response.predictions.value[i]) && Candidate(response.predictions.value[i]) == c
  {
    if TermTooShort(term) {
      return [];
    }
    if response.AutocompleteFailed? || response.predictions.None? {
      return [];
    }
    var results := CollectPredictions(response.predictions.value);
    r := DistinctByCity(results);
  }

  /** `Distinct().OrderBy(r => r.City)`: each tuple once, ordered by city. */
  function DistinctByCity(results: seq<City>): (r: seq<City>)
    ensures NoDuplicates(r)
    ensures SortedBy(r, CityLe)
    ensures forall c :: c in r <==> c in results
  {
    var distinct := Distinct(results);
    StrKeyIsTotalPreorder(CityLe, (c: City) => c.city);
    var r := SortBy(distinct, CityLe);
    NoDuplicatesPermutation(distinct, r);
    assert forall c :: c in r <==> c in multiset(distinct);
    r
  }

  // ---------------------------------------------------------------------------
  // Reverse geocoding
  // ---------------------------------------------------------------------------

  /** One address component: its `types` (each may be null) and `long_name`. */
  datatype Component = Component(types: seq<Option<string>>, longName: Option<string>)

  predicate HasType(c: Component, t: string) {
    Some(t) in c.types
  }

  /** The `long_name` of the last component of type `t`; `None` when no
      component has that type or the last one's name is null. */
  function LastNameOfType(comps: seq<Component>, t: string): (r: Option<string>)
    ensures r.Some? ==> exists i :: 0 <= i < |comps| && HasType(comps[i], t) && comps[i].longName == r
    ensures (forall i :: 0 <= i < |comps| ==> !HasType(comps[i], t)) ==> r.None?
  {
    if comps == [] then None
    else if HasType(comps[|comps| - 1], t) then comps[|comps| - 1].longName
    else
      var r := LastNameOfType(comps[..|comps| - 1], t);
      assert forall i :: 0 <= i < |comps| - 1 ==> comps[..|comps| - 1][i] == comps[i];
      r
  }

  /** A later component of the type overrides every earlier one. */
  lemma LaterComponentWins(comps: seq<Component>, c: Component, t: string)
    requires HasType(c, t)
    ensures LastNameOfType(comps + [c], t) == c.longName
  {
  }

  /** A component without the type leaves the earlier answer alone. */
  lemma OtherComponentIgnored(comps: seq<Component>, c: Component, t: string)
    requires !HasType(c, t)
    ensures LastNameOfType(comps + [c], t) == LastNameOfType(comps, t)
  {
    assert (comps + [c])[..|comps|] == comps;
  }

  /** One more component either overrides the answer for `t` or leaves it. */
  lemma ScanStep(comps: seq<Component>, i: nat, t: string)
    requires i < |comps|
    ensures LastNameOfType(comps[..i + 1], t)
            == if HasType(comps[i], t) then comps[i].longName else LastNameOfType(comps[..i], t)
  {
    assert comps[..i + 1] == comps[..i] + [comps[i]];
    if HasType(comps[i], t) {
      LaterComponentWins(comps[..i], comps[i], t);
    } else {
      OtherComponentIgnored(comps[..i], comps[i], t);
    }
  }

  /** The reverse-geocode reply: a failed status, or a body whose `results`
      may be missing; each result is its list of address components. */
  datatype GeocodeResponse =
    | GeocodeFailed
    | GeocodeBody(results: Option<seq<seq<Component>>>)

  /** The component scan of `ReverseGeocode`: every component of the first
      result overwrites city, state or country with its long name. */
  method ScanComponents(comps: seq<Component>) returns (city: Option<string>, state: Option<string>, country: Option<string>)
    ensures city == LastNameOfType(comps, "locality")
    ensures state == LastNameOfType(comps, "administrative_area_level_1")
    ensures country == LastNameOfType(comps, "country")
  {
    city, state, country := None, None, None;
    for i := 0 to |comps|
      invariant city == LastNameOfType(comps[..i], "locality")
      invariant state == LastNameOfType(comps[..i], "administrative_area_level_1")
      invariant country == LastNameOfType(comps[..i], "country")
    {
      var comp := comps[i];
      ScanStep(comps, i, "locality");
      ScanStep(comps, i, "administrative_area_level_1");
      ScanStep(comps, i, "country");
      if HasType(comp, "locality") {
        city := comp.longName;
      }
      if HasType(comp, "administrative_area_level_1") {
        state := comp.longName;
      }
      if HasType(comp, "country") {
        country := comp.longName;
      }
    }
    assert comps[..|comps|] == comps;
  }

  /** `ReverseGeocode(lat, lng)`: `None` for a failed status or no results;
      reading a body without `results` throws; otherwise a triple exactly when
      the first result names a locality, a state and a country. */
  method ReverseGeocode(response: GeocodeResponse) returns (r: Fetch<Option<City>>)
    ensures response.GeocodeFailed? ==> r == Ok(None)
    ensures response.GeocodeBody? && response.results.None? ==> r == Threw
    ensures response.GeocodeBody? && response.results.Some? && response.results.value == [] ==> r == Ok(None)
    ensures response.GeocodeBody? && response.results.Some? && response.results.value != [] ==>
              var comps := response.results.value[0];
              var city := LastNameOfType(comps, "locality");
              var state := LastNameOfType(comps, "administrative_area_level_1");
              var country := LastNameOfType(comps, "country");
              && r.Ok?
              && (r.value.Some? <==> city.Some? && state.Some? && country.Some?)
              && (r.value.Some? ==> r.value.value == City(city.value, state.value, country.value))
  {
    if response.GeocodeFailed? {
      return Ok(None);
    }
    if response.results.None? {
      return Threw;
    }
    if response.results.value == [] {
      return Ok(None);
    }
    var city, state, country := ScanComponents(response.results.value[0]);
    if city.Some? && state.Some? && country.Some? {
      return Ok(Some(City(city.value, state.value, country.value)));
    }
    return Ok(None);
  }

  /** `ReverseGeocodeAsync(city, lat, lng)`: keeps the given city and takes the
      last state and country named in the first result ("" when absent or
      null); `None` when the body has no `results`; an empty `results` array
      (indexing `results[0]`) or a failed request throws. */
  function ReverseGeocodeWithCity(city: string, response: GeocodeResponse): (r: Fetch<Option<City>>)
    ensures response.GeocodeFailed? ==> r == Threw
    ensures response.GeocodeBody? && response.results.None? ==> r == Ok(None)
    ensures response.GeocodeBody? && response.results.Some? && response.results.value == [] ==> r == Threw
    ensures response.GeocodeBody? && response.results.Some? && response.results.value != [] ==>
              r.Ok? && r.value.Some? && r.value.value.city == city
  {
    match response
    case GeocodeFailed => Threw
    case GeocodeBody(results) =>
      if results.None? then Ok(None)
      else if results.value == [] then Threw
      else
        var comps := results.value[0];
        var state := LastNameOfType(comps, "administrative_area_level_1");
        var country := LastNameOfType(comps, "country");
        Ok(Some(City(city, if state.Some? then state.value else "", if country.Some? then country.value else "")))
  }

  /** The state and country `ReverseGeocodeAsync` reports are those of the last
      matching components, with "" for a missing or null name. */
  lemma ReverseGeocodeWithCityNames(city: string, comps: seq<Component>, more: seq<seq<Component>>)
    ensures var r := ReverseGeocodeWithCity(city, GeocodeBody(Some([comps] + more)));
            var state := LastNameOfType(comps, "administrative_area_level_1");
            var country := LastNameOfType(comps, "country");
            && r == Ok(Some(City(city, if state.Some? then state.value else "", if country.Some? then country.value else "")))
            && ((forall i :: 0 <= i < |comps| ==> !HasType(comps[i], "country")) ==> r.value.value.country == "")
  {
  }

  // ---------------------------------------------------------------------------
  // Nearby cities
  // ---------------------------------------------------------------------------

  /** One nearby place: its display name (`None` when `displayName` is
      missing, which throws) and the reply to reverse-geocoding its
      coordinates. */
  datatype Place = Place(displayName: Option<string>, geocode: GeocodeResponse)

  /** What one place adds to the result. */
  function PlaceContribution(location: string, p: Place): Fetch<seq<City>> {
    if p.displayName.None? then Threw
    else if ContainsIgnoreCase(location, p.displayName.value) then Ok([])
    else
      match ReverseGeocodeWithCity(p.displayName.value, p.geocode)
      case Threw => Threw
      case Ok(None) => Ok([])
      case Ok(Some(c)) => Ok([c])
  }

  /** The result of the scan over `places`: the contributions in order, or
      `Threw` as soon as one place throws. */
  function NearbyCollected(location: string, places: seq<Place>): (r: Fetch<seq<City>>)
    ensures r.Ok? ==> |r.value| <= |places|
  {
    if places == [] then Ok([])
    else
      var n := |places| - 1;
      match NearbyCollected(location, places[..n])
      case Threw => Threw
      case Ok(acc) =>
        match PlaceContribution(location, places[n])
        case Threw => Threw
        case Ok(more) => Ok(acc + more)
  }

  /** The `foreach` over the nearby places. */
  method ScanPlaces(location: string, places: seq<Place>) returns (r: Fetch<seq<City>>)
    ensures r == NearbyCollected(location, places)
  {
    var results: seq<City> := [];
    for i := 0 to |places|
      invariant NearbyCollected(location, places[..i]) == Ok(results)
    {
      assert places[..i + 1][..i] == places[..i];
      var place := places[i];
      assert places[..i + 1][i] == place;
      if place.displayName.None? {
        PrefixThrows(location, places, i + 1);
        return Threw;
      }
      var cityName := place.displayName.value;
      if ContainsIgnoreCase(location, cityName) {
        assert results + [] == results;
        continue;
      }
      var details := ReverseGeocodeWithCity(cityName, place.geocode);
      if details.Threw? {
        PrefixThrows(location, places, i + 1);
        return Threw;
      }
      if details.value.Some? {
        results := results + [details.value.value];
      } else {
        assert results + [] == results;
      }
    }
    assert places[..|places|] == places;
    r := Ok(results);
  }

  /** Once a prefix of the places throws, the whole scan throws. */
  lemma {:induction false} PrefixThrows(location: string, places: seq<Place>, k: nat)
    requires k <= |places| && NearbyCollected(location, places[..k]) == Threw
    ensures NearbyCollected(location, places) == Threw
    decreases |places| - k
  {
    if k < |places| {
      assert places[..k + 1][..k] == places[..k];
      PrefixThrows(location, places, k + 1);
    } else {
      assert places[..k] == places;
    }
  }

  /** No city reported by the scan is contained, ignoring case, in the
      location text, and every one is the display name of a place, so none is
      empty. */
  lemma {:induction false} NearbySkipsContained(location: string, places: seq<Place>)
    requires NearbyCollected(location, places).Ok?
    ensures forall c :: c in NearbyCollected(location, places).value ==>
              && !ContainsIgnoreCase(location, c.city)
              && c.city != []
              && exists i :: 0 <= i < |places| && places[i].displayName == Some(c.city)
  {
    if places != [] {
      var n := |places| - 1;
      NearbySkipsContained(location, places[..n]);
      var acc := NearbyCollected(location, places[..n]).value;
      var more := PlaceContribution(location, places[n]).value;
      assert NearbyCollected(location, places).value == acc + more;
      forall c | c in more
        ensures !ContainsIgnoreCase(location, c.city) && c.city != []
      {
        if c.city == [] {
          ContainsEmpty(Lower(location));
        }
      }
      forall c | c in acc
        ensures exists i :: 0 <= i < |places| && places[i].displayName == Some(c.city)
      {
        var i :| 0 <= i < n && places[..n][i].displayName == Some(c.city);
        assert places[i] == places[..n][i];
      }
    }
  }

  /** The place is read, its name is not contained in the location, and its
      reverse geocode yields a tuple. */
  predicate Reports(location: string, p: Place) {
    && p.displayName.Some?
    && !ContainsIgnoreCase(location, p.displayName.value)
    && ReverseGeocodeWithCity(p.displayName.value, p.geocode).Ok?
    && ReverseGeocodeWithCity(p.displayName.value, p.geocode).value.Some?
  }

  /** The tuple a reporting place contributes. */
  function ReportedCity(location: string, p: Place): City {
    if Reports(location, p) then ReverseGeocodeWithCity(p.displayName.value, p.geocode).value.value
    else City("", "", "")
  }

  /** The scan throws exactly when some place throws: its display name is
      missing, or its reverse geocode throws. */
  lemma {:induction false} NearbyThrowsIff(location: string, places: seq<Place>)
    ensures NearbyCollected(location, places).Threw? <==>
              exists i :: 0 <= i < |places| && PlaceContribution(location, places[i]).Threw?
  {
    if places != [] {
      var n := |places| - 1;
      NearbyThrowsIff(location, places[..n]);
      assert forall i :: 0 <= i < n ==> places[..n][i] == places[i];
    }
  }

  /** When no place throws, the scan reports, in the order of the places,
      the tuple of every place that is read, not skipped and reverse-geocoded
      to a tuple, and nothing else: `Where(Reports).Select(ReportedCity)`. */
  lemma {:induction false} NearbyInOrder(location: string, places: seq<Place>,
                                         keep: Place -> bool, report: Place -> City)
    requires forall p :: keep(p) == Reports(location, p)
    requires forall p :: report(p) == ReportedCity(location, p)
    requires forall i :: 0 <= i < |places| ==> !PlaceContribution(location, places[i]).Threw?
    ensures NearbyCollected(location, places) == Ok(MapFilter(places, keep, report))
  {
    if places != [] {
      var n := |places| - 1;
      assert forall i :: 0 <= i < n ==> places[..n][i] == places[i];
      NearbyInOrder(location, places[..n], keep, report);
      var acc := MapFilter(places[..n], keep, report);
      assert MapFilter(places, keep, report) == if keep(places[n]) then acc + [report(places[n])] else acc;
      ContributionOfReport(location, places[n]);
      assert acc + [] == acc;
    }
  }

  /** A place that does not throw contributes its tuple when it reports one,
      and nothing otherwise. */
  lemma ContributionOfReport(location: string, p: Place)
    requires !PlaceContribution(location, p).Threw?
    ensures PlaceContribution(location, p)
            == if Reports(location, p) then Ok([ReportedCity(location, p)]) else Ok([])
  {
  }

  /** A place whose name the location contains contributes nothing. */
  lemma ContainedPlaceSkipped(location: string, p: Place)
    requires p.displayName.Some? && ContainsIgnoreCase(location, p.displayName.value)
    ensures PlaceContribution(location, p) == Ok([])
  {
  }

  /** The parsed nearby-search reply: a failed status, or a body whose
      `places` may be null. */
  datatype NearbyResponse =
    | NearbyFailed
    | NearbyBody(places: Option<seq<Place>>)

  /** Geocoded coordinates of the location. */
  datatype Coords = Coords(lat: real, lng: real)

  /** `GeocodeAsync(address)` given the `results` array of the reply (`None`
      when the property is missing): the first result's location, or `None`
      when there is no result. */
  function Geocode(results: Option<seq<Coords>>): (r: Option<Coords>)
    ensures r.None? <==> results.None? || results.value == []
    ensures r.Some? ==> r.value == results.value[0]
  {
    if results.None? || results.value == [] then None else Some(results.value[0])
  }

  /** `GetNearestCitiesAsync(location)` given the geocoder's reply (`Threw`
      when fetching or reading it throws) and the nearby-search reply. */
  method GetNearestCities(location: string, geocode: Fetch<Option<seq<Coords>>>, nearby: NearbyResponse)
    returns (r: Fetch<seq<City>>)
    ensures geocode.Threw? ==> r == Threw
    ensures geocode.Ok? && Geocode(geocode.value).None? ==> r == Ok([])
    ensures geocode.Ok? && Geocode(geocode.value).Some? ==>
              if nearby.NearbyFailed? || nearby.places.None? || nearby.places.value == [] then r == Ok([])
              else r == NearbyCollected(location, nearby.places.value)
  {
    if geocode.Threw? {
      return Threw;
    }
    var coords := Geocode(geocode.value);
    if coords.None? {
      return Ok([]);
    }
    if nearby.NearbyFailed? || nearby.places.None? || nearby.places.value == [] {
      return Ok([]);
    }
    r := ScanPlaces(location, nearby.places.value);
  }

  // ---------------------------------------------------------------------------
  // Business status
  // ---------------------------------------------------------------------------

  /** The `result` object of a place-details reply: `business_status` is
      `None` when absent and `Some(None)` when null; `openNow` is `None`
      unless `opening_hours.open_now` is present. */
  datatype Details = Details(businessStatus: Option<Option<string>>, openNow: Option<bool>)

  /** The place-details reply: a failed status, or a body that may lack
      `result`. */
  datatype DetailsResponse =
    | DetailsFailed
    | DetailsBody(result: Option<Details>)

  /** The five answers the status mapping can give. */
  predicate IsStatusText(s: string) {
    s in {"Unknown", "Closed Permanently", "Closed Temporarily", "Open", "Closed"}
  }

  /** `GetBusinessStatusAsync(placeId)`. */
  function BusinessStatus(placeId: Option<string>, response: DetailsResponse): (r: string)
    ensures IsStatusText(r)
    ensures IsNullOrWhiteSpace(placeId) || response.DetailsFailed? || response.result.None? ==> r == "Unknown"
  {
    if IsNullOrWhiteSpace(placeId) then "Unknown"
    else match response
      case DetailsFailed => "Unknown"
      case DetailsBody(None) => "Unknown"
      case DetailsBody(Some(d)) =>
        if d.businessStatus == Some(Some("CLOSED_PERMANENTLY")) then "Closed Permanently"
        else if d.businessStatus == Some(Some("CLOSED_TEMPORARILY")) then "Closed Temporarily"
        else if d.openNow.Some? then (if d.openNow.value then "Open" else "Closed")
        else "Unknown"
  }

  /** A permanent or temporary closure wins over the opening hours. */
  lemma ClosureWins(placeId: string, d: Details)
    requires !IsBlank(placeId)
    requires d.businessStatus in {Some(Some("CLOSED_PERMANENTLY")), Some(Some("CLOSED_TEMPORARILY"))}
    ensures BusinessStatus(Some(placeId), DetailsBody(Some(d))) ==
              if d.businessStatus == Some(Some("CLOSED_PERMANENTLY")) then "Closed Permanently" else "Closed Temporarily"
  {
  }

  /** Otherwise `open_now` decides between "Open" and "Closed", and without it
      the status is "Unknown". */
  lemma OpenNowDecides(placeId: string, d: Details)
    requires !IsBlank(placeId)
    requires d.businessStatus !in {Some(Some("CLOSED_PERMANENTLY")), Some(Some("CLOSED_TEMPORARILY"))}
    ensures BusinessStatus(Some(placeId), DetailsBody(Some(d))) ==
              if d.openNow == Some(true) then "Open" else if d.openNow == Some(false) then "Closed" else "Unknown"
  {
  }

  /** `GetBusinessStatusByNameAsync`: "Unknown" when no place id was found,
      otherwise the status of that place. */
  function BusinessStatusByName(placeId: Option<string>, response: DetailsResponse): (r: string)
    ensures IsStatusText(r)
    ensures placeId.None? ==> r == "Unknown"
    ensures placeId.Some? ==> r == BusinessStatus(placeId, response)
  {
    if placeId.None? then "Unknown" else BusinessStatus(placeId, response)
  }
}
