/** The provider search (TruckServices/Controllers/HomeController.cs): parsing
    "City, State, Country", the primary filter over the providers table, the
    union with providers in nearby cities, the paid-first page, the
    enrichment of each provider, the error pages, the image type sniffing and
    the city-suggestion cache. */
module HomeController {
  import opened Common
  import opened Text
  import opened Sorting
  import opened Data
  import LocationMapper
  import GoogleMaps
  import CustomersController

  type City = GoogleMaps.City
  type Variants = LocationMapper.Variants

  /** `pageSize` of the search results. */
  const PageSize := 10

  const NoServicesMessage := "No services found in this area.\r\nTry increasing the search radius or searching a nearby city."

  const FailureMessage := "Something went wrong. Please try again."

  /** The image shown for a provider without a logo. */
  const PlaceholderImage := "https://www.gynprog.com.br/wp-content/uploads/2017/06/wood-blog-placeholder.jpg"

  // ---------------------------------------------------------------------------
  // Parsing the location
  // ---------------------------------------------------------------------------

  predicate NonEmptySegment(s: string) {
    s != []
  }

  /** `Split(',', RemoveEmptyEntries).Select(p => p.Trim())`: empty segments
      are dropped before trimming, so a blank segment survives as "". */
  function Segments(location: string): (parts: seq<string>)
    ensures forall k :: 0 <= k < |parts| ==> Trim(parts[k]) == parts[k]
  {
    var pieces := Split(location, ',');
    var parts := MapFilter(pieces, NonEmptySegment, Trim);
    assert forall k :: 0 <= k < |parts| ==> Trim(parts[k]) == parts[k] by {
      forall k | 0 <= k < |parts| ensures Trim(parts[k]) == parts[k] {
        assert parts[k] in parts;
        var i :| 0 <= i < |pieces| && Trim(pieces[i]) == parts[k];
        TrimIdempotent(pieces[i]);
      }
    }
    parts
  }

  /** The first three segments of the location: city, state and country
      (`None` where the code leaves the variable null). */
  datatype Parsed = Parsed(city: Option<string>, state: Option<string>, country: Option<string>)

  /** Lines 94-105 of `BuildServicesResults`: the segments the search uses. */
  function ParseLocation(location: Option<string>): (r: Parsed)
    ensures IsNullOrWhiteSpace(location) ==> r == Parsed(None, None, None)
    ensures r.city.Some? ==> Trim(r.city.value) == r.city.value
    ensures r.state.Some? ==> Trim(r.state.value) == r.state.value && r.city.Some?
    ensures r.country.Some? ==> Trim(r.country.value) == r.country.value && r.state.Some?
  {
    if IsNullOrWhiteSpace(location) then Parsed(None, None, None)
    else
      var parts := Segments(location.value);
      Parsed(if |parts| > 0 then Some(parts[0]) else None,
             if |parts| > 1 then Some(parts[1]) else None,
             if |parts| > 2 then Some(parts[2]) else None)
  }

  /** What the filters use: the city, and the variant sets of lines 107-111
      (`None` where the code leaves the variable null). */
  datatype Criteria = Criteria(city: Option<string>, stateVariants: Option<Variants>, countryVariants: Option<Variants>)

  function CriteriaOf(location: Option<string>): Criteria {
    var p := ParseLocation(location);
    Criteria(p.city,
             if p.state.Some? then Some(LocationMapper.GetStateVariants(p.state)) else None,
             if p.country.Some? then Some(LocationMapper.GetCountryVariants(p.country)) else None)
  }

  /** The segments of a comma-joined text are its non-empty pieces, trimmed. */
  lemma SegmentsOfJoin(pieces: seq<string>)
    requires |pieces| >= 1
    requires forall i :: 0 <= i < |pieces| ==> ',' !in pieces[i]
    ensures Segments(Join(pieces, ',')) == MapFilter(pieces, NonEmptySegment, Trim)
  {
    SplitJoin(pieces, ',');
  }

  /** Parsing "a, b, c, ..." takes the city from the first piece and the
      variant sets from the second and third, each trimmed; further pieces are
      ignored. */
  lemma ParseOfJoin(pieces: seq<string>)
    requires |pieces| >= 1
    requires forall i :: 0 <= i < |pieces| ==> ',' !in pieces[i] && pieces[i] != []
    requires !IsBlank(pieces[0])
    ensures ParseLocation(Some(Join(pieces, ','))) ==
              Parsed(Some(Trim(pieces[0])),
                     if |pieces| > 1 then Some(Trim(pieces[1])) else None,
                     if |pieces| > 2 then Some(Trim(pieces[2])) else None)
  {
    JoinNotBlank(pieces);
    SegmentsOfCleanJoin(pieces);
  }

  /** Without empty pieces, the segments are the pieces, trimmed. */
  lemma SegmentsOfCleanJoin(pieces: seq<string>)
    requires |pieces| >= 1
    requires forall i :: 0 <= i < |pieces| ==> ',' !in pieces[i] && pieces[i] != []
    ensures |Segments(Join(pieces, ','))| == |pieces|
    ensures forall k :: 0 <= k < |pieces| ==> Segments(Join(pieces, ','))[k] == Trim(pieces[k])
  {
    SegmentsOfJoin(pieces);
    MapFilterKeepsAll(pieces, NonEmptySegment, Trim);
  }

  /** A comma-joined text whose first piece is not blank is not blank. */
  lemma JoinNotBlank(pieces: seq<string>)
    requires |pieces| >= 1 && !IsBlank(pieces[0])
    ensures !IsBlank(Join(pieces, ','))
  {
    var location := Join(pieces, ',');
    assert pieces[0] <= location;
    BlankMeansAllWhite(pieces[0]);
    BlankMeansAllWhite(location);
  }

  // ---------------------------------------------------------------------------
  // Filters
  // ---------------------------------------------------------------------------

  /** `x.City != null && x.City.ToLower() == city.ToLower()`. */
  predicate CityMatches(city: string, column: Option<string>) {
    column.Some? && Lower(column.value) == Lower(city)
  }

  /** The state or country condition: applied only when the variant set is
      present and non-empty, and then the column must be non-null and in it. */
  predicate InVariants(v: Option<Variants>, column: Option<string>) {
    v.None? || !v.value.NonEmpty() || (column.Some? && v.value.Has(column.value))
  }

  /** The primary filter of lines 118-125. */
  predicate PrimaryMatch(q: Criteria, x: Customer) {
    && (IsNullOrEmpty(q.city) || CityMatches(q.city.value, x.city))
    && InVariants(q.stateVariants, x.state)
    && InVariants(q.countryVariants, x.country)
  }

  /** The filter for one nearby city: the candidate's own city, but the state
      and country sets parsed from the searched location. */
  predicate NearbyMatch(q: Criteria, c: City, x: Customer) {
    && c.city != []
    && CityMatches(c.city, x.city)
    && InVariants(q.stateVariants, x.state)
    && InVariants(q.countryVariants, x.country)
  }

  /** The rows of the primary query. */
  function PrimaryRows(table: seq<Customer>, q: Criteria): set<Customer> {
    set x | x in table && PrimaryMatch(q, x)
  }

  /** The rows of the query for one nearby city. */
  function CandidateRows(table: seq<Customer>, q: Criteria, c: City): set<Customer> {
    set x | x in table && NearbyMatch(q, c, x)
  }

  /** The rows `nearestQuery` accumulates over the nearby cities. */
  function NearbyRows(table: seq<Customer>, q: Criteria, cities: seq<City>): set<Customer> {
    set x | x in table && exists c :: c in cities && NearbyMatch(q, c, x)
  }

  /** `finalQuery`: the primary rows, united with the nearby rows when the
      location is non-empty and the nearby lookup did not throw. */
  function FinalRows(table: seq<Customer>, location: Option<string>, nearby: Fetch<seq<City>>): (r: set<Customer>)
    ensures PrimaryRows(table, CriteriaOf(location)) <= r
    ensures IsNullOrEmpty(location) || nearby.Threw? ==> r == PrimaryRows(table, CriteriaOf(location))
    ensures forall x :: x in r <==>
              && x in table
              && (|| PrimaryMatch(CriteriaOf(location), x)
                  || (!IsNullOrEmpty(location) && nearby.Ok?
                      && exists c :: c in nearby.value && NearbyMatch(CriteriaOf(location), c, x)))
  {
    var q := CriteriaOf(location);
    if !IsNullOrEmpty(location) && nearby.Ok? then PrimaryRows(table, q) + NearbyRows(table, q, nearby.value)
    else PrimaryRows(table, q)
  }

  /** With no location at all, every provider is found. */
  lemma NoLocationFindsAll(table: seq<Customer>, location: Option<string>, nearby: Fetch<seq<City>>)
    requires IsNullOrWhiteSpace(location)
    ensures FinalRows(table, location, nearby) == set x | x in table
  {
    assert CriteriaOf(location) == Criteria(None, None, None);
    assert forall x :: PrimaryMatch(Criteria(None, None, None), x);
  }

  /** Adding one more nearby city adds exactly the rows its own filter keeps. */
  lemma NearbyRowsStep(table: seq<Customer>, q: Criteria, cities: seq<City>, c: City)
    ensures NearbyRows(table, q, cities + [c]) == NearbyRows(table, q, cities) + CandidateRows(table, q, c)
  {
    forall x | x in table && exists d :: d in cities + [c] && NearbyMatch(q, d, x)
      ensures (exists d :: d in cities && NearbyMatch(q, d, x)) || NearbyMatch(q, c, x)
    {
      var d :| d in cities + [c] && NearbyMatch(q, d, x);
      assert d in cities || d == c;
    }
  }

  // ---------------------------------------------------------------------------
  // The queries, composed step by step
  // ---------------------------------------------------------------------------

  /** The state or country refinement of a query, applied only when the set
      is present and non-empty. */
  method RefineByVariants(query: set<Customer>, v: Option<Variants>, column: Customer -> Option<string>)
    returns (r: set<Customer>)
    ensures forall x :: x in r <==> x in query && InVariants(v, column(x))
  {
    r := query;
    if v.Some? && v.value.NonEmpty() {
      r := set x | x in query && column(x).Some? && v.value.Has(column(x).value);
    }
  }

  function StateOf(x: Customer): Option<string> {
    x.state
  }

  function CountryOf(x: Customer): Option<string> {
    x.country
  }

  /** Lines 115-125: the primary query, refined one condition at a time. */
  method PrimaryQuery(table: seq<Customer>, q: Criteria) returns (query: set<Customer>)
    ensures query == PrimaryRows(table, q)
  {
    query := set x | x in table;
    if !IsNullOrEmpty(q.city) {
      query := set x | x in query && CityMatches(q.city.value, x.city);
    }
    query := RefineByVariants(query, q.stateVariants, StateOf);
    query := RefineByVariants(query, q.countryVariants, CountryOf);
  }

  /** Lines 170-186: the query for one nearby city. */
  method CandidateQuery(table: seq<Customer>, q: Criteria, c: City) returns (rows: set<Customer>)
    requires c.city != []
    ensures rows == CandidateRows(table, q, c)
  {
    rows := set x | x in table && CityMatches(c.city, x.city);
    rows := RefineByVariants(rows, q.stateVariants, StateOf);
    rows := RefineByVariants(rows, q.countryVariants, CountryOf);
  }

  /** The `foreach` of lines 145-189 over the nearby cities. Each iteration
      parses the location again and guards the state and country filters on
      that copy; the copy equals the sets parsed at the top, which are the
      ones the filters use, so `q` stands for both. */
  method CollectNearbyRows(table: seq<Customer>, q: Criteria, cities: seq<City>)
    returns (nearest: set<Customer>)
    ensures nearest == NearbyRows(table, q, cities)
  {
    nearest := {};
    for i := 0 to |cities|
      invariant nearest == NearbyRows(table, q, cities[..i])
    {
      assert cities[..i + 1] == cities[..i] + [cities[i]];
      NearbyRowsStep(table, q, cities[..i], cities[i]);
      var candidate := cities[i];
      if candidate.city == [] {
        assert CandidateRows(table, q, candidate) == {};
        continue;
      }
      var rows := CandidateQuery(table, q, candidate);
      nearest := nearest + rows;
    }
    assert cities[..|cities|] == cities;
  }

  /** Lines 94-198: the primary query, united with the nearby rows unless the
      lookup throws (the exception is caught and logged). */
  method BuildFinalRows(table: seq<Customer>, location: Option<string>, nearby: Fetch<seq<City>>)
    returns (rows: set<Customer>)
    ensures rows == FinalRows(table, location, nearby)
  {
    var q := CriteriaOf(location);
    rows := PrimaryQuery(table, q);
    if !IsNullOrEmpty(location) {
      if nearby.Ok? {
        var nearest := CollectNearbyRows(table, q, nearby.value);
        rows := rows + nearest;
      }
    }
  }

  // ---------------------------------------------------------------------------
  // Ordering and the page
  // ---------------------------------------------------------------------------

  predicate Paid(x: Customer) {
    x.isPaid
  }

  predicate Unpaid(x: Customer) {
    !x.isPaid
  }

  /** `OrderByDescending(x => x.IsPaid)`, a stable partition: the paid rows,
      then the unpaid ones, each in input order. */
  function PaidFirst(s: seq<Customer>): (r: seq<Customer>)
    ensures multiset(r) == multiset(s)
    ensures forall i, j :: 0 <= i < j < |r| && r[j].isPaid ==> r[i].isPaid
  {
    var paid := Filter(s, Paid);
    var unpaid := Filter(s, Unpaid);
    FilterComplement(s, Paid, Unpaid);
    assert forall k :: 0 <= k < |paid| ==> paid[k] in paid;
    assert forall k :: 0 <= k < |unpaid| ==> unpaid[k] in unpaid;
    paid + unpaid
  }

  /** The final rows in the order `randomOrder` lists them. */
  function InRandomOrder(rows: set<Customer>, randomOrder: seq<Customer>): (r: seq<Customer>)
    ensures forall x :: x in r <==> x in rows && x in randomOrder
    ensures NoDuplicates(randomOrder) ==> NoDuplicates(r)
  {
    var r := Filter(randomOrder, x => x in rows);
    assert NoDuplicates(randomOrder) ==> NoDuplicates(r) by {
      if NoDuplicates(randomOrder) {
        FilterNoDuplicates(randomOrder, x => x in rows);
      }
    }
    r
  }

  /** The final rows in the order the database returns them. `randomOrder`
      stands for the order `ThenBy(x => EF.Functions.Random())` draws. */
  function OrderedRows(rows: set<Customer>, randomOrder: seq<Customer>): (r: seq<Customer>)
    ensures forall x :: x in r <==> x in rows && x in randomOrder
    ensures forall i, j :: 0 <= i < j < |r| && r[j].isPaid ==> r[i].isPaid
    ensures NoDuplicates(randomOrder) ==> NoDuplicates(r)
  {
    var kept := InRandomOrder(rows, randomOrder);
    var r := PaidFirst(kept);
    assert forall x :: x in r <==> x in multiset(kept);
    assert NoDuplicates(kept) ==> NoDuplicates(r) by {
      if NoDuplicates(kept) {
        NoDuplicatesPermutation(kept, r);
      }
    }
    r
  }

  /** When the random order ranges over the whole table once each, the
      ordered rows are exactly the final rows, each once. */
  lemma OrderedCount(rows: set<Customer>, table: seq<Customer>, randomOrder: seq<Customer>)
    requires NoDuplicates(randomOrder) && forall x :: x in randomOrder <==> x in table
    requires forall x :: x in rows ==> x in table
    ensures |OrderedRows(rows, randomOrder)| == |rows|
  {
    var r := OrderedRows(rows, randomOrder);
    NoDuplicatesCardinality(r);
    assert (set x | x in r) == rows;
  }

  /** `Skip((page - 1) * pageSize).Take(pageSize)` in 32-bit arithmetic. */
  function PageRows(ordered: seq<Customer>, page: int): (r: seq<Customer>)
    ensures |r| <= PageSize
    ensures forall x :: x in r ==> x in ordered
    ensures 1 <= page && (page - 1) * PageSize <= |ordered| && IsInt32((page - 1) * PageSize) ==>
              r == ordered[(page - 1) * PageSize..if page * PageSize <= |ordered| then page * PageSize else |ordered|]
  {
    var offset := CustomersController.PageOffset(page, PageSize);
    assert IsInt32((page - 1) * PageSize) && 1 <= page ==> offset == (page - 1) * PageSize;
    var r := SkipTake(ordered, offset, PageSize);
    assert forall x :: x in r ==> x in ordered by {
      forall x | x in r ensures x in ordered {
        var i :| 0 <= i < |r| && r[i] == x;
        SkipTakeElement(ordered, offset, PageSize, i);
      }
    }
    r
  }

  // ---------------------------------------------------------------------------
  // Enrichment
  // ---------------------------------------------------------------------------

  /** `GetImageMimeType(bytes)`: PNG and JPEG are told apart by their first
      bytes; anything else is reported as PNG. */
  function GetImageMimeType(bytes: seq<byte>): (r: string)
    ensures r == "image/png" || r == "image/jpeg"
    ensures r == "image/jpeg" <==> |bytes| >= 4 && bytes[0] == 0xFF && bytes[1] == 0xD8
    ensures |bytes| >= 4 && bytes[..4] == [0x89, 0x50, 0x4E, 0x47] ==> r == "image/png"
  {
    if |bytes| >= 4 then
      if bytes[0] == 0x89 && bytes[1] == 0x50 && bytes[2] == 0x4E && bytes[3] == 0x47 then "image/png"
      else if bytes[0] == 0xFF && bytes[1] == 0xD8 then "image/jpeg"
      else "image/png"
    else "image/png"
  }

  /** A JPEG header shorter than four bytes is not recognised. */
  lemma ShortJpegIsPng(bytes: seq<byte>)
    requires |bytes| < 4
    ensures GetImageMimeType(bytes) == "image/png"
  {
  }

  /** `ImageBase64`: a data URI over the logo, or the placeholder URL.
      `base64` stands for `Convert.ToBase64String`. */
  function ImageText(image: Option<seq<byte>>, base64: seq<byte> -> string): (r: string)
    ensures image.None? ==> r == PlaceholderImage
    ensures image.Some? ==> "data:" + GetImageMimeType(image.value) + ";base64," <= r
  {
    if image.None? then PlaceholderImage
    else
      var prefix := "data:" + GetImageMimeType(image.value) + ";base64,";
      assert (prefix + base64(image.value))[..|prefix|] == prefix;
      prefix + base64(image.value)
  }

  predicate IsActive(s: Service) {
    s.isActive
  }

  function ServiceName(s: Service): string {
    s.name
  }

  /** `CompanyServices.Where(cs => cs.Service.IsActive).Select(cs => cs.Service.Name)`. */
  function ActiveServiceNames(services: seq<Service>): (r: seq<string>)
    ensures |r| <= |services|
    ensures forall n :: n in r <==> exists s :: s in services && s.isActive && s.name == n
  {
    var r := MapFilter(services, IsActive, ServiceName);
    assert forall n :: n in r <==> exists i :: 0 <= i < |services| && services[i].isActive && services[i].name == n;
    r
  }

  /** One result card (`ServicesProviders`). */
  datatype Provider = Provider(
    id: int,
    companyName: Option<string>,
    streetAddress: Option<string>,
    city: Option<string>,
    state: Option<string>,
    country: Option<string>,
    mobileNumber: Option<string>,
    secondMobileNumber: Option<string>,
    email: Option<string>,
    source: Option<string>,
    isPaid: bool,
    image: string,
    status: string,
    services: seq<string>)

  /** The card for one row, given its business status. */
  function ProviderOf(x: Customer, status: string, base64: seq<byte> -> string): Provider {
    Provider(x.id, x.companyName, x.streetAddress, x.city, x.state, x.country, x.mobileNumber,
             x.secondMobileNumber, x.email, x.source, x.isPaid, ImageText(x.image, base64), status,
             ActiveServiceNames(x.services))
  }

  /** The cards for the page, in order; `statusOf` stands for
      `GetBusinessStatusByNameAsync`, and one that throws makes the whole
      enrichment throw. */
  function Enriched(rows: seq<Customer>, statusOf: Customer -> Fetch<string>, base64: seq<byte> -> string)
    : (r: Fetch<seq<Provider>>)
    ensures r.Ok? ==> |r.value| == |rows|
  {
    if rows == [] then Ok([])
    else
      var n := |rows| - 1;
      match Enriched(rows[..n], statusOf, base64)
      case Threw => Threw
      case Ok(cards) =>
        match statusOf(rows[n])
        case Threw => Threw
        case Ok(status) => Ok(cards + [ProviderOf(rows[n], status, base64)])
  }

  /** Enrichment throws exactly when some row's status lookup throws, and
      otherwise gives each row its card in order. */
  lemma {:induction false} EnrichedMeaning(rows: seq<Customer>, statusOf: Customer -> Fetch<string>, base64: seq<byte> -> string)
    ensures Enriched(rows, statusOf, base64).Threw? <==> exists x :: x in rows && statusOf(x).Threw?
    ensures Enriched(rows, statusOf, base64).Ok? ==>
              forall i :: 0 <= i < |rows| ==>
                Enriched(rows, statusOf, base64).value[i] == ProviderOf(rows[i], statusOf(rows[i]).value, base64)
  {
    if rows != [] {
      var n := |rows| - 1;
      EnrichedMeaning(rows[..n], statusOf, base64);
      assert forall i :: 0 <= i < n ==> rows[..n][i] == rows[i];
      assert rows == rows[..n] + [rows[n]];
    }
  }

  // ---------------------------------------------------------------------------
  // The result page
  // ---------------------------------------------------------------------------

  /** What `BuildServicesResults` hands to its view (`ServiceResultsViewModel`). */
  datatype ResultsView = ResultsView(
    providers: seq<Provider>,
    currentPage: int,
    totalCount: nat,
    pageSize: int,
    location: Option<string>,
    service: Option<string>,
    radius: int,
    errorMessage: string)
  {
    /** `TotalPages`: the ceiling of `TotalCount / PageSize`. */
    function TotalPages(): (r: int)
      requires pageSize > 0
      ensures (r - 1) * pageSize < totalCount <= r * pageSize
    {
      CustomersController.CeilDiv(totalCount, pageSize)
    }
  }

  /** The page the outer `catch` shows. */
  function FailurePage(radius: int): ResultsView {
    ResultsView([], 1, 0, PageSize, None, None, radius, FailureMessage)
  }

  /** The rows on the requested page: at most ten final rows, paid before
      unpaid. */
  function PageOf(table: seq<Customer>, location: Option<string>, nearby: Fetch<seq<City>>,
                  randomOrder: seq<Customer>, page: int): (r: seq<Customer>)
    ensures |r| <= PageSize
    ensures forall x :: x in r ==> x in FinalRows(table, location, nearby)
    ensures forall i, j :: 0 <= i < j < |r| && r[j].isPaid ==> r[i].isPaid
  {
    var ordered := OrderedRows(FinalRows(table, location, nearby), randomOrder);
    var r := PageRows(ordered, page);
    assert forall i, j :: 0 <= i < j < |r| && r[j].isPaid ==> r[i].isPaid by {
      forall i, j | 0 <= i < j < |r| && r[j].isPaid ensures r[i].isPaid {
        PageKeepsOrder(ordered, page, i, j);
      }
    }
    r
  }

  /** The view for the page's cards, or the failure page when building them
      threw. */
  function ViewOf(cards: Fetch<seq<Provider>>, totalCount: nat, page: int, location: Option<string>,
                  service: Option<string>, radius: int): (vm: ResultsView)
    ensures vm == FailurePage(radius) <==> cards.Threw?
    ensures cards.Ok? ==> (vm.errorMessage == NoServicesMessage <==> totalCount == 0)
  {
    assert NoServicesMessage != FailureMessage && "" != FailureMessage && NoServicesMessage != "";
    match cards
    case Threw => FailurePage(radius)
    case Ok(providers) =>
      ResultsView(providers, page, totalCount, PageSize, location, service, radius,
                  if totalCount == 0 then NoServicesMessage else "")
  }

  /** `BuildServicesResults(location, service, page, radius)` given the table,
      the nearby lookup's outcome, the random order and the status lookup. */
  function ServicesResults(
    table: seq<Customer>, location: Option<string>, service: Option<string>, page: int, radius: int,
    nearby: Fetch<seq<City>>, randomOrder: seq<Customer>,
    statusOf: Customer -> Fetch<string>, base64: seq<byte> -> string): ResultsView
  {
    ViewOf(Enriched(PageOf(table, location, nearby, randomOrder, page), statusOf, base64),
           |FinalRows(table, location, nearby)|, page, location, service, radius)
  }

  /** The imperative body: build the final rows, count them, order and cut the
      page, enrich it, and fall back to the failure page on an exception. */
  method BuildServicesResults(
    table: seq<Customer>, location: Option<string>, service: Option<string>, page: int, radius: int,
    nearby: Fetch<seq<City>>, randomOrder: seq<Customer>,
    statusOf: Customer -> Fetch<string>, base64: seq<byte> -> string)
    returns (vm: ResultsView)
    ensures vm == ServicesResults(table, location, service, page, radius, nearby, randomOrder, statusOf, base64)
  {
    var rows := BuildFinalRows(table, location, nearby);
    var totalCount := |rows|;
    var ordered := OrderedRows(rows, randomOrder);
    var pageRows := PageRows(ordered, page);
    var cards := Enriched(pageRows, statusOf, base64);
    if cards.Threw? {
      return FailurePage(radius);
    }
    vm := ResultsView(cards.value, page, totalCount, PageSize, location, service, radius,
                      if totalCount == 0 then NoServicesMessage else "");
  }

  /** The page is the failure page exactly when a status lookup on the page
      throws. */
  lemma FailureOnlyWhenStatusThrows(
    table: seq<Customer>, location: Option<string>, service: Option<string>, page: int, radius: int,
    nearby: Fetch<seq<City>>, randomOrder: seq<Customer>,
    statusOf: Customer -> Fetch<string>, base64: seq<byte> -> string)
    ensures ServicesResults(table, location, service, page, radius, nearby, randomOrder, statusOf, base64) == FailurePage(radius)
            <==> exists x :: x in PageOf(table, location, nearby, randomOrder, page) && statusOf(x).Threw?
  {
    EnrichedMeaning(PageOf(table, location, nearby, randomOrder, page), statusOf, base64);
  }

  /** Otherwise the page counts every final row (each appears once in the
      order), says "No services found" exactly when there are none, echoes the
      request, and shows one card per row of the page, in order. */
  lemma ResultsPageContents(
    table: seq<Customer>, location: Option<string>, service: Option<string>, page: int, radius: int,
    nearby: Fetch<seq<City>>, randomOrder: seq<Customer>,
    statusOf: Customer -> Fetch<string>, base64: seq<byte> -> string)
    requires NoDuplicates(randomOrder) && forall x :: x in randomOrder <==> x in table
    requires ServicesResults(table, location, service, page, radius, nearby, randomOrder, statusOf, base64) != FailurePage(radius)
    ensures var vm := ServicesResults(table, location, service, page, radius, nearby, randomOrder, statusOf, base64);
            var pageRows := PageOf(table, location, nearby, randomOrder, page);
            && vm.totalCount == |OrderedRows(FinalRows(table, location, nearby), randomOrder)|
            && (vm.errorMessage == NoServicesMessage <==> vm.totalCount == 0)
            && vm.currentPage == page && vm.pageSize == PageSize
            && vm.location == location && vm.service == service && vm.radius == radius
            && |vm.providers| == |pageRows|
            && forall i :: 0 <= i < |pageRows| ==>
                 statusOf(pageRows[i]).Ok? && vm.providers[i] == ProviderOf(pageRows[i], statusOf(pageRows[i]).value, base64)
  {
    OrderedCount(FinalRows(table, location, nearby), table, randomOrder);
    EnrichedMeaning(PageOf(table, location, nearby, randomOrder, page), statusOf, base64);
  }

  /** A page keeps the relative order of the rows it was cut from. */
  lemma PageKeepsOrder(ordered: seq<Customer>, page: int, i: int, j: int)
    requires forall a, b :: 0 <= a < b < |ordered| && ordered[b].isPaid ==> ordered[a].isPaid
    requires 0 <= i < j < |PageRows(ordered, page)|
    ensures PageRows(ordered, page)[j].isPaid ==> PageRows(ordered, page)[i].isPaid
  {
    var offset := CustomersController.PageOffset(page, PageSize);
    OffsetInSlice(ordered, offset, PageSize, i, j);
  }

  // ---------------------------------------------------------------------------
  // City suggestions and their cache
  // ---------------------------------------------------------------------------

  /** A cache entry, tagged with the type it was stored as: `SearchCities`
      stores a list of an anonymous type, and reads back a `List<object>`,
      which a stored anonymous list never is. */
  datatype CachedValue = AnonymousList(cities: seq<City>) | ObjectList(items: seq<City>)

  /** What `AutocompleteCitiesAsync` promises about its answer. */
  ghost predicate IsAutocompleteAnswer(term: Option<string>, response: GoogleMaps.AutocompleteResponse, r: seq<City>) {
    && NoDuplicates(r)
    && SortedBy(r, GoogleMaps.CityLe)
    && forall c :: c in r <==>
         && !GoogleMaps.TermTooShort(term) && response.AutocompleteBody? && response.predictions.Some?
         && exists i :: 0 <= i < |response.predictions.value|
                        && GoogleMaps.Kept(response.predictions.value[i])
                        && GoogleMaps.Candidate(response.predictions.value[i]) == c
  }

  /** The static `MemoryCache` of `SearchCities`, keyed by the lowercased term.
      The six-hour lifetime is not modelled. */
  class CitySearchCache {
    var entries: map<string, CachedValue>

    /** Every entry was stored by `SearchCities`. */
    predicate Valid()
      reads this
    {
      forall k :: k in entries ==> entries[k].AnonymousList?
    }

    constructor()
      ensures Valid() && entries == map[]
    {
      entries := map[];
    }

    /** `TryGetValue(key, out List<object> cached)`: only an entry stored as
        a `List<object>` is found. */
    function TypedRead(key: string): (r: Option<seq<City>>)
      reads this
      ensures Valid() ==> r.None?
    {
      if key in entries && entries[key].ObjectList? then Some(entries[key].items) else None
    }

    /** `SearchCities(term)`, given the reply the autocomplete request would
        get. A blank term touches neither the cache nor the service. */
    method SearchCities(term: Option<string>, response: GoogleMaps.AutocompleteResponse) returns (r: seq<City>)
      modifies this`entries
      ensures IsNullOrWhiteSpace(term) ==> r == [] && entries == old(entries)
      ensures !IsNullOrWhiteSpace(term) && old(TypedRead(Lower(term.value))).Some? ==>
                r == old(TypedRead(Lower(term.value))).value && entries == old(entries)
      ensures !IsNullOrWhiteSpace(term) && old(TypedRead(Lower(term.value))).None? ==>
                IsAutocompleteAnswer(term, response, r) && entries == old(entries)[Lower(term.value) := AnonymousList(r)]
      ensures old(Valid()) ==> Valid()
    {
      if IsNullOrWhiteSpace(term) {
        return [];
      }
      var cacheKey := Lower(term.value);
      var cached := TypedRead(cacheKey);
      if cached.Some? {
        return cached.value;
      }
      var cities := GoogleMaps.AutocompleteCities(term, response);
      entries := entries[cacheKey := AnonymousList(cities)];
      r := cities;
    }
  }

  /** While the cache holds only what `SearchCities` stored, every non-blank
      term is answered by the service and stored again. */
  lemma CacheNeverHits(cache: CitySearchCache, term: string)
    requires cache.Valid()
    ensures cache.TypedRead(Lower(term)).None?
  {
  }
}
