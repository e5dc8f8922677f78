# TruckServices provider search, in Dafny

TruckServices is an ASP.NET Core site that lists roadside truck-service
providers. A visitor types "City, State, Country". The site finds the
providers registered in that city. It adds providers in nearby cities that
Google Maps reports. It shows them ten to a page, paid providers first, each
with its logo and its live business status. Administrators keep the provider
records and the list of service tags.

This project models the decision logic of that core and proves what it
promises:

- **`HomeController`**
  - parsing the location;
  - the primary and nearby-city queries and their union;
  - the paid-first page;
  - the enrichment of each card;
  - the error pages;
  - image type sniffing;
  - the city-suggestion cache.
- **`LocationMapper`**: the state and country tables and the variant sets
  built from them.
- **`GoogleMaps`**: autocomplete, the nearby-city scan, the two reverse
  geocoders and the business-status mapping. Each works over replies that
  were already fetched and parsed.
- **`Geoapify`**: the first-feature geocoder and the "nearest different
  city" scan.
- **`CustomersController`**: the searchable, id-ordered, paged listing, and
  Create, Edit, Delete and GetImage.
- **`ServicesController`**: the slug generator, and Index, Create, Update
  and Delete over the Services table.

Supporting modules:

- `Common`: `Option`, `Fetch` (a value or an exception), bytes, and 32-bit
  wrap-around.
- `Text`: the .NET string operations the code calls.
- `Sorting`: the LINQ operators the code calls: `OrderBy`, `Distinct`,
  `Where`/`Select` and `Skip`/`Take`.
- `Data`: the entities and key lookup.

**How the model is written**

- **Mutable state**
  - Database tables are fields of classes (`CustomerTable`,
    `ServiceCatalog`) that the action methods update.
  - The suggestion cache is a class holding a `map`.
- **Loops**: each `foreach` of the source is a `method` with a loop. It is
  proved equal to a function, and lemmas about that function state what the
  source promises.
- **Queries**: an `IQueryable` that is refined with `Where` and merged with
  `Union` is a `set` of rows.
- **Outside calls**: every HTTP reply is a parameter of the datatype its
  JSON parses to. Any reply that throws is the `Threw` outcome of `Fetch`.

## Model

| member | source | states |
|---|---|---|
| Common.Wrap32 | TruckServices/Controllers/CustomersController.cs:38 | the result lies in the `int` range and differs from the input by a multiple of 2^32 (unchecked `(page - 1) * pageSize`) |
| Text.TrimStart | TruckServices/Services/LocationMapper.cs:55-57 | the result is a suffix of the input; everything dropped is white space; it does not start with white space |
| Text.TrimEnd | TruckServices/Services/LocationMapper.cs:55-57 | the result is a prefix of the input; everything dropped is white space; it does not end with white space |
| Text.Trim | TruckServices/Services/LocationMapper.cs:55-57 | the result is no longer than the input and has no white space at either end |
| Text.TrimIdempotent | TruckServices/Controllers/HomeController.cs:100-102 | trimming twice is trimming once |
| Text.TrimEmptyIffBlank | TruckServices/Services/LocationMapper.cs:52-57 | `Trim(s)` is empty exactly when `IsNullOrWhiteSpace` holds for `s` |
| Text.BlankMeansAllWhite | TruckServices/Services/LocationMapper.cs:52 | a string is blank exactly when every character is white space |
| Text.TrimAfterSpaces | TruckServices/Services/LocationMapper.cs:55 | leading white space before a trimmed string is removed by `Trim` |
| Text.Lower | TruckServices/Controllers/HomeController.cs:119 | same length; each character is lower-cased (ASCII letters) |
| Text.Upper | TruckServices/Services/LocationMapper.cs:98 | same length; each character is upper-cased (ASCII letters) |
| Text.LowerIdempotent | TruckServices/Controllers/HomeController.cs:43 | lower-casing a lower-cased key changes nothing |
| Text.ContainsIffOccurs | TruckServices/Controllers/CustomersController.cs:28-31 | `Contains` holds exactly when the needle occurs at some offset of the text |
| Text.ContainsEmpty | TruckServices/Services/GeoapifyService.cs:62 | the empty string is contained in every string, so an empty city name is always skipped |
| Text.Split | TruckServices/Controllers/HomeController.cs:100 | at least one segment, none holds the separator, and joining them with the separator gives back the input |
| Text.SplitJoin | TruckServices/Controllers/HomeController.cs:100 | splitting a comma-joined list of comma-free segments gives the segments back |
| Sorting.SortBy | TruckServices/Services/GoogleMapsService.cs:86 | `OrderBy`: the result is sorted by the comparer and is a permutation of the input |
| Sorting.FilterInsert | TruckServices/Services/GoogleMapsService.cs:86 | inserting an element puts it before every element with an equal key and keeps the order within every class of equal keys |
| Sorting.SortByStable | TruckServices/Services/GoogleMapsService.cs:86 | `OrderBy` is stable: elements with equal keys keep their input order |
| Sorting.Distinct | TruckServices/Services/GoogleMapsService.cs:84-85 | no duplicates, same elements as the input |
| Sorting.DistinctFirstOccurrences | TruckServices/Services/GoogleMapsService.cs:84-85 | `Distinct` lists first occurrences in input order: anything listed before `x` occurs in the input before every occurrence of `x` |
| Sorting.DistinctOfDistinct | TruckServices/Services/GoogleMapsService.cs:84-85 | a duplicate-free sequence is its own `Distinct` |
| Sorting.Filter | TruckServices/Controllers/HomeController.cs:232 | `Where`: keeps exactly the elements satisfying the predicate, as a sub-multiset of the input |
| Sorting.MapFilter | TruckServices/Controllers/HomeController.cs:231-234 | `Where(...).Select(...)`: the result holds exactly the images of the kept elements |
| Sorting.FilterComplement | TruckServices/Controllers/HomeController.cs:208 | splitting rows into paid and unpaid loses and adds nothing (multisets add up) |
| Sorting.NoDuplicatesPermutation | TruckServices/Controllers/HomeController.cs:207-209 | a permutation of a duplicate-free sequence is duplicate-free |
| Sorting.NoDuplicatesCardinality | TruckServices/Controllers/HomeController.cs:202 | a duplicate-free sequence is as long as the set of its elements |
| Sorting.StrKeyIsTotalPreorder | TruckServices/Controllers/ServicesController.cs:25 | ordering by a string key with the ordinal order is total and transitive |
| Sorting.IntKeyIsTotalPreorder | TruckServices/Controllers/CustomersController.cs:37 | ordering by an integer key is total and transitive |
| Sorting.SkipTake | TruckServices/Controllers/CustomersController.cs:38-39 | `Skip(n).Take(m)` with LINQ clamping: the slice of the input starting at the clamped offset, at most `m` long |
| Sorting.OffsetInSlice | TruckServices/Controllers/CustomersController.cs:36-40 | two positions of a page are two positions of the whole sequence, in the same order |
| Sorting.SkipTakeElement | TruckServices/Controllers/HomeController.cs:210-211 | every element of a page is an element of the whole sequence |
| Data.FindIndex | TruckServices/Controllers/CustomersController.cs:92-93 | `FindAsync`: `None` exactly when no row has the key; otherwise a position whose row has the key |
| Data.RemoveAt | TruckServices/Controllers/CustomersController.cs:165 | the row at `k` is removed and the others keep their order |
| Data.RemoveAtKey | TruckServices/Controllers/ServicesController.cs:93 | with unique keys, after the removal no row has the key and every other row remains |
| LocationMapper.Lookup | TruckServices/Services/LocationMapper.cs:55 | `TryGetValue`: `None` exactly when no key matches under the comparer; otherwise the value of a matching entry |
| LocationMapper.LookupOwnKey | TruckServices/Services/LocationMapper.cs:5-32 | in a table with distinct keys each entry is found under its own key |
| LocationMapper.LookupFirst | TruckServices/Services/LocationMapper.cs:73-82 | a lookup returns the first entry whose key matches |
| LocationMapper.VariantGroup | TruckServices/Services/LocationMapper.cs:34-47 | the group holds exactly the keys and values of the entries whose value equals the canonical name ignoring case |
| LocationMapper.VariantGroupIgnoresCase | TruckServices/Services/LocationMapper.cs:41-46 | the group depends on the canonical name only up to case |
| LocationMapper.GroupOf | TruckServices/Services/LocationMapper.cs:67 | a group is found exactly when some value equals the name ignoring case, and it is a non-empty case-insensitive set |
| LocationMapper.Canonical | TruckServices/Services/LocationMapper.cs:50-58 | null exactly for blank input; the mapped value when the trimmed input is a key, else the trimmed input |
| LocationMapper.VariantsOf | TruckServices/Services/LocationMapper.cs:60-70 | empty exactly for blank input; the trimmed input alone when the canonical form has no group |
| LocationMapper.MapState | TruckServices/Services/LocationMapper.cs:97-98 | the name of the upper-cased code, or the input exactly as given when it is no code |
| LocationMapper.StateMapWellShaped | TruckServices/Services/LocationMapper.cs:5-32 | every entry pairs a two-letter upper-case code with a longer name that starts and ends with a letter |
| LocationMapper.StateMapDistinct | TruckServices/Services/LocationMapper.cs:5-32 | no two entries share a code, so the dictionary initialiser does not throw |
| LocationMapper.NameIsTrimmed | TruckServices/Services/LocationMapper.cs:5-32 | a full name is its own trim and is not blank |
| LocationMapper.CodeIsTrimmed | TruckServices/Services/LocationMapper.cs:5-32 | a code is its own trim and is not blank |
| LocationMapper.VariantsHaveInput | TruckServices/Services/LocationMapper.cs:60-70 | the variants of any non-blank input accept the trimmed input itself |
| LocationMapper.StateCodeMapsToName | TruckServices/Services/LocationMapper.cs:50-58 | a code, padded or not, maps to its full name |
| LocationMapper.StateNameMapsToItself | TruckServices/Services/LocationMapper.cs:50-58 | a full name maps to itself |
| LocationMapper.StateCanonicalIdempotent | TruckServices/Services/LocationMapper.cs:50-58 | canonicalising a canonical state changes nothing |
| LocationMapper.GroupHasEntry | TruckServices/Services/LocationMapper.cs:34-47 | the group of an entry's name accepts that entry's code and name |
| LocationMapper.StateNamesDistinct | TruckServices/Services/LocationMapper.cs:5-32 | no two state entries have full names that are equal ignoring case |
| LocationMapper.GroupExact | TruckServices/Services/LocationMapper.cs:34-47 | when names differ ignoring case, the group of an entry's name is exactly its key and its name |
| LocationMapper.NameSelectsGroup | TruckServices/Services/LocationMapper.cs:60-70 | in an ordinal table with names distinct ignoring case, a trimmed input that is no key but matches an entry's name ignoring case selects exactly that key and name, compared ignoring case |
| LocationMapper.StateGroupExact | TruckServices/Services/LocationMapper.cs:34-47 | the group of a state's full name is exactly its code and its name |
| LocationMapper.StateVariantsOfCode | TruckServices/Services/LocationMapper.cs:60-70 | a code, trimmed, selects exactly the case-insensitive set {code, name}, which accepts both |
| LocationMapper.StateVariantsOfName | TruckServices/Services/LocationMapper.cs:60-70 | a full name in any letter case, trimmed, selects exactly the case-insensitive set {code, name}, which accepts both |
| LocationMapper.StateVariantsAgree | TruckServices/Services/LocationMapper.cs:60-70 | a state's code and its full name yield the same variant set |
| LocationMapper.LowerCaseCodeNotRecognised | TruckServices/Services/LocationMapper.cs:5-55 | the state table is ordinal: a lower-case code maps to itself and yields only its own spelling |
| LocationMapper.MapStateAnyCase | TruckServices/Services/LocationMapper.cs:97-98 | `MapState` upper-cases first, so a code in any case maps to its name |
| LocationMapper.CountryTableFacts | TruckServices/Services/LocationMapper.cs:73-82 | the country table holds three United States keys and then two Canada keys |
| LocationMapper.UnitedStatesLookup | TruckServices/Services/LocationMapper.cs:73-82 | any case of "us", "usa" or "united states" looks up "United States" |
| LocationMapper.CanadaLookup | TruckServices/Services/LocationMapper.cs:73-82 | any case of "ca" or "canada" looks up "Canada" |
| LocationMapper.OtherCountryLookup | TruckServices/Services/LocationMapper.cs:73-82 | any other key is absent |
| LocationMapper.VariantGroupWithin | TruckServices/Services/LocationMapper.cs:84-93 | a group holds nothing beyond the rows whose value folds to the canonical name |
| LocationMapper.UnitedStatesGroup | TruckServices/Services/LocationMapper.cs:84-93 | the United States group is its three keys plus the name |
| LocationMapper.CanadaGroup | TruckServices/Services/LocationMapper.cs:84-93 | the Canada group is its two keys plus the name |
| LocationMapper.OtherCountryGroup | TruckServices/Services/LocationMapper.cs:84-93 | no other name has a group |
| LocationMapper.MappedThroughKey | TruckServices/Services/LocationMapper.cs:100-120 | an input whose trimmed form is a key maps to its value, and its variants are that value's group |
| LocationMapper.PassedThrough | TruckServices/Services/LocationMapper.cs:100-120 | an input that is no key and no value passes through trimmed, as its only variant |
| LocationMapper.UnitedStatesSynonyms | TruckServices/Services/LocationMapper.cs:100-120 | every United States synonym maps to "United States", with variants US, USA, UNITED STATES and United States, compared ignoring case |
| LocationMapper.CanadaSynonyms | TruckServices/Services/LocationMapper.cs:100-120 | every Canada synonym maps to "Canada", with variants CA, CANADA and Canada |
| LocationMapper.OtherCountryPassesThrough | TruckServices/Services/LocationMapper.cs:100-120 | any other country passes through trimmed, as its only variant, compared ordinally |
| GoogleMaps.NonNullTerms | TruckServices/Services/GoogleMapsService.cs:60 | no longer than the terms; holds exactly the values of the non-null terms |
| GoogleMaps.NonNullTermsAppend | TruckServices/Services/GoogleMapsService.cs:60 | `Where(t => t != null)` distributes over concatenation, drops a null and keeps a value, so it keeps order and multiplicity |
| GoogleMaps.NonNullTermsOfValues | TruckServices/Services/GoogleMapsService.cs:60 | with no null term the list is the term values, one for one |
| GoogleMaps.MapCountry | TruckServices/Services/GoogleMapsService.cs:70-75 | "USA" becomes "United States", "CA" becomes "Canada", anything else is kept |
| GoogleMaps.KeptIff | TruckServices/Services/GoogleMapsService.cs:58-80 | a prediction is kept exactly when its third term is USA, United States, CA or Canada |
| GoogleMaps.Collected | TruckServices/Services/GoogleMapsService.cs:45-81 | holds exactly the tuples of the kept predictions |
| GoogleMaps.CollectPredictions | TruckServices/Services/GoogleMapsService.cs:43-81 | the loop computes `Collected` |
| GoogleMaps.AutocompleteCities | TruckServices/Services/GoogleMapsService.cs:21-88 | empty for a short or blank term, a failed reply or no predictions; otherwise duplicate-free, sorted by city, only US and Canadian cities, and exactly the kept tuples |
| GoogleMaps.DistinctByCity | TruckServices/Services/GoogleMapsService.cs:84-87 | duplicate-free, sorted by city, with the same tuples as its input |
| GoogleMaps.Geocode | TruckServices/Services/GoogleMapsService.cs:90-108 | no coordinates exactly when `results` is missing or empty; otherwise those of the first result |
| GoogleMaps.LastNameOfType | TruckServices/Services/GoogleMapsService.cs:191-197 | a name only from a component of that type, and none when no component has the type |
| GoogleMaps.LaterComponentWins | TruckServices/Services/GoogleMapsService.cs:194-196 | a later component of the type overrides every earlier one |
| GoogleMaps.OtherComponentIgnored | TruckServices/Services/GoogleMapsService.cs:194-196 | a component without the type leaves the answer unchanged |
| GoogleMaps.ScanStep | TruckServices/Services/GoogleMapsService.cs:191-197 | one more component either overrides the answer or leaves it |
| GoogleMaps.ScanComponents | TruckServices/Services/GoogleMapsService.cs:189-197 | the loop leaves city, state and country as the last named locality, state and country |
| GoogleMaps.ReverseGeocode | TruckServices/Services/GoogleMapsService.cs:177-203 | null for a failed status or empty results; throws without `results`; otherwise a triple exactly when all three are named |
| GoogleMaps.ReverseGeocodeWithCity | TruckServices/Services/GoogleMapsService.cs:208-234 | throws on a failed request or an empty `results`; null without `results`; otherwise keeps the given city |
| GoogleMaps.ReverseGeocodeWithCityNames | TruckServices/Services/GoogleMapsService.cs:219-233 | state and country are the last ones named, "" when absent or null |
| GoogleMaps.NearbyCollected | TruckServices/Services/GoogleMapsService.cs:154-174 | no more cities than places |
| GoogleMaps.NearbyThrowsIff | TruckServices/Services/GoogleMapsService.cs:156-174 | the scan throws exactly when some place throws |
| GoogleMaps.ContributionOfReport | TruckServices/Services/GoogleMapsService.cs:158-171 | a place that does not throw adds its reverse-geocoded city exactly when its name is not in the location and the lookup finds a city, and otherwise adds nothing |
| GoogleMaps.NearbyInOrder | TruckServices/Services/GoogleMapsService.cs:156-174 | when no place throws, the result is the reported city of every reporting place, in place order, and nothing else |
| GoogleMaps.ScanPlaces | TruckServices/Services/GoogleMapsService.cs:156-174 | the loop computes `NearbyCollected` |
| GoogleMaps.PrefixThrows | TruckServices/Services/GoogleMapsService.cs:156-172 | once a place throws, the whole scan throws |
| GoogleMaps.NearbySkipsContained | TruckServices/Services/GoogleMapsService.cs:158-171 | no reported city is contained in the location (ignoring case); each is a place's display name and is non-empty |
| GoogleMaps.ContainedPlaceSkipped | TruckServices/Services/GoogleMapsService.cs:160-162 | a place the location names contributes nothing |
| GoogleMaps.GetNearestCities | TruckServices/Services/GoogleMapsService.cs:110-175 | throws when geocoding throws; empty without coordinates, on a failed reply or with no places; otherwise the scan's result |
| GoogleMaps.BusinessStatus | TruckServices/Services/GoogleMapsService.cs:262-294 | one of the five status texts; "Unknown" for a blank id, a failed reply or no `result` |
| GoogleMaps.ClosureWins | TruckServices/Services/GoogleMapsService.cs:280-285 | a permanent or temporary closure wins over the opening hours |
| GoogleMaps.OpenNowDecides | TruckServices/Services/GoogleMapsService.cs:287-293 | otherwise `open_now` decides between Open and Closed, and without it the answer is Unknown |
| GoogleMaps.BusinessStatusByName | TruckServices/Services/GoogleMapsService.cs:298-304 | "Unknown" without a place id; otherwise the status of that place |
| Geoapify.GeocodeAddress | TruckServices/Services/GeoapifyService.cs:20-38 | throws exactly when `features` is missing; no coordinates exactly for an empty array; otherwise the first feature's |
| Geoapify.Fields | TruckServices/Services/GeoapifyService.cs:57-59 | reads without throwing exactly when `name` and `countryName` are present; null reads as ""; a missing or null `adminName1` gives "" |
| Geoapify.FirstDifferent | TruckServices/Services/GeoapifyService.cs:55-68 | a selected city is never empty |
| Geoapify.ScanGeoNames | TruckServices/Services/GeoapifyService.cs:55-68 | the loop computes `FirstDifferent` |
| Geoapify.GetNearestDifferentCity | TruckServices/Services/GeoapifyService.cs:40-69 | throws without `features`; null with no feature or no `geonames`; otherwise the scan's result |
| Geoapify.FirstDifferentAt | TruckServices/Services/GeoapifyService.cs:55-66 | the place at `k` is selected when every earlier place is read and skipped and `k` is different |
| Geoapify.FirstDifferentSelected | TruckServices/Services/GeoapifyService.cs:55-66 | a selected city comes from a different place, and every earlier place was skipped |
| Geoapify.FirstDifferentNone | TruckServices/Services/GeoapifyService.cs:55-68 | null exactly when every place is read and its city is contained in the location |
| CustomersController.Filtered | TruckServices/Controllers/CustomersController.cs:20-32 | every row for a null or blank search; otherwise exactly the rows whose name, city or e-mail contains the folded search, or whose mobile number contains it as typed |
| CustomersController.BlankSearchKeepsAll | TruckServices/Controllers/CustomersController.cs:23 | a blank search applies no filter |
| CustomersController.SearchIgnoresCaseOfName | TruckServices/Controllers/CustomersController.cs:25-28 | a name match survives any change of the search's letter case |
| CustomersController.LowerOfUpper | TruckServices/Controllers/CustomersController.cs:25 | upper-casing then lower-casing is lower-casing |
| CustomersController.Ordered | TruckServices/Controllers/CustomersController.cs:36-37 | the filtered rows, sorted by id (a permutation) |
| CustomersController.OrderedLength | TruckServices/Controllers/CustomersController.cs:34-37 | ordering keeps the count |
| CustomersController.CeilDiv | TruckServices/Controllers/CustomersController.cs:43 | the least integer not below `n / d` |
| CustomersController.Index | TruckServices/Controllers/CustomersController.cs:18-47 | a sorted page of matching rows of at most `pageSize`; the page echoed; `TotalPages` over the filtered count; the search or "" |
| CustomersController.IndexCustomers | TruckServices/Controllers/CustomersController.cs:36-40 | page `p` lists the ordered rows from position `(p - 1) * pageSize` on: `pageSize` of them, or as many as remain, or none past the end |
| CustomersController.RowOnItsPage | TruckServices/Controllers/CustomersController.cs:34-43 | every listed row appears on page `i / pageSize + 1` at slot `i % pageSize`, and that page is within `TotalPages` |
| CustomersController.RowInPage | TruckServices/Controllers/CustomersController.cs:38-39 | position `i` is slot `i % d` of page `i / d + 1` when the count fits an `int` |
| CustomersController.PageOffsetOf | TruckServices/Controllers/CustomersController.cs:38 | page `q + 1` starts at row `q * d` when nothing overflows |
| CustomersController.LastPageCoversRow | TruckServices/Controllers/CustomersController.cs:43 | the page holding a row is not past the last page |
| CustomersController.Edited | TruckServices/Controllers/CustomersController.cs:114-131 | the nine editable columns come from the form; the logo from the upload if any; id, source and links stay |
| CustomersController.EditIdempotent | TruckServices/Controllers/CustomersController.cs:114-131 | posting the same edit twice stores the same record |
| CustomersController.Created | TruckServices/Controllers/CustomersController.cs:71-81 | the form under the new key, with the upload as logo when given, otherwise unchanged |
| CustomersController.GetImage | TruckServices/Controllers/CustomersController.cs:171-177 | a JPEG file of the logo exactly when the record exists and has one; otherwise NotFound |
| CustomersController.GetImageOfRecord | TruckServices/Controllers/CustomersController.cs:171-177 | with unique ids, the logo of the record that has the id |
| CustomersController.CustomerTable.Create | TruckServices/Controllers/CustomersController.cs:69-85 | an invalid form changes nothing; a valid one appends `Created` under the next key; keys stay unique |
| CustomersController.CustomerTable.Edit | TruckServices/Controllers/CustomersController.cs:103-146 | NotFound for an id mismatch or an unknown id; the form again when invalid; otherwise only that record becomes `Edited` |
| CustomersController.CustomerTable.DeleteConfirmed | TruckServices/Controllers/CustomersController.cs:162-168 | an unknown id throws and changes nothing; otherwise exactly that record is removed |
| CustomersController.AppendFreshKey | TruckServices/Controllers/CustomersController.cs:80-81 | appending under the next key keeps keys unique and below the counter |
| CustomersController.DeleteRemovesOnlyThatRecord | TruckServices/Controllers/CustomersController.cs:164-166 | after a delete no record has the id, and every other record is still there |
| ServicesController.KeepSlugChars | TruckServices/Controllers/ServicesController.cs:102 | only a-z, 0-9, white space and '-' remain; a string of only such characters is unchanged |
| ServicesController.TrimLeadingHyphens | TruckServices/Controllers/ServicesController.cs:103 | a suffix of the input that does not start with '-' |
| ServicesController.TrimTrailingHyphens | TruckServices/Controllers/ServicesController.cs:103 | a prefix of the input that does not end with '-' |
| ServicesController.HyphenateGivesSlugChars | TruckServices/Controllers/ServicesController.cs:102-103 | after the white-space runs become '-', only slug characters remain |
| ServicesController.KeepSlugCharsAppend | TruckServices/Controllers/ServicesController.cs:102 | deletion works piece by piece: a kept character survives, any other goes, so the kept characters remain in order |
| ServicesController.KeepSlugCharsOne | TruckServices/Controllers/ServicesController.cs:102 | a single character is kept exactly when it is a-z, 0-9, white space or '-' |
| ServicesController.HyphenateBlankRun | TruckServices/Controllers/ServicesController.cs:103 | a maximal white-space run of any length becomes a single '-' |
| ServicesController.HyphenateWithoutWhiteSpace | TruckServices/Controllers/ServicesController.cs:103 | text without white space is left as it is |
| ServicesController.TrimHyphensIsSlug | TruckServices/Controllers/ServicesController.cs:103 | trimming '-' from slug characters gives a slug |
| ServicesController.GenerateIsSlug | TruckServices/Controllers/ServicesController.cs:99-105 | every generated slug has only a-z, 0-9 and '-', and no '-' at either end |
| ServicesController.GenerateOfSlug | TruckServices/Controllers/ServicesController.cs:99-105 | a slug is its own slug |
| ServicesController.GenerateIdempotent | TruckServices/Controllers/ServicesController.cs:99-105 | generating a slug from a slug changes nothing |
| ServicesController.HyphensAreNotCollapsed | TruckServices/Controllers/ServicesController.cs:102-103 | "a - b" gives "a---b": existing hyphens are kept and each side's space becomes another |
| ServicesController.CreateReplyCases | TruckServices/Controllers/ServicesController.cs:35-59 | BadRequest for a blank name or a taken slug; otherwise a new row with the trimmed name, a valid slug, the flag and the new id |
| ServicesController.CreateKeepsSlugsUnique | TruckServices/Controllers/ServicesController.cs:42-56 | rows created through `Create` never share a slug |
| ServicesController.UpdateMayDuplicateSlug | TruckServices/Controllers/ServicesController.cs:65-76 | `Update` does not check slugs: renaming to a taken slug leaves two rows with the same slug |
| ServicesController.AppendFreshId | TruckServices/Controllers/ServicesController.cs:55-56 | appending under the next id keeps ids unique and below the counter |
| ServicesController.ReplaceKeepsIds | TruckServices/Controllers/ServicesController.cs:70-74 | rewriting a row under its own id keeps ids unique and below the counter |
| ServicesController.ServiceCatalog.Index | TruckServices/Controllers/ServicesController.cs:22-29 | every service, as a permutation sorted by name |
| ServicesController.ServiceCatalog.Create | TruckServices/Controllers/ServicesController.cs:35-59 | answers `CreateReply`; on success appends exactly the new row and advances the id; otherwise nothing changes |
| ServicesController.ServiceCatalog.Add | TruckServices/Controllers/ServicesController.cs:55-56 | appends the row and advances the id, keeping ids unique |
| ServicesController.ServiceCatalog.Replace | TruckServices/Controllers/ServicesController.cs:70-74 | writes the row over position `k` and keeps ids unique |
| ServicesController.ServiceCatalog.Update | TruckServices/Controllers/ServicesController.cs:65-76 | NotFound for an unknown id; a null name throws and changes nothing; otherwise only that row's name, slug and flag change |
| ServicesController.ServiceCatalog.Delete | TruckServices/Controllers/ServicesController.cs:82-97 | NotFound for an unknown id; BadRequest while a company is linked; otherwise exactly that row is removed |
| HomeController.Segments | TruckServices/Controllers/HomeController.cs:100-102 | every segment is trimmed |
| HomeController.ParseLocation | TruckServices/Controllers/HomeController.cs:94-112 | no parts for a blank location; every part is trimmed; a state only with a city and a country only with a state |
| HomeController.SegmentsOfJoin | TruckServices/Controllers/HomeController.cs:100-102 | the segments of a comma-joined text are its non-empty pieces, trimmed |
| HomeController.SegmentsOfCleanJoin | TruckServices/Controllers/HomeController.cs:100-102 | without empty pieces, the segments are the pieces, trimmed |
| HomeController.ParseOfJoin | TruckServices/Controllers/HomeController.cs:98-112 | "a, b, c, ..." gives city `Trim(a)`, state `Trim(b)` and country `Trim(c)`; further pieces are ignored |
| HomeController.JoinNotBlank | TruckServices/Controllers/HomeController.cs:98 | a joined text whose first piece is not blank is not blank |
| HomeController.FinalRows | TruckServices/Controllers/HomeController.cs:115-198 | contains the primary rows; is exactly them when the location is empty or the lookup throws; otherwise adds exactly the rows matching a nearby city under the searched state and country |
| HomeController.NoLocationFindsAll | TruckServices/Controllers/HomeController.cs:98-125 | with no location every provider is found |
| HomeController.NearbyRowsStep | TruckServices/Controllers/HomeController.cs:188 | one more nearby city adds exactly the rows its own query keeps |
| HomeController.RefineByVariants | TruckServices/Controllers/HomeController.cs:121-125 | refines only for a present, non-empty set, and then keeps the rows whose non-null column is in it |
| HomeController.PrimaryQuery | TruckServices/Controllers/HomeController.cs:115-125 | computes the primary rows |
| HomeController.CandidateQuery | TruckServices/Controllers/HomeController.cs:170-186 | computes the rows for one nearby city |
| HomeController.CollectNearbyRows | TruckServices/Controllers/HomeController.cs:142-189 | the loop accumulates the union of every nearby city's rows |
| HomeController.BuildFinalRows | TruckServices/Controllers/HomeController.cs:133-198 | computes `FinalRows` |
| HomeController.PaidFirst | TruckServices/Controllers/HomeController.cs:208 | a permutation in which no unpaid row precedes a paid one |
| HomeController.InRandomOrder | TruckServices/Controllers/HomeController.cs:209 | exactly the final rows the random order lists, duplicate-free when it is |
| HomeController.OrderedRows | TruckServices/Controllers/HomeController.cs:207-209 | exactly the listed final rows, paid first, duplicate-free when the order is |
| HomeController.OrderedCount | TruckServices/Controllers/HomeController.cs:202-209 | when the random order lists the table once each, the ordered rows are as many as the final rows |
| HomeController.PageRows | TruckServices/Controllers/HomeController.cs:210-212 | at most ten rows, all from the ordered rows, and exactly the slice for page `page` when nothing overflows |
| HomeController.PageKeepsOrder | TruckServices/Controllers/HomeController.cs:207-212 | a page keeps the paid-first order of the rows it was cut from |
| HomeController.PageOf | TruckServices/Controllers/HomeController.cs:200-212 | at most ten final rows, paid before unpaid |
| HomeController.GetImageMimeType | TruckServices/Controllers/HomeController.cs:338-350 | PNG or JPEG; JPEG exactly when at least four bytes start FF D8; a PNG header gives PNG |
| HomeController.ShortJpegIsPng | TruckServices/Controllers/HomeController.cs:340-349 | a header shorter than four bytes is reported as PNG |
| HomeController.ImageText | TruckServices/Controllers/HomeController.cs:227-229 | the placeholder without a logo; otherwise a data URI starting with the sniffed MIME type |
| HomeController.ActiveServiceNames | TruckServices/Controllers/HomeController.cs:231-234 | exactly the names of the active linked services |
| HomeController.Enriched | TruckServices/Controllers/HomeController.cs:214-237 | one card per row when no lookup throws |
| HomeController.EnrichedMeaning | TruckServices/Controllers/HomeController.cs:214-237 | throws exactly when some row's status lookup throws; otherwise card `i` is row `i` with its status |
| HomeController.ResultsView.TotalPages | TruckServices/Models/ServiceResultsViewModel.cs:14 | the least integer not below `TotalCount / PageSize` |
| HomeController.ViewOf | TruckServices/Controllers/HomeController.cs:239-268 | the failure page exactly when building the cards threw; otherwise "No services found" exactly when the count is 0 |
| HomeController.BuildServicesResults | TruckServices/Controllers/HomeController.cs:85-269 | the imperative body computes `ServicesResults` |
| HomeController.FailureOnlyWhenStatusThrows | TruckServices/Controllers/HomeController.cs:230-268 | the failure page appears exactly when a status lookup on the page throws |
| HomeController.ResultsPageContents | TruckServices/Controllers/HomeController.cs:202-249 | otherwise the count is every final row, the message appears exactly when there are none, the request is echoed, and the cards are the page's rows in order |
| HomeController.CitySearchCache.TypedRead | TruckServices/Controllers/HomeController.cs:44 | nothing is found while the cache holds only what `SearchCities` stores |
| HomeController.CitySearchCache.SearchCities | TruckServices/Controllers/HomeController.cs:38-59 | `[]` for a blank term with the cache untouched; a typed hit is returned unchanged; otherwise the autocomplete answer is returned and stored under the lower-cased term |
| HomeController.CacheNeverHits | TruckServices/Controllers/HomeController.cs:44-56 | the typed read never hits an entry that `SearchCities` stored |

## Left out

- The HTTP, JSON and e-mail layers are not modelled. Each reply is a
  parameter holding its parsed form. A malformed body is not modelled, and
  neither is a missing `geometry`, `coordinates`, `address_components`,
  `types` or `long_name`. A null `DisplayName` of a nearby place is modelled
  as `Threw`. Other throws of the JSON layer are not modelled, so
  `AutocompleteCities` and `SearchCities` never fail in the model:
  - a prediction whose `structured_formatting` lacks `main_text`
    (GoogleMapsService.cs:54);
  - a term without `value` (GoogleMapsService.cs:60);
  - `predictions` or `terms` that is not an array (GoogleMapsService.cs:45, 60);
  - a nearby place whose `Location` is null (GoogleMapsService.cs:167-168).
- Latitude, longitude and the search radius are only passed on, so the model
  ignores them.
- `GetPlaceIdAsync` is an input: the place id (or null) it returns. The
  status lookup in `BuildServicesResults` is an input function per row.
- `Task.WhenAll` runs the status lookups concurrently. The model runs them
  in page order. Any lookup that throws makes the whole enrichment throw,
  as it does in the source.
- `ThenBy(EF.Functions.Random())` is an input sequence: the order the
  database draws.
- `Convert.ToBase64String` is an input function.
- String comparison and casing:
  - Queries that the database runs are given LINQ-to-objects meaning. The
    database's collation is not modelled: every equality and containment
    test is exactly the one the C# expression names (ordering is below).
    Membership in a variant set
    (HomeController.cs:121-125) uses the set's own comparer, so it is
    ordinal for a set passed through unchanged. `MobileNumber.Contains(search)`
    (CustomersController.cs:31) and the slug test `x.Slug == slug`
    (ServicesController.cs:42-43) are ordinal and case-sensitive. A
    case-insensitive collation would match more rows.
  - Culture-sensitive `ToLower`/`ToUpper` and `OrdinalIgnoreCase` are
    modelled as ASCII case folding. It applies only where the code itself
    changes case or names a case-insensitive comparison.
  - A Dafny `char` is a Unicode scalar value, while a .NET `string` holds
    UTF-16 code units. The two agree on text inside the Basic Multilingual
    Plane. Outside it, the model counts one character where .NET counts two
    (the `term.Length < 2` test, GoogleMapsService.cs:23). The ordinal order
    `StrLe` can also differ there from .NET's code-unit order.
  - The model orders strings ordinally (`StrLe`, character by character).
    The source's in-memory `OrderBy(r => r.City)` (GoogleMapsService.cs:86)
    uses the current culture's comparer, and the database's
    `OrderBy(s => s.Name)` (ServicesController.cs:25) uses the column
    collation. They differ on case and accents: ordinally "Banana" comes
    before "apple" and "Montrose" before "Montréal"; under a culture
    comparer the order of each pair is the reverse. The city order of
    `AutocompleteCities` and the name order of `ServiceCatalog.Index` are
    therefore the ordinal order, not the order the program produces.
  - A SQL comparison with NULL is false.
- `Skip`/`Take` with a negative count follows LINQ's clamping. SQL Server
  would raise an error instead.
- CustomersController.TotalPages: a page size of 0 gives `None`. The source
  casts an infinite or NaN quotient to `int`, which is not modelled.
- The cache's six-hour expiry and its clock are not modelled.
- `DbUpdateConcurrencyException` during `Edit` is not modelled.
- Customers and services: the id posted with a Create form is not
  modelled. The database always hands out the next key.
- Model validation (`ModelState.IsValid`) is an input flag.
- HomeController.CollectNearbyRows: each nearby city is filtered with the
  state and country sets parsed from the searched location, as the source
  does. The candidate city's own state and country are never used.
- HomeController.ResultsView: the view model and `ServicesProviders` carry
  the fields the controller's initialisers set (`Radius`, `IsPaid`,
  `Services`). The class files in `TruckServices/Models` do not declare
  these fields.
- In-place updates of a tracked entity are modelled as replacing its row in
  the table's sequence. Aliasing between entity instances is not modelled.
- `Index`, `Privacy`, `ContactUs`, `Error` and `GetCityStateCountry` of
  HomeController are not part of this model, and neither are the GET forms
  of CustomersController. They only render a view or forward a call.
- The GeoNames lookup (`GetNearestDifferentCityAsync`) is modelled. The
  home controller never calls it.
