/** Region and country normalisation (TruckServices/Services/LocationMapper.cs):
    a fixed table of US-state and Canadian-province codes, a small table of
    country synonyms, the canonicalisation functions and the variant sets
    built from the two tables. */
module LocationMapper {
  import opened Common
  import opened Text

  /** A dictionary literal: (key, value) pairs in declaration order. */
  type Table = seq<(string, string)>

  /** `StateMap`: two-letter code to full name; keys compared ordinally.
      The literal is written in four pieces (the source's own line groups)
      only so that the facts about its entries are proved piece by piece. */
  const StateMap: Table :=
    StatesAlabamaToLouisiana + StatesMaineToOklahoma + StatesOregonToWyoming + CanadianProvinces

  const StatesAlabamaToLouisiana: Table := [
      ("AL", "Alabama"), ("AK", "Alaska"), ("AZ", "Arizona"),
      ("AR", "Arkansas"), ("CA", "California"), ("CO", "Colorado"),
      ("CT", "Connecticut"), ("DE", "Delaware"), ("FL", "Florida"),
      ("GA", "Georgia"), ("HI", "Hawaii"), ("ID", "Idaho"),
      ("IL", "Illinois"), ("IN", "Indiana"), ("IA", "Iowa"),
      ("KS", "Kansas"), ("KY", "Kentucky"), ("LA", "Louisiana")
    ]

  const StatesMaineToOklahoma: Table := [
      ("ME", "Maine"), ("MD", "Maryland"), ("MA", "Massachusetts"),
      ("MI", "Michigan"), ("MN", "Minnesota"), ("MS", "Mississippi"),
      ("MO", "Missouri"), ("MT", "Montana"), ("NE", "Nebraska"),
      ("NV", "Nevada"), ("NH", "New Hampshire"), ("NJ", "New Jersey"),
      ("NM", "New Mexico"), ("NY", "New York"), ("NC", "North Carolina"),
      ("ND", "North Dakota"), ("OH", "Ohio"), ("OK", "Oklahoma")
    ]

  const StatesOregonToWyoming: Table := [
      ("OR", "Oregon"), ("PA", "Pennsylvania"), ("RI", "Rhode Island"),
      ("SC", "South Carolina"), ("SD", "South Dakota"), ("TN", "Tennessee"),
      ("TX", "Texas"), ("UT", "Utah"), ("VT", "Vermont"),
      ("VA", "Virginia"), ("WA", "Washington"), ("WV", "West Virginia"),
      ("WI", "Wisconsin"), ("WY", "Wyoming")
    ]

  const CanadianProvinces: Table := [
      ("AB", "Alberta"), ("BC", "British Columbia"), ("MB", "Manitoba"),
      ("NB", "New Brunswick"), ("NL", "Newfoundland and Labrador"), ("NS", "Nova Scotia"),
      ("ON", "Ontario"), ("PE", "Prince Edward Island"), ("QC", "Quebec"),
      ("SK", "Saskatchewan"), ("NT", "Northwest Territories"), ("NU", "Nunavut"),
      ("YT", "Yukon")
    ]

  /** `CountryToCanonical`: synonym to canonical country; keys compared ignoring case. */
  const CountryToCanonical: Table := [
      ("US", "United States"), ("USA", "United States"), ("UNITED STATES", "United States"),
      ("CA", "Canada"), ("CANADA", "Canada")
    ]

  /** How a dictionary compares its keys: ordinally, or ignoring (ASCII) case. */
  predicate KeyEq(a: string, b: string, ignoreCase: bool) {
    if ignoreCase then Lower(a) == Lower(b) else a == b
  }

  /** `TryGetValue`: the value of the entry whose key equals `key` under the
      dictionary's comparer, if there is one. */
  function Lookup(t: Table, key: string, ignoreCase: bool): (r: Option<string>)
    ensures r.None? <==> forall i :: 0 <= i < |t| ==> !KeyEq(t[i].0, key, ignoreCase)
    ensures r.Some? ==> exists i :: 0 <= i < |t| && KeyEq(t[i].0, key, ignoreCase) && r.value == t[i].1
  {
    if t == [] then None
    else if KeyEq(t[0].0, key, ignoreCase) then Some(t[0].1)
    else
      var r := Lookup(t[1..], key, ignoreCase);
      assert forall i :: 1 <= i < |t| ==> t[i] == t[1..][i - 1];
      r
  }

  /** No two entries of the table share a key under the comparer (a .NET
      dictionary initialiser throws on a duplicate key). */
  predicate DistinctKeys(t: Table, ignoreCase: bool) {
    forall i, j :: 0 <= i < j < |t| ==> !KeyEq(t[i].0, t[j].0, ignoreCase)
  }

  /** In a table with distinct keys every entry is found under its own key. */
  lemma {:induction false} LookupOwnKey(t: Table, ignoreCase: bool, i: int)
    requires DistinctKeys(t, ignoreCase)
    requires 0 <= i < |t|
    ensures Lookup(t, t[i].0, ignoreCase) == Some(t[i].1)
  {
    if i > 0 {
      assert DistinctKeys(t[1..], ignoreCase) by {
        forall k, j | 0 <= k < j < |t[1..]| ensures !KeyEq(t[1..][k].0, t[1..][j].0, ignoreCase) {
          assert t[1..][k] == t[k + 1] && t[1..][j] == t[j + 1];
        }
      }
      LookupOwnKey(t[1..], ignoreCase, i - 1);
      assert t[1..][i - 1] == t[i];
      assert !KeyEq(t[0].0, t[i].0, ignoreCase);
    }
  }

  /** `TryGetValue` finds the first entry whose key matches. */
  lemma {:induction false} LookupFirst(t: Table, key: string, ignoreCase: bool, i: int)
    requires 0 <= i < |t| && KeyEq(t[i].0, key, ignoreCase)
    requires forall j :: 0 <= j < i ==> !KeyEq(t[j].0, key, ignoreCase)
    ensures Lookup(t, key, ignoreCase) == Some(t[i].1)
  {
    if i > 0 {
      assert t[1..][i - 1] == t[i];
      forall j | 0 <= j < i - 1 ensures !KeyEq(t[1..][j].0, key, ignoreCase) {
        assert t[1..][j] == t[j + 1];
      }
      LookupFirst(t[1..], key, ignoreCase, i - 1);
    }
  }

  /** A collection of accepted spellings, with the comparer it was built with:
      a case-insensitive `HashSet` from a table, or a plain array otherwise. */
  datatype Variants = Variants(spellings: set<string>, ignoreCase: bool)
  {
    /** `Count() > 0`. */
    predicate NonEmpty() {
      spellings != {}
    }

    /** `Contains(s)` under the collection's own comparer. */
    predicate Has(s: string) {
      if ignoreCase then Lower(s) in LowerAll(spellings) else s in spellings
    }
  }

  function LowerAll(ss: set<string>): set<string> {
    set s | s in ss :: Lower(s)
  }

  /** `Array.Empty<string>()`. */
  const NoVariants := Variants({}, false)

  /** The group of the table whose canonical value equals `canonical` ignoring
      case: every key of the group and the canonical value itself. */
  function VariantGroup(t: Table, canonical: string): (g: set<string>)
    ensures forall i :: 0 <= i < |t| && Lower(t[i].1) == Lower(canonical) ==> t[i].0 in g && t[i].1 in g
    ensures forall s :: s in g ==>
              exists i :: 0 <= i < |t| && Lower(t[i].1) == Lower(canonical) && (s == t[i].0 || s == t[i].1)
  {
    if t == [] then {}
    else
      var rest := VariantGroup(t[1..], canonical);
      assert forall i :: 1 <= i < |t| ==> t[i] == t[1..][i - 1];
      (if Lower(t[0].1) == Lower(canonical) then {t[0].0, t[0].1} else {}) + rest
  }

  /** The group depends on the canonical name only up to case. */
  lemma {:induction false} VariantGroupIgnoresCase(t: Table, c1: string, c2: string)
    requires Lower(c1) == Lower(c2)
    ensures VariantGroup(t, c1) == VariantGroup(t, c2)
  {
    if t != [] {
      VariantGroupIgnoresCase(t[1..], c1, c2);
    }
  }

  /** `StateCanonicalToVariants` / `CanonicalToAllVariants` `.TryGetValue(canonical)`:
      the dictionary built by grouping the table on its values, ignoring case. */
  function GroupOf(t: Table, canonical: string): (r: Option<Variants>)
    ensures r.Some? <==> exists i :: 0 <= i < |t| && Lower(t[i].1) == Lower(canonical)
    ensures r.Some? ==> r.value.ignoreCase && r.value.NonEmpty()
  {
    var g := VariantGroup(t, canonical);
    if g == {} then
      None
    else Some(Variants(g, true))
  }

  /** `MapStateToCanonical` / `MapCountryToCanonical`: null for blank input,
      otherwise the table's value for the trimmed input, or the trimmed input. */
  function Canonical(t: Table, ignoreCase: bool, input: Option<string>): (r: Option<string>)
    ensures r.None? <==> IsNullOrWhiteSpace(input)
    ensures r.Some? && (forall i :: 0 <= i < |t| ==> !KeyEq(t[i].0, Trim(input.value), ignoreCase)) ==>
              r.value == Trim(input.value)
    ensures r.Some? && (exists i :: 0 <= i < |t| && KeyEq(t[i].0, Trim(input.value), ignoreCase)) ==>
              exists i :: 0 <= i < |t| && KeyEq(t[i].0, Trim(input.value), ignoreCase) && r.value == t[i].1
  {
    if IsNullOrWhiteSpace(input) then None
    else
      match Lookup(t, Trim(input.value), ignoreCase)
      case Some(full) => Some(full)
      case None => Some(Trim(input.value))
  }

  /** `GetStateVariants` / `GetCountryVariants`: no spellings for blank input,
      the group of the canonical form when there is one, else the trimmed input alone. */
  function VariantsOf(t: Table, ignoreCase: bool, input: Option<string>): (v: Variants)
    ensures IsNullOrWhiteSpace(input) <==> !v.NonEmpty()
    ensures IsNullOrWhiteSpace(input) ==> v == NoVariants
    ensures !IsNullOrWhiteSpace(input) && GroupOf(t, Canonical(t, ignoreCase, input).value).None? ==>
              v == Variants({Trim(input.value)}, false)
  {
    if IsNullOrWhiteSpace(input) then NoVariants
    else
      var canonical := Canonical(t, ignoreCase, input).value;
      match GroupOf(t, canonical)
      case Some(variants) => variants
      case None => Variants({Trim(input.value)}, false)
  }

  function MapStateToCanonical(input: Option<string>): Option<string> {
    Canonical(StateMap, false, input)
  }

  function GetStateVariants(input: Option<string>): Variants {
    VariantsOf(StateMap, false, input)
  }

  function MapCountryToCanonical(input: Option<string>): Option<string> {
    Canonical(CountryToCanonical, true, input)
  }

  function GetCountryVariants(input: Option<string>): Variants {
    VariantsOf(CountryToCanonical, true, input)
  }

  /** `MapState`: upper-cases before an ordinal lookup; an unknown input is
      returned exactly as given, untrimmed. */
  function MapState(stateAbbrev: string): (r: string)
    ensures (forall i :: 0 <= i < |StateMap| ==> StateMap[i].0 != Upper(stateAbbrev)) ==> r == stateAbbrev
    ensures (exists i :: 0 <= i < |StateMap| && StateMap[i].0 == Upper(stateAbbrev)) ==>
              exists i :: 0 <= i < |StateMap| && StateMap[i].0 == Upper(stateAbbrev) && r == StateMap[i].1
  {
    match Lookup(StateMap, Upper(stateAbbrev), false)
    case Some(full) => full
    case None => stateAbbrev
  }

  // ---------------------------------------------------------------------------
  // Facts about the two tables
  // ---------------------------------------------------------------------------

  predicate IsLetter(c: char) {
    'A' <= c <= 'Z' || 'a' <= c <= 'z'
  }

  /** A state code: two upper-case ASCII letters. */
  predicate IsCode(a: string) {
    |a| == 2 && 'A' <= a[0] <= 'Z' && 'A' <= a[1] <= 'Z'
  }

  /** A full name: longer than a code, starting and ending with a letter. */
  predicate IsName(n: string) {
    |n| > 2 && IsLetter(n[0]) && IsLetter(n[|n| - 1])
  }

  predicate WellShaped(t: Table) {
    forall i :: 0 <= i < |t| ==> IsCode(t[i].0) && IsName(t[i].1)
  }

  /** No two entries share a code, compared ordinally. */
  predicate DistinctCodes(t: Table) {
    forall i, j :: 0 <= i < j < |t| ==> t[i].0 != t[j].0
  }

  predicate KeysApart(a: Table, b: Table) {
    forall i, j :: 0 <= i < |a| && 0 <= j < |b| ==> a[i].0 != b[j].0
  }

  lemma LetterIsNotWhiteSpace(c: char)
    requires IsLetter(c)
    ensures !IsWhiteSpace(c)
  {
  }

  lemma NameIsTrimmed(n: string)
    requires IsName(n)
    ensures Trim(n) == n && !IsBlank(n)
  {
    LetterIsNotWhiteSpace(n[0]);
    LetterIsNotWhiteSpace(n[|n| - 1]);
    TrimOfTrimmed(n);
  }

  lemma CodeIsTrimmed(a: string)
    requires IsCode(a)
    ensures Trim(a) == a && !IsBlank(a)
  {
    LetterIsNotWhiteSpace(a[0]);
    LetterIsNotWhiteSpace(a[1]);
    TrimOfTrimmed(a);
  }

  lemma WellShapedConcat(a: Table, b: Table)
    requires WellShaped(a) && WellShaped(b)
    ensures WellShaped(a + b)
  {
    forall i | 0 <= i < |a + b| ensures IsCode((a + b)[i].0) && IsName((a + b)[i].1) {
      if i >= |a| { assert (a + b)[i] == b[i - |a|]; }
    }
  }

  lemma DistinctConcat(a: Table, b: Table)
    requires DistinctCodes(a) && DistinctCodes(b) && KeysApart(a, b)
    ensures DistinctCodes(a + b)
  {
    forall i, j | 0 <= i < j < |a + b| ensures (a + b)[i].0 != (a + b)[j].0 {
      if i >= |a| {
        assert (a + b)[i] == b[i - |a|] && (a + b)[j] == b[j - |a|];
      } else if j >= |a| {
        assert (a + b)[i] == a[i] && (a + b)[j] == b[j - |a|];
      }
    }
  }

  lemma KeysApartConcat(a: Table, b: Table, c: Table)
    requires KeysApart(a, c) && KeysApart(b, c)
    ensures KeysApart(a + b, c)
  {
    forall i, j | 0 <= i < |a + b| && 0 <= j < |c| ensures (a + b)[i].0 != c[j].0 {
      if i >= |a| { assert (a + b)[i] == b[i - |a|]; }
    }
  }

  /** Every entry of `StateMap` pairs a code with a full name. */
  lemma StateMapWellShaped()
    ensures WellShaped(StateMap)
  {
    AlabamaToLouisianaWellShaped();
    MaineToOklahomaWellShaped();
    OregonToWyomingWellShaped();
    ProvincesWellShaped();
    WellShapedConcat(StatesAlabamaToLouisiana, StatesMaineToOklahoma);
    WellShapedConcat(StatesAlabamaToLouisiana + StatesMaineToOklahoma, StatesOregonToWyoming);
    WellShapedConcat(StatesAlabamaToLouisiana + StatesMaineToOklahoma + StatesOregonToWyoming, CanadianProvinces);
  }

  lemma AlabamaToLouisianaWellShaped()
    ensures WellShaped(StatesAlabamaToLouisiana)
  {
  }

  lemma MaineToOklahomaWellShaped()
    ensures WellShaped(StatesMaineToOklahoma)
  {
  }

  lemma OregonToWyomingWellShaped()
    ensures WellShaped(StatesOregonToWyoming)
  {
  }

  lemma ProvincesWellShaped()
    ensures WellShaped(CanadianProvinces)
  {
  }

  lemma AlabamaToLouisianaDistinct()
    ensures DistinctCodes(StatesAlabamaToLouisiana)
  {
  }

  lemma MaineToOklahomaDistinct()
    ensures DistinctCodes(StatesMaineToOklahoma)
  {
  }

  lemma OregonToWyomingDistinct()
    ensures DistinctCodes(StatesOregonToWyoming)
  {
  }

  lemma ProvincesDistinct()
    ensures DistinctCodes(CanadianProvinces)
  {
  }

  lemma FirstApartSecond()
    ensures KeysApart(StatesAlabamaToLouisiana, StatesMaineToOklahoma)
  {
  }

  lemma FirstApartThird()
    ensures KeysApart(StatesAlabamaToLouisiana, StatesOregonToWyoming)
  {
  }

  lemma SecondApartThird()
    ensures KeysApart(StatesMaineToOklahoma, StatesOregonToWyoming)
  {
  }

  lemma FirstApartProvinces()
    ensures KeysApart(StatesAlabamaToLouisiana, CanadianProvinces)
  {
  }

  lemma SecondApartProvinces()
    ensures KeysApart(StatesMaineToOklahoma, CanadianProvinces)
  {
  }

  lemma ThirdApartProvinces()
    ensures KeysApart(StatesOregonToWyoming, CanadianProvinces)
  {
  }

  /** No two entries of `StateMap` share a code. */
  lemma StateMapDistinct()
    ensures DistinctKeys(StateMap, false)
  {
    var p1, p2, p3, p4 := StatesAlabamaToLouisiana, StatesMaineToOklahoma, StatesOregonToWyoming, CanadianProvinces;
    AlabamaToLouisianaDistinct();
    MaineToOklahomaDistinct();
    OregonToWyomingDistinct();
    ProvincesDistinct();
    FirstApartSecond();
    FirstApartThird();
    SecondApartThird();
    FirstApartProvinces();
    SecondApartProvinces();
    ThirdApartProvinces();
    DistinctConcat(p1, p2);
    KeysApartConcat(p1, p2, p3);
    DistinctConcat(p1 + p2, p3);
    KeysApartConcat(p1, p2, p4);
    KeysApartConcat(p1 + p2, p3, p4);
    DistinctConcat(p1 + p2 + p3, p4);
  }

  // ---------------------------------------------------------------------------
  // No two names of `StateMap` are equal ignoring case
  // ---------------------------------------------------------------------------

  type Signature = (int, char, char, char)

  /** The length and the first, third and last characters, lower-cased: two
      names equal ignoring case have the same signature. */
  function Sig(n: string): Signature {
    if |n| > 2 then (|n|, LowerChar(n[0]), LowerChar(n[2]), LowerChar(n[|n| - 1])) else (|n|, ' ', ' ', ' ')
  }

  lemma SigIgnoresCase(a: string, b: string)
    ensures Lower(a) == Lower(b) ==> Sig(a) == Sig(b)
  {
    if Lower(a) == Lower(b) && |a| > 2 {
      assert |a| == |b|;
      assert Lower(a)[0] == Lower(b)[0] && Lower(a)[2] == Lower(b)[2] && Lower(a)[|a| - 1] == Lower(b)[|b| - 1];
    }
  }

  /** The signatures of the names of `StateMap`, piece by piece. */
  const SignaturesAlabamaToLouisiana: seq<Signature> := [
      (7, 'a', 'a', 'a'), (6, 'a', 'a', 'a'), (7, 'a', 'i', 'a'),
      (8, 'a', 'k', 's'), (10, 'c', 'l', 'a'), (8, 'c', 'l', 'o'),
      (11, 'c', 'n', 't'), (8, 'd', 'l', 'e'), (7, 'f', 'o', 'a'),
      (7, 'g', 'o', 'a'), (6, 'h', 'w', 'i'), (5, 'i', 'a', 'o'),
      (8, 'i', 'l', 's'), (7, 'i', 'd', 'a'), (4, 'i', 'w', 'a'),
      (6, 'k', 'n', 's'), (8, 'k', 'n', 'y'), (9, 'l', 'u', 'a')
    ]

  const SignaturesMaineToOklahoma: seq<Signature> := [
      (5, 'm', 'i', 'e'), (8, 'm', 'r', 'd'), (13, 'm', 's', 's'),
      (8, 'm', 'c', 'n'), (9, 'm', 'n', 'a'), (11, 'm', 's', 'i'),
      (8, 'm', 's', 'i'), (7, 'm', 'n', 'a'), (8, 'n', 'b', 'a'),
      (6, 'n', 'v', 'a'), (13, 'n', 'w', 'e'), (10, 'n', 'w', 'y'),
      (10, 'n', 'w', 'o'), (8, 'n', 'w', 'k'), (14, 'n', 'r', 'a'),
      (12, 'n', 'r', 'a'), (4, 'o', 'i', 'o'), (8, 'o', 'l', 'a')
    ]

  const SignaturesOregonToWyoming: seq<Signature> := [
      (6, 'o', 'e', 'n'), (12, 'p', 'n', 'a'), (12, 'r', 'o', 'd'),
      (14, 's', 'u', 'a'), (12, 's', 'u', 'a'), (9, 't', 'n', 'e'),
      (5, 't', 'x', 's'), (4, 'u', 'a', 'h'), (7, 'v', 'r', 't'),
      (8, 'v', 'r', 'a'), (10, 'w', 's', 'n'), (13, 'w', 's', 'a'),
      (9, 'w', 's', 'n'), (7, 'w', 'o', 'g')
    ]

  const SignaturesProvinces: seq<Signature> := [
      (7, 'a', 'b', 'a'), (16, 'b', 'i', 'a'), (8, 'm', 'n', 'a'),
      (13, 'n', 'w', 'k'), (25, 'n', 'w', 'r'), (11, 'n', 'v', 'a'),
      (7, 'o', 't', 'o'), (20, 'p', 'i', 'd'), (6, 'q', 'e', 'c'),
      (12, 's', 's', 'n'), (21, 'n', 'r', 's'), (7, 'n', 'n', 't'),
      (5, 'y', 'k', 'n')
    ]

  const StateSignatures: seq<Signature> :=
    SignaturesAlabamaToLouisiana + SignaturesMaineToOklahoma + SignaturesOregonToWyoming + SignaturesProvinces

  /** `sigs` lists the signatures of the names of `t`. */
  predicate SignedBy(t: Table, sigs: seq<Signature>) {
    |t| == |sigs| && forall i :: 0 <= i < |t| ==> Sig(t[i].1) == sigs[i]
  }

  predicate Unique(s: seq<Signature>) {
    forall i, j :: 0 <= i < j < |s| ==> s[i] != s[j]
  }

  predicate Apart(a: seq<Signature>, b: seq<Signature>) {
    forall i, j :: 0 <= i < |a| && 0 <= j < |b| ==> a[i] != b[j]
  }

  /** No two entries of the table have names equal ignoring case. */
  predicate DistinctNames(t: Table) {
    forall i, j :: 0 <= i < j < |t| ==> Lower(t[i].1) != Lower(t[j].1)
  }

  /** One assertion per entry keeps the table proofs cheap. */
  lemma AlabamaToLouisianaSigned()
    ensures SignedBy(StatesAlabamaToLouisiana, SignaturesAlabamaToLouisiana)
  {
    var t, sigs := StatesAlabamaToLouisiana, SignaturesAlabamaToLouisiana;
    assert Sig(t[0].1) == sigs[0];
    assert Sig(t[1].1) == sigs[1];
    assert Sig(t[2].1) == sigs[2];
    assert Sig(t[3].1) == sigs[3];
    assert Sig(t[4].1) == sigs[4];
    assert Sig(t[5].1) == sigs[5];
    assert Sig(t[6].1) == sigs[6];
    assert Sig(t[7].1) == sigs[7];
    assert Sig(t[8].1) == sigs[8];
    assert Sig(t[9].1) == sigs[9];
    assert Sig(t[10].1) == sigs[10];
    assert Sig(t[11].1) == sigs[11];
    assert Sig(t[12].1) == sigs[12];
    assert Sig(t[13].1) == sigs[13];
    assert Sig(t[14].1) == sigs[14];
    assert Sig(t[15].1) == sigs[15];
    assert Sig(t[16].1) == sigs[16];
    assert Sig(t[17].1) == sigs[17];
  }

  lemma MaineToOklahomaSigned()
    ensures SignedBy(StatesMaineToOklahoma, SignaturesMaineToOklahoma)
  {
    var t, sigs := StatesMaineToOklahoma, SignaturesMaineToOklahoma;
    assert Sig(t[0].1) == sigs[0];
    assert Sig(t[1].1) == sigs[1];
    assert Sig(t[2].1) == sigs[2];
    assert Sig(t[3].1) == sigs[3];
    assert Sig(t[4].1) == sigs[4];
    assert Sig(t[5].1) == sigs[5];
    assert Sig(t[6].1) == sigs[6];
    assert Sig(t[7].1) == sigs[7];
    assert Sig(t[8].1) == sigs[8];
    assert Sig(t[9].1) == sigs[9];
    assert Sig(t[10].1) == sigs[10];
    assert Sig(t[11].1) == sigs[11];
    assert Sig(t[12].1) == sigs[12];
    assert Sig(t[13].1) == sigs[13];
    assert Sig(t[14].1) == sigs[14];
    assert Sig(t[15].1) == sigs[15];
    assert Sig(t[16].1) == sigs[16];
    assert Sig(t[17].1) == sigs[17];
  }

  lemma OregonToWyomingSigned()
    ensures SignedBy(StatesOregonToWyoming, SignaturesOregonToWyoming)
  {
    var t, sigs := StatesOregonToWyoming, SignaturesOregonToWyoming;
    assert Sig(t[0].1) == sigs[0];
    assert Sig(t[1].1) == sigs[1];
    assert Sig(t[2].1) == sigs[2];
    assert Sig(t[3].1) == sigs[3];
    assert Sig(t[4].1) == sigs[4];
    assert Sig(t[5].1) == sigs[5];
    assert Sig(t[6].1) == sigs[6];
    assert Sig(t[7].1) == sigs[7];
    assert Sig(t[8].1) == sigs[8];
    assert Sig(t[9].1) == sigs[9];
    assert Sig(t[10].1) == sigs[10];
    assert Sig(t[11].1) == sigs[11];
    assert Sig(t[12].1) == sigs[12];
    assert Sig(t[13].1) == sigs[13];
  }

  lemma ProvincesSigned()
    ensures SignedBy(CanadianProvinces, SignaturesProvinces)
  {
    var t, sigs := CanadianProvinces, SignaturesProvinces;
    assert Sig(t[0].1) == sigs[0];
    assert Sig(t[1].1) == sigs[1];
    assert Sig(t[2].1) == sigs[2];
    assert Sig(t[3].1) == sigs[3];
    assert Sig(t[4].1) == sigs[4];
    assert Sig(t[5].1) == sigs[5];
    assert Sig(t[6].1) == sigs[6];
    assert Sig(t[7].1) == sigs[7];
    assert Sig(t[8].1) == sigs[8];
    assert Sig(t[9].1) == sigs[9];
    assert Sig(t[10].1) == sigs[10];
    assert Sig(t[11].1) == sigs[11];
    assert Sig(t[12].1) == sigs[12];
  }

  lemma AlabamaToLouisianaSignaturesUnique()
    ensures Unique(SignaturesAlabamaToLouisiana)
  {
  }

  lemma MaineToOklahomaSignaturesUnique()
    ensures Unique(SignaturesMaineToOklahoma)
  {
  }

  lemma OregonToWyomingSignaturesUnique()
    ensures Unique(SignaturesOregonToWyoming)
  {
  }

  lemma ProvincesSignaturesUnique()
    ensures Unique(SignaturesProvinces)
  {
  }

  lemma SignaturesAlabamaToLouisianaApartMaineToOklahoma()
    ensures Apart(SignaturesAlabamaToLouisiana, SignaturesMaineToOklahoma)
  {
  }

  lemma SignaturesAlabamaToLouisianaApartOregonToWyoming()
    ensures Apart(SignaturesAlabamaToLouisiana, SignaturesOregonToWyoming)
  {
  }

  lemma SignaturesAlabamaToLouisianaApartProvinces()
    ensures Apart(SignaturesAlabamaToLouisiana, SignaturesProvinces)
  {
  }

  lemma SignaturesMaineToOklahomaApartOregonToWyoming()
    ensures Apart(SignaturesMaineToOklahoma, SignaturesOregonToWyoming)
  {
  }

  lemma SignaturesMaineToOklahomaApartProvinces()
    ensures Apart(SignaturesMaineToOklahoma, SignaturesProvinces)
  {
  }

  lemma SignaturesOregonToWyomingApartProvinces()
    ensures Apart(SignaturesOregonToWyoming, SignaturesProvinces)
  {
  }

  lemma SignedConcat(a: Table, sa: seq<Signature>, b: Table, sb: seq<Signature>)
    requires SignedBy(a, sa) && SignedBy(b, sb)
    ensures SignedBy(a + b, sa + sb)
  {
    forall i | 0 <= i < |a + b| ensures Sig((a + b)[i].1) == (sa + sb)[i] {
      if i >= |a| { assert (a + b)[i] == b[i - |a|] && (sa + sb)[i] == sb[i - |a|]; }
    }
  }

  lemma UniqueConcat(a: seq<Signature>, b: seq<Signature>)
    requires Unique(a) && Unique(b) && Apart(a, b)
    ensures Unique(a + b)
  {
    forall i, j | 0 <= i < j < |a + b| ensures (a + b)[i] != (a + b)[j] {
      if i >= |a| {
        assert (a + b)[i] == b[i - |a|] && (a + b)[j] == b[j - |a|];
      } else if j >= |a| {
        assert (a + b)[i] == a[i] && (a + b)[j] == b[j - |a|];
      }
    }
  }

  lemma ApartConcat(a: seq<Signature>, b: seq<Signature>, c: seq<Signature>)
    requires Apart(a, c) && Apart(b, c)
    ensures Apart(a + b, c)
  {
    forall i, j | 0 <= i < |a + b| && 0 <= j < |c| ensures (a + b)[i] != c[j] {
      if i >= |a| { assert (a + b)[i] == b[i - |a|]; }
    }
  }

  /** `StateSignatures` lists the signatures of the names of `StateMap`. */
  lemma StateMapSigned()
    ensures SignedBy(StateMap, StateSignatures)
  {
    var p1, p2, p3, p4 := StatesAlabamaToLouisiana, StatesMaineToOklahoma, StatesOregonToWyoming, CanadianProvinces;
    var s1, s2, s3, s4 := SignaturesAlabamaToLouisiana, SignaturesMaineToOklahoma, SignaturesOregonToWyoming, SignaturesProvinces;
    AlabamaToLouisianaSigned();
    MaineToOklahomaSigned();
    OregonToWyomingSigned();
    ProvincesSigned();
    SignedConcat(p1, s1, p2, s2);
    SignedConcat(p1 + p2, s1 + s2, p3, s3);
    SignedConcat(p1 + p2 + p3, s1 + s2 + s3, p4, s4);
  }

  /** No two names of `StateMap` share a signature. */
  lemma StateSignaturesUnique()
    ensures Unique(StateSignatures)
  {
    var s1, s2, s3, s4 := SignaturesAlabamaToLouisiana, SignaturesMaineToOklahoma, SignaturesOregonToWyoming, SignaturesProvinces;
    AlabamaToLouisianaSignaturesUnique();
    MaineToOklahomaSignaturesUnique();
    OregonToWyomingSignaturesUnique();
    ProvincesSignaturesUnique();
    SignaturesAlabamaToLouisianaApartMaineToOklahoma();
    SignaturesAlabamaToLouisianaApartOregonToWyoming();
    SignaturesAlabamaToLouisianaApartProvinces();
    SignaturesMaineToOklahomaApartOregonToWyoming();
    SignaturesMaineToOklahomaApartProvinces();
    SignaturesOregonToWyomingApartProvinces();
    UniqueConcat(s1, s2);
    ApartConcat(s1, s2, s3);
    UniqueConcat(s1 + s2, s3);
    ApartConcat(s1, s2, s4);
    ApartConcat(s1 + s2, s3, s4);
    UniqueConcat(s1 + s2 + s3, s4);
  }

  /** No two names of `StateMap` are equal ignoring case, so each name has a
      group of its own. */
  lemma StateNamesDistinct()
    ensures DistinctNames(StateMap)
  {
    StateMapSigned();
    StateSignaturesUnique();
    forall i, j | 0 <= i < j < |StateMap| ensures Lower(StateMap[i].1) != Lower(StateMap[j].1) {
      SigIgnoresCase(StateMap[i].1, StateMap[j].1);
    }
  }

  // ---------------------------------------------------------------------------
  // What the mapping functions promise
  // ---------------------------------------------------------------------------

  /** Whatever the table, the variants of a non-blank input accept the trimmed
      input itself, so filtering on them never rejects the spelling searched for. */
  lemma VariantsHaveInput(t: Table, ignoreCase: bool, input: Option<string>)
    requires !IsNullOrWhiteSpace(input)
    ensures VariantsOf(t, ignoreCase, input).Has(Trim(input.value))
  {
    var s := Trim(input.value);
    var canonical := Canonical(t, ignoreCase, input).value;
    match GroupOf(t, canonical)
    case None =>
    case Some(v) =>
      var g := VariantGroup(t, canonical);
      assert v.spellings == g;
      if exists i :: 0 <= i < |t| && KeyEq(t[i].0, s, ignoreCase) && canonical == t[i].1 {
        var i :| 0 <= i < |t| && KeyEq(t[i].0, s, ignoreCase) && canonical == t[i].1;
        assert t[i].0 in g;
        assert Lower(t[i].0) == Lower(s);
        assert Lower(t[i].0) in LowerAll(g);
      } else {
        assert canonical == s;
        var i :| 0 <= i < |t| && Lower(t[i].1) == Lower(canonical);
        assert t[i].1 in g;
        assert Lower(t[i].1) in LowerAll(g);
      }
  }

  /** A state code, possibly padded with white space, maps to its full name. */
  lemma StateCodeMapsToName(s: string, i: int)
    requires 0 <= i < |StateMap| && Trim(s) == StateMap[i].0
    ensures MapStateToCanonical(Some(s)) == Some(StateMap[i].1)
  {
    StateMapDistinct();
    StateMapWellShaped();
    CodeIsTrimmed(StateMap[i].0);
    TrimEmptyIffBlank(s);
    LookupOwnKey(StateMap, false, i);
  }

  /** The full name is not a key (keys are two letters), so it maps to itself. */
  lemma StateNameMapsToItself(s: string, i: int)
    requires 0 <= i < |StateMap| && Trim(s) == StateMap[i].1
    ensures MapStateToCanonical(Some(s)) == Some(StateMap[i].1)
  {
    StateMapWellShaped();
    NameIsTrimmed(StateMap[i].1);
    TrimEmptyIffBlank(s);
    assert Lookup(StateMap, Trim(s), false).None?;
  }

  /** Canonicalising a canonical state is a no-op. */
  lemma StateCanonicalIdempotent(input: Option<string>)
    requires !IsNullOrWhiteSpace(input)
    ensures MapStateToCanonical(MapStateToCanonical(input)) == MapStateToCanonical(input)
  {
    StateMapWellShaped();
    var s := Trim(input.value);
    var c := MapStateToCanonical(input).value;
    match Lookup(StateMap, s, false)
    case Some(full) =>
      var i :| 0 <= i < |StateMap| && StateMap[i].0 == s && full == StateMap[i].1;
      NameIsTrimmed(full);
      StateNameMapsToItself(full, i);
    case None =>
      TrimIdempotent(input.value);
      TrimEmptyIffBlank(input.value);
      TrimEmptyIffBlank(s);
  }

  /** The group of an entry's name accepts that entry's code and name. */
  lemma GroupHasEntry(t: Table, canonical: string, i: int)
    requires 0 <= i < |t| && Lower(t[i].1) == Lower(canonical)
    ensures GroupOf(t, canonical).Some?
    ensures GroupOf(t, canonical).value.Has(t[i].0) && GroupOf(t, canonical).value.Has(t[i].1)
  {
    var g := VariantGroup(t, canonical);
    assert t[i].0 in g && t[i].1 in g;
    assert Lower(t[i].0) in LowerAll(g) && Lower(t[i].1) in LowerAll(g);
  }

  /** In a table whose names differ even ignoring case, the group of an
      entry's name is exactly that entry's key and name. */
  lemma GroupExact(t: Table, i: int)
    requires 0 <= i < |t| && DistinctNames(t)
    ensures VariantGroup(t, t[i].1) == {t[i].0, t[i].1}
  {
    var g := VariantGroup(t, t[i].1);
    var e := {t[i].0, t[i].1};
    forall s | s in g ensures s in e {
      var j :| 0 <= j < |t| && Lower(t[j].1) == Lower(t[i].1) && (s == t[j].0 || s == t[j].1);
      SameNameSameEntry(t, i, j);
    }
    assert g <= e;
    assert e <= g;
  }

  /** Names that differ ignoring case single out one entry. */
  lemma SameNameSameEntry(t: Table, i: int, j: int)
    requires DistinctNames(t) && 0 <= i < |t| && 0 <= j < |t| && Lower(t[j].1) == Lower(t[i].1)
    ensures i == j
  {
    assert !(j < i) && !(i < j);
  }

  /** The group of a state's name holds exactly that state's code and name. */
  lemma StateGroupExact(i: int)
    requires 0 <= i < |StateMap|
    ensures VariantGroup(StateMap, StateMap[i].1) == {StateMap[i].0, StateMap[i].1}
  {
    StateNamesDistinct();
    GroupExact(StateMap, i);
  }

  /** In an ordinal table whose names differ even ignoring case, an input
      that is no key but equals an entry's name ignoring case selects
      exactly that entry's key and name, compared ignoring case. */
  lemma NameSelectsGroup(t: Table, s: string, i: int)
    requires 0 <= i < |t| && DistinctNames(t) && Lower(Trim(s)) == Lower(t[i].1)
    requires Trim(s) != [] && forall j :: 0 <= j < |t| ==> t[j].0 != Trim(s)
    ensures VariantsOf(t, false, Some(s)) == Variants({t[i].0, t[i].1}, true)
    ensures VariantsOf(t, false, Some(s)).Has(t[i].0) && VariantsOf(t, false, Some(s)).Has(t[i].1)
  {
    TrimEmptyIffBlank(s);
    assert Lookup(t, Trim(s), false).None?;
    GroupHasEntry(t, Trim(s), i);
    VariantGroupIgnoresCase(t, Trim(s), t[i].1);
    GroupExact(t, i);
  }

  /** A state code, possibly padded, selects exactly its code and its name,
      compared ignoring case. */
  lemma StateVariantsOfCode(s: string, i: int)
    requires 0 <= i < |StateMap| && Trim(s) == StateMap[i].0
    ensures GetStateVariants(Some(s)) == Variants({StateMap[i].0, StateMap[i].1}, true)
    ensures var v := GetStateVariants(Some(s));
            v.Has(StateMap[i].0) && v.Has(StateMap[i].1)
  {
    StateCodeMapsToName(s, i);
    GroupHasEntry(StateMap, StateMap[i].1, i);
    StateGroupExact(i);
  }

  /** A full state name in any letter case, possibly padded, selects exactly
      the same set: the code and the name, compared ignoring case. */
  lemma StateVariantsOfName(s: string, i: int)
    requires 0 <= i < |StateMap| && Lower(Trim(s)) == Lower(StateMap[i].1)
    ensures GetStateVariants(Some(s)) == Variants({StateMap[i].0, StateMap[i].1}, true)
    ensures var v := GetStateVariants(Some(s));
            v.Has(StateMap[i].0) && v.Has(StateMap[i].1)
  {
    StateMapWellShaped();
    assert |Trim(s)| == |StateMap[i].1| > 2;
    assert forall j :: 0 <= j < |StateMap| ==> StateMap[j].0 != Trim(s);
    StateNamesDistinct();
    NameSelectsGroup(StateMap, s, i);
  }

  /** Searching by a state's code or by its name filters on the same set. */
  lemma StateVariantsAgree(code: string, name: string, i: int)
    requires 0 <= i < |StateMap|
    requires Trim(code) == StateMap[i].0 && Lower(Trim(name)) == Lower(StateMap[i].1)
    ensures GetStateVariants(Some(code)) == GetStateVariants(Some(name))
  {
    StateVariantsOfCode(code, i);
    StateVariantsOfName(name, i);
  }

  /** The state table is case-sensitive: a lower-case code is not recognised and
      yields only its own spelling, compared ordinally. */
  lemma LowerCaseCodeNotRecognised(i: int)
    requires 0 <= i < |StateMap|
    ensures var c := Lower(StateMap[i].0);
            MapStateToCanonical(Some(c)) == Some(c) && GetStateVariants(Some(c)) == Variants({c}, false)
  {
    StateMapWellShaped();
    var c := Lower(StateMap[i].0);
    assert 'a' <= c[0] <= 'z' && 'a' <= c[1] <= 'z';
    LetterIsNotWhiteSpace(c[0]);
    LetterIsNotWhiteSpace(c[1]);
    TrimOfTrimmed(c);
    TrimEmptyIffBlank(c);
    assert Lookup(StateMap, c, false).None?;
    assert GroupOf(StateMap, c).None?;
  }

  /** `MapState` upper-cases first, so a code in any letter case maps to its name. */
  lemma MapStateAnyCase(s: string, i: int)
    requires 0 <= i < |StateMap| && Upper(s) == StateMap[i].0
    ensures MapState(s) == StateMap[i].1
  {
    StateMapDistinct();
    LookupOwnKey(StateMap, false, i);
  }

  /** The shape of `CountryToCanonical`: three United States keys, then two
      Canada keys, each folding to the lower-case spelling shown. */
  predicate CountryShaped(t: Table) {
    && |t| == 5
    && Lower(t[0].0) == "us" && Lower(t[1].0) == "usa" && Lower(t[2].0) == "united states"
    && Lower(t[3].0) == "ca" && Lower(t[4].0) == "canada"
    && t[1].1 == t[0].1 && t[2].1 == t[0].1 && t[4].1 == t[3].1
    && Lower(t[0].1) == "united states" && Lower(t[3].1) == "canada"
  }

  lemma CountryTableFacts()
    ensures CountryShaped(CountryToCanonical)
    ensures CountryToCanonical[0].1 == "United States" && CountryToCanonical[3].1 == "Canada"
  {
    UnitedStatesRowsFolded();
  }

  lemma UnitedStatesRowsFolded()
    ensures Lower(CountryToCanonical[2].0) == "united states" && Lower(CountryToCanonical[0].1) == "united states"
  {
  }

  /** Looking up a United States synonym yields the first row's name. */
  lemma UnitedStatesLookup(t: Table, k: string)
    requires CountryShaped(t) && Lower(k) in {"us", "usa", "united states"}
    ensures Lookup(t, k, true) == Some(t[0].1)
  {
    var f := Lower(k);
    if f == "us" {
      LookupFirst(t, k, true, 0);
    } else if f == "usa" {
      LookupFirst(t, k, true, 1);
    } else {
      LookupFirst(t, k, true, 2);
    }
  }

  /** Looking up a Canada synonym yields the fourth row's name. */
  lemma CanadaLookup(t: Table, k: string)
    requires CountryShaped(t) && Lower(k) in {"ca", "canada"}
    ensures Lookup(t, k, true) == Some(t[3].1)
  {
    var f := Lower(k);
    assert f != "us" && f != "usa" && f != "united states";
    if f == "ca" {
      LookupFirst(t, k, true, 3);
    } else {
      LookupFirst(t, k, true, 4);
    }
  }

  /** Any other key is not in the table. */
  lemma OtherCountryLookup(t: Table, k: string)
    requires CountryShaped(t) && Lower(k) !in {"us", "usa", "united states", "ca", "canada"}
    ensures Lookup(t, k, true).None?
  {
    forall i | 0 <= i < |t| ensures !KeyEq(t[i].0, k, true) {
      assert i == 0 || i == 1 || i == 2 || i == 3 || i == 4;
    }
  }

  /** A group never holds more than the rows whose name folds to the canonical name. */
  lemma {:induction false} VariantGroupWithin(t: Table, canonical: string, bound: set<string>)
    requires forall i :: 0 <= i < |t| && Lower(t[i].1) == Lower(canonical) ==> t[i].0 in bound && t[i].1 in bound
    ensures VariantGroup(t, canonical) <= bound
  {
    if t != [] {
      assert forall i :: 1 <= i < |t| ==> t[i] == t[1..][i - 1];
      VariantGroupWithin(t[1..], canonical, bound);
    }
  }

  lemma UnitedStatesRows(t: Table, canonical: string, i: int)
    requires CountryShaped(t) && Lower(canonical) == "united states"
    requires 0 <= i < |t| && Lower(t[i].1) == Lower(canonical)
    ensures i <= 2
  {
    assert Lower(t[3].1) != Lower(canonical);
  }

  lemma CanadaRows(t: Table, canonical: string, i: int)
    requires CountryShaped(t) && Lower(canonical) == "canada"
    requires 0 <= i < |t| && Lower(t[i].1) == Lower(canonical)
    ensures i >= 3
  {
    assert Lower(t[0].1) != Lower(canonical);
  }

  lemma UnitedStatesGroupWithin(t: Table, canonical: string)
    requires CountryShaped(t) && Lower(canonical) == "united states"
    ensures VariantGroup(t, canonical) <= {t[0].0, t[1].0, t[2].0, t[0].1}
  {
    var b := {t[0].0, t[1].0, t[2].0, t[0].1};
    forall i | 0 <= i < |t| && Lower(t[i].1) == Lower(canonical) ensures t[i].0 in b && t[i].1 in b {
      UnitedStatesRows(t, canonical, i);
    }
    VariantGroupWithin(t, canonical, b);
  }

  lemma CanadaGroupWithin(t: Table, canonical: string)
    requires CountryShaped(t) && Lower(canonical) == "canada"
    ensures VariantGroup(t, canonical) <= {t[3].0, t[4].0, t[3].1}
  {
    var b := {t[3].0, t[4].0, t[3].1};
    forall i | 0 <= i < |t| && Lower(t[i].1) == Lower(canonical) ensures t[i].0 in b && t[i].1 in b {
      CanadaRows(t, canonical, i);
    }
    VariantGroupWithin(t, canonical, b);
  }

  /** The group of the United States name is the three keys plus the name. */
  lemma UnitedStatesGroup(t: Table, canonical: string)
    requires CountryShaped(t) && Lower(canonical) == "united states"
    ensures VariantGroup(t, canonical) == {t[0].0, t[1].0, t[2].0, t[0].1}
  {
    UnitedStatesGroupWithin(t, canonical);
    var g := VariantGroup(t, canonical);
    assert t[0].0 in g && t[1].0 in g && t[2].0 in g && t[0].1 in g;
  }

  /** The group of the Canada name is its two keys plus the name. */
  lemma CanadaGroup(t: Table, canonical: string)
    requires CountryShaped(t) && Lower(canonical) == "canada"
    ensures VariantGroup(t, canonical) == {t[3].0, t[4].0, t[3].1}
  {
    CanadaGroupWithin(t, canonical);
    var g := VariantGroup(t, canonical);
    assert t[3].0 in g && t[4].0 in g && t[3].1 in g;
  }

  /** No other name has a group. */
  lemma OtherCountryGroup(t: Table, canonical: string)
    requires CountryShaped(t) && Lower(canonical) !in {"united states", "canada"}
    ensures VariantGroup(t, canonical) == {}
  {
    forall i | 0 <= i < |t| ensures Lower(t[i].1) != Lower(canonical) {
      assert i == 0 || i == 1 || i == 2 || i == 3 || i == 4;
    }
    VariantGroupWithin(t, canonical, {});
  }

  /** An input whose trimmed form is a key maps to that key's value, and its
      variants are the value's group. */
  lemma MappedThroughKey(t: Table, ignoreCase: bool, input: Option<string>, canonical: string, group: set<string>)
    requires !IsNullOrWhiteSpace(input)
    requires Lookup(t, Trim(input.value), ignoreCase) == Some(canonical)
    requires VariantGroup(t, canonical) == group && group != {}
    ensures Canonical(t, ignoreCase, input) == Some(canonical)
    ensures VariantsOf(t, ignoreCase, input) == Variants(group, true)
  {
  }

  /** An input that is no key and no value passes through trimmed, as its only variant. */
  lemma PassedThrough(t: Table, ignoreCase: bool, input: Option<string>)
    requires !IsNullOrWhiteSpace(input)
    requires Lookup(t, Trim(input.value), ignoreCase).None?
    requires VariantGroup(t, Trim(input.value)) == {}
    ensures Canonical(t, ignoreCase, input) == Some(Trim(input.value))
    ensures VariantsOf(t, ignoreCase, input) == Variants({Trim(input.value)}, false)
  {
  }

  /** Every spelling of the United States maps to "United States", and its
      variants are the three keys and the name, compared ignoring case. */
  lemma UnitedStatesSynonyms(s: string)
    requires Lower(Trim(s)) in {"us", "usa", "united states"}
    ensures MapCountryToCanonical(Some(s)) == Some("United States")
    ensures GetCountryVariants(Some(s)) == Variants({"US", "USA", "UNITED STATES", "United States"}, true)
  {
    var t := CountryToCanonical;
    TrimEmptyIffBlank(s);
    CountryTableFacts();
    UnitedStatesLookup(t, Trim(s));
    UnitedStatesGroup(t, t[0].1);
    assert {t[0].0, t[1].0, t[2].0, t[0].1} == {"US", "USA", "UNITED STATES", "United States"};
    MappedThroughKey(t, true, Some(s), t[0].1, {"US", "USA", "UNITED STATES", "United States"});
  }

  /** Every spelling of Canada maps to "Canada", with variants "CA", "CANADA", "Canada". */
  lemma CanadaSynonyms(s: string)
    requires Lower(Trim(s)) in {"ca", "canada"}
    ensures MapCountryToCanonical(Some(s)) == Some("Canada")
    ensures GetCountryVariants(Some(s)) == Variants({"CA", "CANADA", "Canada"}, true)
  {
    var t := CountryToCanonical;
    TrimEmptyIffBlank(s);
    CountryTableFacts();
    CanadaLookup(t, Trim(s));
    CanadaGroup(t, t[3].1);
    assert {t[3].0, t[4].0, t[3].1} == {"CA", "CANADA", "Canada"};
    MappedThroughKey(t, true, Some(s), t[3].1, {"CA", "CANADA", "Canada"});
  }

  /** Any other non-blank country passes through trimmed, as its only variant. */
  lemma OtherCountryPassesThrough(s: string)
    requires !IsBlank(s)
    requires Lower(Trim(s)) !in {"us", "usa", "united states", "ca", "canada"}
    ensures MapCountryToCanonical(Some(s)) == Some(Trim(s))
    ensures GetCountryVariants(Some(s)) == Variants({Trim(s)}, false)
  {
    CountryTableFacts();
    OtherCountryLookup(CountryToCanonical, Trim(s));
    OtherCountryGroup(CountryToCanonical, Trim(s));
    PassedThrough(CountryToCanonical, true, Some(s));
  }
}
