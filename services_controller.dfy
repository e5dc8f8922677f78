/** Service tags (TruckServices/Controllers/ServicesController.cs): the slug
    generator and the Create/Update/Delete/Index rules over the Services table. */
module ServicesController {
  import opened Common
  import opened Text
  import opened Sorting
  import opened Data

  // ---------------------------------------------------------------------------
  // Slug generation
  // ---------------------------------------------------------------------------

  predicate IsSlugChar(c: char) {
    'a' <= c <= 'z' || '0' <= c <= '9' || c == '-'
  }

  /** A slug: only a-z, 0-9 and '-', and no '-' at either end. */
  predicate IsSlug(s: string) {
    (forall i :: 0 <= i < |s| ==> IsSlugChar(s[i]))
    && (s == [] || (s[0] != '-' && s[|s| - 1] != '-'))
  }

  /** What survives `Regex.Replace(text, "[^a-z0-9\s-]", "")`. */
  predicate Kept(c: char) {
    'a' <= c <= 'z' || '0' <= c <= '9' || IsWhiteSpace(c) || c == '-'
  }

  /** Deletes every character outside a-z, 0-9, white space and '-'. */
  function KeepSlugChars(s: string): (r: string)
    ensures forall i :: 0 <= i < |r| ==> Kept(r[i])
    ensures (forall i :: 0 <= i < |s| ==> Kept(s[i])) ==> r == s
  {
    if s == [] then []
    else if Kept(s[0]) then [s[0]] + KeepSlugChars(s[1..])
    else KeepSlugChars(s[1..])
  }

  /** Deleting characters works piece by piece: with `KeepSlugCharsOne`,
      every kept character survives, in order, and every other one goes. */
  lemma {:induction false} KeepSlugCharsAppend(a: string, b: string)
    ensures KeepSlugChars(a + b) == KeepSlugChars(a) + KeepSlugChars(b)
  {
    if a == [] {
      assert a + b == b;
    } else {
      var ab := a + b;
      assert ab[0] == a[0] && ab[1..] == a[1..] + b;
      KeepSlugCharsAppend(a[1..], b);
      var rest := KeepSlugChars(a[1..]);
      if Kept(a[0]) {
        assert KeepSlugChars(ab) == [a[0]] + (rest + KeepSlugChars(b));
        assert KeepSlugChars(a) == [a[0]] + rest;
      } else {
        assert KeepSlugChars(ab) == rest + KeepSlugChars(b);
        assert KeepSlugChars(a) == rest;
      }
    }
  }

  /** One character is kept exactly when `Kept` accepts it. */
  lemma KeepSlugCharsOne(c: char)
    ensures KeepSlugChars([c]) == if Kept(c) then [c] else []
  {
    assert [c][1..] == [];
  }

  /** `Regex.Replace(text, "\s+", "-")`: every maximal white-space run becomes one '-'.
      (.NET's `\s` is exactly the set `char.IsWhiteSpace` accepts.) */
  function HyphenateWhiteSpace(s: string): string
    decreases |s|
  {
    if s == [] then []
    else if IsWhiteSpace(s[0]) then
      var rest := TrimStart(s);
      assert |rest| < |s|;
      "-" + HyphenateWhiteSpace(rest)
    else [s[0]] + HyphenateWhiteSpace(s[1..])
  }

  /** Hyphenating kept characters leaves only slug characters (no white space). */
  lemma {:induction false} HyphenateGivesSlugChars(s: string)
    requires forall i :: 0 <= i < |s| ==> Kept(s[i])
    ensures forall i :: 0 <= i < |HyphenateWhiteSpace(s)| ==> IsSlugChar(HyphenateWhiteSpace(s)[i])
    decreases |s|
  {
    if s != [] {
      if IsWhiteSpace(s[0]) {
        var rest := TrimStart(s);
        assert forall i :: 0 <= i < |rest| ==> rest[i] == s[|s| - |rest| + i];
        HyphenateGivesSlugChars(rest);
      } else {
        assert forall i :: 0 <= i < |s[1..]| ==> s[1..][i] == s[i + 1];
        HyphenateGivesSlugChars(s[1..]);
      }
    }
  }

  /** Text without white space is left as it is. */
  lemma {:induction false} HyphenateWithoutWhiteSpace(s: string)
    requires forall i :: 0 <= i < |s| ==> !IsWhiteSpace(s[i])
    ensures HyphenateWhiteSpace(s) == s
    decreases |s|
  {
    if s != [] {
      assert forall i :: 0 <= i < |s[1..]| ==> s[1..][i] == s[i + 1];
      HyphenateWithoutWhiteSpace(s[1..]);
      assert s == [s[0]] + s[1..];
    }
  }

  /** `TrimStart('-')`. */
  function TrimLeadingHyphens(s: string): (r: string)
    ensures |r| <= |s| && r == s[|s| - |r|..]
    ensures r == [] || r[0] != '-'
  {
    if s != [] && s[0] == '-' then TrimLeadingHyphens(s[1..]) else s
  }

  /** `TrimEnd('-')`. */
  function TrimTrailingHyphens(s: string): (r: string)
    ensures |r| <= |s| && r == s[..|r|]
    ensures r == [] || r[|r| - 1] != '-'
  {
    if s != [] && s[|s| - 1] == '-' then TrimTrailingHyphens(s[..|s| - 1]) else s
  }

  /** `Trim('-')`. */
  function TrimHyphens(s: string): string {
    TrimTrailingHyphens(TrimLeadingHyphens(s))
  }

  /** `Generate`: lower-case, drop the characters a slug cannot hold, turn each
      white-space run into '-', and trim '-' from both ends. */
  function Generate(text: string): string {
    TrimHyphens(HyphenateWhiteSpace(KeepSlugChars(Lower(text))))
  }

  /** Lower-casing leaves no upper-case ASCII letter, so the kept characters are
      exactly lower-case letters, digits, white space and '-'. */
  lemma TrimHyphensIsSlug(s: string)
    requires forall i :: 0 <= i < |s| ==> IsSlugChar(s[i])
    ensures IsSlug(TrimHyphens(s))
  {
    var a := TrimLeadingHyphens(s);
    var b := TrimTrailingHyphens(a);
    assert forall i :: 0 <= i < |a| ==> a[i] == s[|s| - |a| + i];
    assert forall i :: 0 <= i < |b| ==> b[i] == a[i];
    if b != [] {
      assert b[0] == a[0];
    }
  }

  /** Every generated slug is a slug: only a-z, 0-9 and '-', never '-' at an end. */
  lemma GenerateIsSlug(text: string)
    ensures IsSlug(Generate(text))
  {
    HyphenateGivesSlugChars(KeepSlugChars(Lower(text)));
    TrimHyphensIsSlug(HyphenateWhiteSpace(KeepSlugChars(Lower(text))));
  }

  /** A slug is left unchanged by every stage of `Generate`. */
  lemma GenerateOfSlug(s: string)
    requires IsSlug(s)
    ensures Generate(s) == s
  {
    assert Lower(s) == s;
    assert KeepSlugChars(s) == s by {
      assert forall i :: 0 <= i < |s| ==> Kept(s[i]);
    }
    assert HyphenateWhiteSpace(s) == s by {
      assert forall i :: 0 <= i < |s| ==> !IsWhiteSpace(s[i]);
      HyphenateWithoutWhiteSpace(s);
    }
    assert TrimHyphens(s) == s by {
      assert TrimLeadingHyphens(s) == s;
    }
  }

  /** `Generate` is idempotent. */
  lemma GenerateIdempotent(text: string)
    ensures Generate(Generate(text)) == Generate(text)
  {
    GenerateIsSlug(text);
    GenerateOfSlug(Generate(text));
  }

  /** Existing hyphens are kept and the space on each side becomes another one:
      "a - b" gives "a---b", for any lower-case letters or digits in place of a and b. */
  lemma HyphensAreNotCollapsed(x: char, y: char)
    requires IsAlphanumeric(x) && IsAlphanumeric(y)
    ensures Generate([x, ' ', '-', ' ', y]) == [x, '-', '-', '-', y]
  {
    var s := [x, ' ', '-', ' ', y];
    SpacedHyphenIsKept(x, y);
    HyphenateSpacedHyphen(x, y);
    assert [x] + [' ', '-', ' ', y] == s;
    var h := [x, '-', '-', '-', y];
    assert TrimLeadingHyphens(h) == h;
    assert TrimTrailingHyphens(h) == h;
  }

  lemma SpacedHyphenIsKept(x: char, y: char)
    requires IsAlphanumeric(x) && IsAlphanumeric(y)
    ensures KeepSlugChars(Lower([x, ' ', '-', ' ', y])) == [x, ' ', '-', ' ', y]
  {
    var s := [x, ' ', '-', ' ', y];
    assert Lower(s) == s;
    assert forall i :: 0 <= i < |s| ==> Kept(s[i]);
  }

  lemma HyphenateSpacedHyphen(x: char, y: char)
    requires IsAlphanumeric(x) && IsAlphanumeric(y)
    ensures HyphenateWhiteSpace([x] + [' ', '-', ' ', y]) == [x, '-', '-', '-', y]
  {
    HyphenateSpacedTail(y);
    HyphenateKeepsValue(x, [' ', '-', ' ', y], ['-', '-', '-', y]);
  }

  lemma HyphenateKeepsValue(c: char, rest: string, hyphenated: string)
    requires !IsWhiteSpace(c) && HyphenateWhiteSpace(rest) == hyphenated
    ensures HyphenateWhiteSpace([c] + rest) == [c] + hyphenated
  {
    HyphenateKeeps(c, rest);
  }

  lemma HyphenateSpaceThenLetter(y: char)
    requires IsAlphanumeric(y)
    ensures HyphenateWhiteSpace([' ', y]) == ['-', y]
  {
    HyphenateKeeps(y, []);
    assert [y] + [] == [y];
    HyphenateRun(' ', [y]);
    assert [' '] + [y] == [' ', y];
  }

  lemma HyphenateHyphenThenSpace(y: char)
    requires IsAlphanumeric(y)
    ensures HyphenateWhiteSpace(['-', ' ', y]) == ['-', '-', y]
  {
    HyphenateSpaceThenLetter(y);
    HyphenateKeeps('-', [' ', y]);
    assert ['-'] + [' ', y] == ['-', ' ', y];
  }

  lemma HyphenateSpacedTail(y: char)
    requires IsAlphanumeric(y)
    ensures HyphenateWhiteSpace([' ', '-', ' ', y]) == ['-', '-', '-', y]
  {
    HyphenateHyphenThenSpace(y);
    HyphenateRun(' ', ['-', ' ', y]);
    assert [' '] + ['-', ' ', y] == [' ', '-', ' ', y];
  }

  predicate IsAlphanumeric(c: char) {
    'a' <= c <= 'z' || '0' <= c <= '9'
  }

  lemma HyphenateKeeps(c: char, rest: string)
    requires !IsWhiteSpace(c)
    ensures HyphenateWhiteSpace([c] + rest) == [c] + HyphenateWhiteSpace(rest)
  {
    assert ([c] + rest)[1..] == rest;
  }

  lemma HyphenateRun(c: char, rest: string)
    requires IsWhiteSpace(c) && (rest == [] || !IsWhiteSpace(rest[0]))
    ensures HyphenateWhiteSpace([c] + rest) == "-" + HyphenateWhiteSpace(rest)
  {
    assert ([c] + rest)[1..] == rest;
  }

  /** A maximal white-space run of any length becomes a single '-'. */
  lemma HyphenateBlankRun(w: string, rest: string)
    requires w != [] && IsBlank(w) && (rest == [] || !IsWhiteSpace(rest[0]))
    ensures HyphenateWhiteSpace(w + rest) == "-" + HyphenateWhiteSpace(rest)
  {
    assert (w + rest)[0] == w[0];
    TrimStartAfterSpaces(w, rest);
  }

  // ---------------------------------------------------------------------------
  // The Services table
  // ---------------------------------------------------------------------------

  /** What an action answers. */
  datatype Reply =
    | Ok
    | Created(service: Service)
    | NotFound
    | BadRequest(message: string)
    | ServerError   // an exception escaped the action

  /** The request body of `Create`/`Update`: `Name` may be null. */
  datatype ServiceForm = ServiceForm(id: int, name: Option<string>, isActive: bool)

  /** Some row already carries `slug`. */
  predicate SlugTaken(services: seq<Service>, slug: string) {
    exists i :: 0 <= i < |services| && services[i].slug == slug
  }

  /** No two rows share a slug. */
  predicate UniqueSlugs(services: seq<Service>) {
    forall i, j :: 0 <= i < j < |services| ==> services[i].slug != services[j].slug
  }

  /** The answer `Create` gives for a form, given the rows already stored. */
  function CreateReply(services: seq<Service>, form: ServiceForm, newId: int): Reply {
    if IsNullOrWhiteSpace(form.name) then BadRequest("Service name is required.")
    else if SlugTaken(services, Generate(form.name.value)) then BadRequest("Service already exists.")
    else Created(Service(newId, Trim(form.name.value), Generate(form.name.value), form.isActive))
  }

  /** `Create` refuses a blank name and a taken slug; otherwise the new row holds
      the trimmed name, the generated slug and the requested flag. */
  lemma CreateReplyCases(services: seq<Service>, form: ServiceForm, newId: int)
    ensures var r := CreateReply(services, form, newId);
            && (IsNullOrWhiteSpace(form.name) ==> r == BadRequest("Service name is required."))
            && (!IsNullOrWhiteSpace(form.name) && SlugTaken(services, Generate(form.name.value)) ==>
                  r == BadRequest("Service already exists."))
            && (r.Created? <==> !IsNullOrWhiteSpace(form.name) && !SlugTaken(services, Generate(form.name.value)))
            && (r.Created? ==> r.service.name == Trim(r.service.name) && IsSlug(r.service.slug)
                               && r.service.isActive == form.isActive && r.service.id == newId)
  {
    var r := CreateReply(services, form, newId);
    if r.Created? {
      TrimIdempotent(form.name.value);
      GenerateIsSlug(form.name.value);
    }
  }

  /** Rows created through `Create` never share a slug. */
  lemma CreateKeepsSlugsUnique(services: seq<Service>, form: ServiceForm, newId: int)
    requires UniqueSlugs(services)
    requires CreateReply(services, form, newId).Created?
    ensures UniqueSlugs(services + [CreateReply(services, form, newId).service])
  {
    var s := services + [CreateReply(services, form, newId).service];
    forall i, j | 0 <= i < j < |s| ensures s[i].slug != s[j].slug {
      if j == |services| {
        assert s[i] == services[i];
      } else {
        assert s[i] == services[i] && s[j] == services[j];
      }
    }
  }

  /** The rows after `Update` rewrote the row at `k`. */
  function UpdatedRows(services: seq<Service>, k: nat, name: string, isActive: bool): seq<Service>
    requires k < |services|
  {
    services[k := Service(services[k].id, Trim(name), Generate(name), isActive)]
  }

  /** `Update` does not check slugs: renaming a row to a name whose slug
      another row already carries leaves two rows with the same slug. */
  lemma UpdateMayDuplicateSlug(services: seq<Service>, k: nat, j: nat, name: string, isActive: bool)
    requires k < |services| && j < |services| && k != j
    requires services[j].slug == Generate(name)
    ensures !UniqueSlugs(UpdatedRows(services, k, name, isActive))
  {
    var r := UpdatedRows(services, k, name, isActive);
    assert r[j].slug == r[k].slug;
    if k < j {
      assert !(r[k].slug != r[j].slug);
    } else {
      assert !(r[j].slug != r[k].slug);
    }
  }

  /** `OrderBy(s => s.Name)`, modelled with the ordinal order. */
  predicate NameLe(a: Service, b: Service) {
    StrLe(a.name, b.name)
  }

  /** Appending a row with the next id keeps ids unique and below the counter. */
  lemma AppendFreshId(services: seq<Service>, nextId: int, s: Service)
    requires forall i :: 0 <= i < |services| ==> 1 <= services[i].id < nextId
    requires UniqueKeys(services, ServiceKey)
    requires s.id == nextId && nextId >= 1
    ensures var r := services + [s];
            && (forall i :: 0 <= i < |r| ==> 1 <= r[i].id < nextId + 1)
            && UniqueKeys(r, ServiceKey)
  {
  }

  /** Replacing a row by one with the same id keeps ids unique and below
      the counter. */
  lemma ReplaceKeepsIds(services: seq<Service>, nextId: int, k: nat, row: Service)
    requires k < |services| && row.id == services[k].id
    requires forall i :: 0 <= i < |services| ==> 1 <= services[i].id < nextId
    requires UniqueKeys(services, ServiceKey)
    ensures var r := services[k := row];
            && (forall i :: 0 <= i < |r| ==> 1 <= r[i].id < nextId)
            && UniqueKeys(r, ServiceKey)
  {
    var r := services[k := row];
    assert forall i :: 0 <= i < |r| ==> r[i].id == services[i].id;
  }

  /** Some company is linked to the service. */
  predicate Assigned(links: seq<CompanyLink>, serviceId: int) {
    exists i :: 0 <= i < |links| && links[i].serviceId == serviceId
  }

  /** The Services table with its company links; ids are handed out by the
      database from `nextId` upwards. */
  class ServiceCatalog {
    var services: seq<Service>
    var links: seq<CompanyLink>
    var nextId: int

    /** Ids are positive, below `nextId`, and unique. */
    ghost predicate Valid()
      reads this
    {
      && nextId >= 1
      && (forall i :: 0 <= i < |services| ==> 1 <= services[i].id < nextId)
      && UniqueKeys(services, ServiceKey)
    }

    constructor ()
      ensures Valid() && services == [] && links == [] && nextId == 1
    {
      services, links, nextId := [], [], 1;
    }

    /** `Index`: every service, ordered by name. */
    method Index() returns (r: seq<Service>)
      ensures SortedBy(r, NameLe)
      ensures multiset(r) == multiset(services)
    {
      StrKeyIsTotalPreorder(NameLe, (s: Service) => s.name);
      r := SortBy(services, NameLe);
    }

    /** `Create`: see `CreateReply`; the new row is appended, nothing else changes. */
    method Create(form: ServiceForm) returns (reply: Reply)
      requires Valid()
      modifies this`services, this`nextId
      ensures Valid()
      ensures reply == CreateReply(old(services), form, old(nextId))
      ensures reply.Created? ==> services == old(services) + [reply.service] && nextId == old(nextId) + 1
      ensures !reply.Created? ==> services == old(services) && nextId == old(nextId)
    {
      if IsNullOrWhiteSpace(form.name) {
        return BadRequest("Service name is required.");
      }
      var slug := Generate(form.name.value);
      if SlugTaken(services, slug) {
        return BadRequest("Service already exists.");
      }
      var service := Service(nextId, Trim(form.name.value), slug, form.isActive);
      reply := Created(service);
      Add(service);
    }

    /** `Services.Add` and `SaveChangesAsync`: the database assigns the next id. */
    method Add(s: Service)
      requires Valid() && s.id == nextId
      modifies this`services, this`nextId
      ensures Valid() && services == old(services) + [s] && nextId == old(nextId) + 1
    {
      AppendFreshId(services, nextId, s);
      services := services + [s];
      nextId := nextId + 1;
    }

    /** Writes `row` over the row at `k`, which keeps its id. */
    method Replace(k: nat, row: Service)
      requires Valid() && k < |services| && row.id == services[k].id
      modifies this`services
      ensures Valid() && services == old(services)[k := row]
    {
      ReplaceKeepsIds(services, nextId, k, row);
      services := services[k := row];
    }

    /** `Update`: NotFound for an unknown id; a null name throws after the row is
        found; otherwise only that row's name, slug and flag change. */
    method Update(form: ServiceForm) returns (reply: Reply)
      requires Valid()
      modifies this`services
      ensures Valid()
      ensures FindIndex(old(services), ServiceKey, form.id).None? ==> reply == NotFound && services == old(services)
      ensures FindIndex(old(services), ServiceKey, form.id).Some? && form.name.None? ==>
                reply == ServerError && services == old(services)
      ensures FindIndex(old(services), ServiceKey, form.id).Some? && form.name.Some? ==>
                reply == Reply.Ok
                && services == UpdatedRows(old(services), FindIndex(old(services), ServiceKey, form.id).value, form.name.value, form.isActive)
    {
      var k := FindIndex(services, ServiceKey, form.id);
      if k.None? {
        return NotFound;
      }
      if form.name.None? {
        return ServerError;
      }
      var row := Service(services[k.value].id, Trim(form.name.value), Generate(form.name.value), form.isActive);
      Replace(k.value, row);
      reply := Reply.Ok;
    }

    /** `Delete`: NotFound for an unknown id, BadRequest while any company is
        linked to the service, otherwise exactly that row is removed. */
    method Delete(id: int) returns (reply: Reply)
      requires Valid()
      modifies this`services
      ensures Valid()
      ensures FindIndex(old(services), ServiceKey, id).None? ==> reply == NotFound && services == old(services)
      ensures FindIndex(old(services), ServiceKey, id).Some? && Assigned(links, id) ==>
                reply == BadRequest("Service is assigned to companies.") && services == old(services)
      ensures FindIndex(old(services), ServiceKey, id).Some? && !Assigned(links, id) ==>
                reply == Reply.Ok && services == RemoveAt(old(services), FindIndex(old(services), ServiceKey, id).value)
    {
      var k := FindIndex(services, ServiceKey, id);
      if k.None? {
        return NotFound;
      }
      if Assigned(links, id) {
        return BadRequest("Service is assigned to companies.");
      }
      services := RemoveAt(services, k.value);
      reply := Reply.Ok;
    }
  }
}
