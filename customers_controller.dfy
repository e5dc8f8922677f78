/** Provider records (TruckServices/Controllers/CustomersController.cs): the
    searchable, Id-ordered, paged listing and the Create/Edit/Delete/GetImage
    rules over the CustomersData table. */
module CustomersController {
  import opened Common
  import opened Text
  import opened Sorting
  import opened Data

  // ---------------------------------------------------------------------------
  // Index: filter, order, page
  // ---------------------------------------------------------------------------

  /** `column.ToLower().Contains(needle)` as the database evaluates it: a NULL
      column makes the comparison unknown, so the row does not match. */
  predicate FoldedColumnContains(column: Option<string>, needle: string) {
    column.Some? && Contains(Lower(column.value), needle)
  }

  /** The search predicate: the lower-cased company name, city or e-mail
      contains the lower-cased search, or the mobile number contains the search
      as typed. */
  predicate MatchesSearch(c: Customer, search: string) {
    var folded := Lower(search);
    || FoldedColumnContains(c.companyName, folded)
    || FoldedColumnContains(c.city, folded)
    || FoldedColumnContains(c.email, folded)
    || (c.mobileNumber.Some? && Contains(c.mobileNumber.value, search))
  }

  /** The rows `Index` lists: all of them for a null or blank search, the
      matching ones otherwise, in table order. */
  function Filtered(table: seq<Customer>, search: Option<string>): (r: seq<Customer>)
    ensures |r| <= |table|
    ensures forall c :: c in r <==> c in table && (IsNullOrWhiteSpace(search) || MatchesSearch(c, search.value))
  {
    if IsNullOrWhiteSpace(search) then table
    else Filter(table, (c: Customer) => MatchesSearch(c, search.value))
  }

  /** A null or blank search applies no filter. */
  lemma BlankSearchKeepsAll(table: seq<Customer>, search: Option<string>)
    requires IsNullOrWhiteSpace(search)
    ensures Filtered(table, search) == table
  {
  }

  /** The company name is matched without regard to ASCII case. */
  lemma SearchIgnoresCaseOfName(c: Customer, search: string)
    requires c.companyName.Some? && Contains(Lower(c.companyName.value), Lower(search))
    ensures MatchesSearch(c, search) && MatchesSearch(c, Upper(search))
  {
    LowerOfUpper(search);
  }

  /** Upper-casing then lower-casing is lower-casing. */
  lemma LowerOfUpper(s: string)
    ensures Lower(Upper(s)) == Lower(s)
  {
    assert forall i :: 0 <= i < |s| ==> Lower(Upper(s))[i] == Lower(s)[i];
  }

  /** `OrderBy(c => c.Id)`. */
  predicate IdLe(a: Customer, b: Customer) {
    a.id <= b.id
  }

  /** The filtered rows ordered by id. */
  function Ordered(table: seq<Customer>, search: Option<string>): (r: seq<Customer>)
    ensures SortedBy(r, IdLe)
    ensures multiset(r) == multiset(Filtered(table, search))
  {
    IntKeyIsTotalPreorder(IdLe, CustomerKey);
    SortBy(Filtered(table, search), IdLe)
  }

  /** `(int)Math.Ceiling(n / (double)d)` for a non-zero `d`: the least integer
      not below the quotient. */
  function CeilDiv(n: nat, d: int): (r: int)
    requires d != 0
    ensures d > 0 ==> (r - 1) * d < n <= r * d
    ensures d < 0 ==> r * d <= n < (r - 1) * d
  {
    if d > 0 then (n + d - 1) / d else -(n / -d)
  }

  /** The number of pages; `None` when the page size is 0, where the quotient
      is infinite or not a number. */
  function TotalPages(totalItems: nat, pageSize: int): Option<int> {
    if pageSize == 0 then None else Some(CeilDiv(totalItems, pageSize))
  }

  /** What `Index` hands to its view. */
  datatype IndexView = IndexView(
    customers: seq<Customer>,
    currentPage: int,
    totalPages: Option<int>,
    search: string)

  /** The offset `Skip` receives: `(page - 1) * pageSize` in unchecked `int`
      arithmetic. */
  function PageOffset(page: int, pageSize: int): int {
    Wrap32(Wrap32(page - 1) * pageSize)
  }

  /** `Index(page, pageSize, search)`. */
  function Index(table: seq<Customer>, page: int, pageSize: int, search: Option<string>): (v: IndexView)
    ensures SortedBy(v.customers, IdLe)
    ensures forall c :: c in v.customers ==> c in table && (IsNullOrWhiteSpace(search) || MatchesSearch(c, search.value))
    ensures pageSize >= 0 ==> |v.customers| <= pageSize
    ensures v.currentPage == page
    ensures v.totalPages == TotalPages(|Filtered(table, search)|, pageSize)
    ensures v.search == (if search.Some? then search.value else "")
  {
    var ordered := Ordered(table, search);
    var page' := SkipTake(ordered, PageOffset(page, pageSize), pageSize);
    forall c | c in page' ensures c in Filtered(table, search) {
      assert c in multiset(ordered);
    }
    assert SortedBy(page', IdLe) by {
      forall i, j | 0 <= i < j < |page'| ensures IdLe(page'[i], page'[j]) {
        OffsetInSlice(ordered, PageOffset(page, pageSize), pageSize, i, j);
      }
    }
    IndexView(page', page, TotalPages(|Filtered(table, search)|, pageSize),
              if search.Some? then search.value else "")
  }

  /** Every listed row lands on exactly one page: the row at position `i` of
      the ordered result is row `i % pageSize` of page `i / pageSize + 1`, and
      that page is within `TotalPages`. */
  lemma {:induction false} RowOnItsPage(table: seq<Customer>, search: Option<string>, pageSize: int, i: int)
    requires 0 < pageSize && IsInt32(|table|)
    requires 0 <= i < |Ordered(table, search)|
    ensures i % pageSize < |Index(table, i / pageSize + 1, pageSize, search).customers|
    ensures Index(table, i / pageSize + 1, pageSize, search).customers[i % pageSize] == Ordered(table, search)[i]
    ensures 1 <= i / pageSize + 1 <= CeilDiv(|Filtered(table, search)|, pageSize)
  {
    var ordered := Ordered(table, search);
    var n := |Filtered(table, search)|;
    OrderedLength(table, search);
    assert |ordered| == n <= |table|;
    RowInPage(ordered, pageSize, i);
    PageStart(i, pageSize, n);
    LastPageCoversRow(n, pageSize, i);
  }

  /** Position `i` of a sequence whose length fits an `int` is slot
      `i % d` of the page numbered `i / d + 1`. */
  lemma RowInPage<T>(s: seq<T>, d: int, i: int)
    requires 0 < d && IsInt32(|s|) && 0 <= i < |s|
    ensures i % d < |SkipTake(s, PageOffset(i / d + 1, d), d)|
    ensures SkipTake(s, PageOffset(i / d + 1, d), d)[i % d] == s[i]
  {
    var q := i / d;
    PageStart(i, d, |s|);
    PageOffsetOf(q, d);
    SliceAt(s, q * d, d, i % d);
  }

  /** For a positive page size and a page from 1 whose offset fits an `int`,
      `Index` lists the ordered rows from position `(page - 1) * pageSize` on,
      `pageSize` of them or as many as remain. */
  lemma IndexCustomers(table: seq<Customer>, page: int, pageSize: int, search: Option<string>)
    requires 0 < pageSize && 1 <= page && IsInt32(page - 1) && IsInt32((page - 1) * pageSize)
    ensures var ordered := Ordered(table, search);
            var start := (page - 1) * pageSize;
            var listed := Index(table, page, pageSize, search).customers;
            && |listed| == (if start >= |ordered| then 0
                            else if |ordered| - start < pageSize then |ordered| - start
                            else pageSize)
            && forall m :: 0 <= m < |listed| ==> 0 <= start + m < |ordered| && listed[m] == ordered[start + m]
  {
    var ordered := Ordered(table, search);
    var start := (page - 1) * pageSize;
    PageOffsetOf(page - 1, pageSize);
    MulMonotone(0, page - 1, pageSize);
    assert PageOffset(page, pageSize) == start;
    assert Index(table, page, pageSize, search).customers == SkipTake(ordered, start, pageSize);
  }

  /** Slot `m` of a page of size `d` starting at `offset` is row `offset + m`. */
  lemma SliceAt<T>(s: seq<T>, offset: int, d: int, m: int)
    requires 0 <= offset && 0 <= m < d && offset + m < |s|
    ensures m < |SkipTake(s, offset, d)| && SkipTake(s, offset, d)[m] == s[offset + m]
  {
  }

  /** Page `q + 1` starts at row `q * d` when no `int` arithmetic overflows. */
  lemma PageOffsetOf(q: int, d: int)
    requires IsInt32(q) && IsInt32(q * d)
    ensures PageOffset(q + 1, d) == q * d
  {
  }

  /** Ordering keeps the number of rows. */
  lemma OrderedLength(table: seq<Customer>, search: Option<string>)
    ensures |Ordered(table, search)| == |Filtered(table, search)|
  {
    assert |multiset(Ordered(table, search))| == |multiset(Filtered(table, search))|;
  }

  /** Position `i` of `n` rows sits at offset `i % d` of the page starting at
      `(i / d) * d`, and that offset fits an `int` when `n` does. */
  lemma PageStart(i: int, d: int, n: int)
    requires 0 <= i < n && 0 < d && IsInt32(n)
    ensures 0 <= i / d && 0 <= (i / d) * d <= i && i == (i / d) * d + i % d && 0 <= i % d < d
    ensures IsInt32(i / d) && IsInt32((i / d) * d)
  {
    var q, m := i / d, i % d;
    assert i == d * q + m && 0 <= m < d;
    assert q >= 0 by {
      if q < 0 {
        MulMonotone(q, -1, d);
      }
    }
    MulMonotone(1, d, q);
  }

  /** The page holding position `i` is not past the last page. */
  lemma LastPageCoversRow(n: nat, d: int, i: int)
    requires 0 <= i < n && 0 < d
    ensures i / d + 1 <= CeilDiv(n, d)
  {
    var total := CeilDiv(n, d);
    var q := i / d;
    assert q * d <= i by {
      assert i == d * q + i % d;
    }
    MulCancel(q, total, d);
  }

  lemma MulMonotone(a: int, b: int, k: int)
    requires a <= b && 0 <= k
    ensures a * k <= b * k
  {
  }

  lemma MulCancel(a: int, b: int, k: int)
    requires 0 < k && a * k < b * k
    ensures a < b
  {
  }

  // ---------------------------------------------------------------------------
  // Create / Edit / Delete / GetImage
  // ---------------------------------------------------------------------------

  /** What an action answers. */
  datatype Reply =
    | RedirectToIndex
    | NotFound
    | FormView(model: Customer)   // the form again, when model validation failed
    | ServerError                 // an exception escaped the action
    | File(bytes: seq<byte>, contentType: string)

  /** The record `Edit` stores: the nine editable columns come from the form,
      the logo from the upload when there is one, and the id, `Source` and the
      service links stay as they were. */
  function Edited(existing: Customer, form: Customer, upload: Option<seq<byte>>): (r: Customer)
    ensures r.id == existing.id && r.source == existing.source && r.services == existing.services
    ensures r.companyName == form.companyName && r.streetAddress == form.streetAddress
    ensures r.city == form.city && r.state == form.state && r.country == form.country
    ensures r.mobileNumber == form.mobileNumber && r.secondMobileNumber == form.secondMobileNumber
    ensures r.email == form.email && r.isPaid == form.isPaid
    ensures upload.Some? ==> r.image == upload
    ensures upload.None? ==> r.image == existing.image
  {
    existing.(companyName := form.companyName, streetAddress := form.streetAddress,
              city := form.city, state := form.state, country := form.country,
              mobileNumber := form.mobileNumber, secondMobileNumber := form.secondMobileNumber,
              email := form.email, isPaid := form.isPaid,
              image := if upload.Some? then upload else existing.image)
  }

  /** Posting the same form twice stores the same record as posting it once. */
  lemma EditIdempotent(existing: Customer, form: Customer, upload: Option<seq<byte>>)
    ensures Edited(Edited(existing, form, upload), form, upload) == Edited(existing, form, upload)
  {
  }

  /** The record `Create` stores: the form, with the uploaded logo when there is
      one, under the key the database hands out. */
  function Created(form: Customer, upload: Option<seq<byte>>, newId: int): (r: Customer)
    ensures r.id == newId
    ensures r.image == (if upload.Some? then upload else form.image)
    ensures r.(id := form.id, image := form.image) == form
  {
    form.(id := newId, image := if upload.Some? then upload else form.image)
  }

  /** `GetImage(id)`: the stored logo as a JPEG file, or NotFound when the
      record or its logo is missing. */
  function GetImage(records: seq<Customer>, id: int): (r: Reply)
    ensures r.File? <==> exists i :: 0 <= i < |records| && records[i].id == id && records[i].image.Some?
                                     && FindIndex(records, CustomerKey, id) == Some(i)
    ensures r.File? ==> r.contentType == "image/jpeg"
                        && r.bytes == records[FindIndex(records, CustomerKey, id).value].image.value
    ensures !r.File? ==> r == NotFound
  {
    match FindIndex(records, CustomerKey, id)
    case None => NotFound
    case Some(k) =>
      if records[k].image.None? then NotFound else File(records[k].image.value, "image/jpeg")
  }

  /** With unique ids, `GetImage` answers with the logo of the record that has
      the id, and NotFound exactly when that record is absent or has no logo. */
  lemma GetImageOfRecord(records: seq<Customer>, i: nat)
    requires UniqueKeys(records, CustomerKey) && i < |records|
    ensures records[i].image.None? ==> GetImage(records, records[i].id) == NotFound
    ensures records[i].image.Some? ==> GetImage(records, records[i].id) == File(records[i].image.value, "image/jpeg")
  {
    var k := FindIndex(records, CustomerKey, records[i].id).value;
    assert k == i;
  }

  /** The CustomersData table; the database hands out keys from `nextId` on. */
  class CustomerTable {
    var records: seq<Customer>
    var nextId: int

    /** Keys are positive, below `nextId`, and unique. */
    ghost predicate Valid()
      reads this
    {
      && nextId >= 1
      && (forall i :: 0 <= i < |records| ==> 1 <= records[i].id < nextId)
      && UniqueKeys(records, CustomerKey)
    }

    constructor ()
      ensures Valid() && records == [] && nextId == 1
    {
      records, nextId := [], 1;
    }

    /** `Create(customer, image)`: an invalid form changes nothing; a valid one
        is stored as `Created` describes. */
    method Create(form: Customer, upload: Option<seq<byte>>, modelValid: bool) returns (reply: Reply)
      requires Valid()
      modifies this
      ensures Valid()
      ensures !modelValid ==> reply == FormView(form) && records == old(records) && nextId == old(nextId)
      ensures modelValid ==> reply == RedirectToIndex
                             && records == old(records) + [Created(form, upload, old(nextId))]
                             && nextId == old(nextId) + 1
    {
      if !modelValid {
        return FormView(form);
      }
      var row := Created(form, upload, nextId);
      AppendFreshKey(records, nextId, row);
      records := records + [row];
      nextId := nextId + 1;
      reply := RedirectToIndex;
    }

    /** `Edit(id, customer, image)`: NotFound when the route id and the form's
        id differ or no record has the id; the form again when it is invalid;
        otherwise only that record changes, as `Edited` describes. */
    method Edit(id: int, form: Customer, upload: Option<seq<byte>>, modelValid: bool) returns (reply: Reply)
      requires Valid()
      modifies this`records
      ensures Valid()
      ensures id != form.id ==> reply == NotFound && records == old(records)
      ensures id == form.id && !modelValid ==> reply == FormView(form) && records == old(records)
      ensures id == form.id && modelValid && FindIndex(old(records), CustomerKey, id).None? ==>
                reply == NotFound && records == old(records)
      ensures id == form.id && modelValid && FindIndex(old(records), CustomerKey, id).Some? ==>
                var k := FindIndex(old(records), CustomerKey, id).value;
                reply == RedirectToIndex && records == old(records)[k := Edited(old(records)[k], form, upload)]
    {
      if id != form.id {
        return NotFound;
      }
      if !modelValid {
        return FormView(form);
      }
      var k := FindIndex(records, CustomerKey, id);
      if k.None? {
        return NotFound;
      }
      var row := Edited(records[k.value], form, upload);
      records := records[k.value := row];
      reply := RedirectToIndex;
    }

    /** `DeleteConfirmed(id)`: removes the record with the id; when there is
        none, `Remove(null)` throws and nothing changes. */
    method DeleteConfirmed(id: int) returns (reply: Reply)
      requires Valid()
      modifies this`records
      ensures Valid()
      ensures FindIndex(old(records), CustomerKey, id).None? ==> reply == ServerError && records == old(records)
      ensures FindIndex(old(records), CustomerKey, id).Some? ==>
                reply == RedirectToIndex && records == RemoveAt(old(records), FindIndex(old(records), CustomerKey, id).value)
    {
      var k := FindIndex(records, CustomerKey, id);
      if k.None? {
        return ServerError;
      }
      records := RemoveAt(records, k.value);
      reply := RedirectToIndex;
    }
  }

  /** Appending a row under the next key keeps keys unique and below the counter. */
  lemma AppendFreshKey(records: seq<Customer>, nextId: int, c: Customer)
    requires forall i :: 0 <= i < |records| ==> 1 <= records[i].id < nextId
    requires UniqueKeys(records, CustomerKey)
    requires c.id == nextId && nextId >= 1
    ensures var r := records + [c];
            && (forall i :: 0 <= i < |r| ==> 1 <= r[i].id < nextId + 1)
            && UniqueKeys(r, CustomerKey)
  {
  }

  /** After a successful delete no record has the id and every other record
      is still there. */
  lemma DeleteRemovesOnlyThatRecord(records: seq<Customer>, id: int)
    requires UniqueKeys(records, CustomerKey)
    requires FindIndex(records, CustomerKey, id).Some?
    ensures var r := RemoveAt(records, FindIndex(records, CustomerKey, id).value);
            && (forall c :: c in r ==> c.id != id)
            && (forall c :: c in records && c.id != id ==> c in r)
  {
    RemoveAtKey(records, CustomerKey, id);
  }
}
