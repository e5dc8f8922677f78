/** The persisted entities (TruckServices/Data): customer records and the
    service tags linked to them. */
module Data {
  import opened Common

  /** A service tag (`Service`): a display name, a URL slug and an active flag. */
  datatype Service = Service(id: int, name: string, slug: string, isActive: bool)

  /** A company-to-service link (`CompanyService`), keyed by both ids. */
  datatype CompanyLink = CompanyLink(companyId: int, serviceId: int)

  /** A provider record (`CustomersData`). Every text column is nullable; the
      logo is a nullable byte array; `services` holds the linked service tags
      loaded through `CompanyServices`. */
  datatype Customer = Customer(
    id: int,
    companyName: Option<string>,
    streetAddress: Option<string>,
    city: Option<string>,
    state: Option<string>,
    country: Option<string>,
    mobileNumber: Option<string>,
    secondMobileNumber: Option<string>,
    email: Option<string>,
    source: Option<string>,
    image: Option<seq<byte>>,
    isPaid: bool,
    services: seq<Service>)

  /** No two rows share a key (a primary key constraint). */
  predicate UniqueKeys<T>(rows: seq<T>, key: T -> int) {
    forall i, j :: 0 <= i < j < |rows| ==> key(rows[i]) != key(rows[j])
  }

  /** The primary key of a service tag. */
  function ServiceKey(s: Service): int {
    s.id
  }

  /** The primary key of a provider record. */
  function CustomerKey(c: Customer): int {
    c.id
  }

  /** `FindAsync(id)`: the position of the row whose key is `id`, if any. */
  function FindIndex<T>(rows: seq<T>, key: T -> int, id: int): (r: Option<nat>)
    ensures r.None? <==> forall i :: 0 <= i < |rows| ==> key(rows[i]) != id
    ensures r.Some? ==> r.value < |rows| && key(rows[r.value]) == id
  {
    if rows == [] then None
    else if key(rows[0]) == id then Some(0)
    else
      match FindIndex(rows[1..], key, id)
      case None =>
        assert forall i :: 1 <= i < |rows| ==> rows[i] == rows[1..][i - 1];
        None
      case Some(k) => Some(k + 1)
  }

  /** The rows after `Remove` took out the row at `k`. */
  function RemoveAt<T>(rows: seq<T>, k: nat): (r: seq<T>)
    requires k < |rows|
    ensures |r| == |rows| - 1
    ensures forall i :: 0 <= i < k ==> r[i] == rows[i]
    ensures forall i :: k <= i < |r| ==> r[i] == rows[i + 1]
  {
    rows[..k] + rows[k + 1..]
  }

  /** Removing the only row with key `id` leaves no row with that key and keeps
      every other row. */
  lemma RemoveAtKey<T>(rows: seq<T>, key: T -> int, id: int)
    requires UniqueKeys(rows, key)
    requires FindIndex(rows, key, id).Some?
    ensures var r := RemoveAt(rows, FindIndex(rows, key, id).value);
            && FindIndex(r, key, id).None?
            && forall x :: x in rows && key(x) != id ==> x in r
  {
    var k := FindIndex(rows, key, id).value;
    var r := RemoveAt(rows, k);
    forall i | 0 <= i < |r| ensures key(r[i]) != id {
      if i < k { assert r[i] == rows[i]; } else { assert r[i] == rows[i + 1]; }
    }
    forall x | x in rows && key(x) != id ensures x in r {
      var j :| 0 <= j < |rows| && rows[j] == x;
      if j < k { assert r[j] == x; } else { assert j != k; assert r[j - 1] == x; }
    }
  }
}
