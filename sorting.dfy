/** The LINQ sequence operators the core uses: a stable `OrderBy` (insertion
    sort under a total preorder), `Distinct` (first occurrences, in order),
    `Where`, and the ordinal string order. */
module Sorting {

  /** `le` is total and transitive: the comparer `OrderBy` needs. */
  ghost predicate TotalPreorder<T(!new)>(le: (T, T) -> bool) {
    && (forall a, b :: le(a, b) || le(b, a))
    && (forall a, b, c :: le(a, b) && le(b, c) ==> le(a, c))
  }

  predicate SortedBy<T>(s: seq<T>, le: (T, T) -> bool) {
    forall i, j :: 0 <= i < j < |s| ==> le(s[i], s[j])
  }

  /** Inserts `x` in front of the first element it does not follow. */
  function Insert<T(!new)>(x: T, s: seq<T>, le: (T, T) -> bool): (r: seq<T>)
    requires TotalPreorder(le) && SortedBy(s, le)
    ensures SortedBy(r, le)
    ensures multiset(r) == multiset(s) + multiset{x}
  {
    if s == [] then [x]
    else if le(x, s[0]) then [x] + s
    else
      var rest := Insert(x, s[1..], le);
      assert s == [s[0]] + s[1..];
      HeadPrecedesRest(x, s, le, rest);
      [s[0]] + rest
  }

  /** The head of a sorted sequence precedes every element of the rest with
      `x` added, when `x` does not precede the head. */
  lemma HeadPrecedesRest<T(!new)>(x: T, s: seq<T>, le: (T, T) -> bool, rest: seq<T>)
    requires TotalPreorder(le) && SortedBy(s, le) && s != [] && !le(x, s[0])
    requires multiset(rest) == multiset(s[1..]) + multiset{x}
    ensures forall j :: 0 <= j < |rest| ==> le(s[0], rest[j])
  {
    forall j | 0 <= j < |rest| ensures le(s[0], rest[j]) {
      assert rest[j] in multiset(rest);
      if rest[j] != x {
        assert rest[j] in multiset(s[1..]);
      }
    }
  }

  /** `OrderBy`: a sorted permutation of the input. */
  function SortBy<T(!new)>(s: seq<T>, le: (T, T) -> bool): (r: seq<T>)
    requires TotalPreorder(le)
    ensures SortedBy(r, le)
    ensures multiset(r) == multiset(s)
  {
    if s == [] then []
    else
      assert s == [s[0]] + s[1..];
      Insert(s[0], SortBy(s[1..], le), le)
  }

  /** `Where` on a sequence with a first element. */
  lemma FilterCons<T(!new)>(x: T, s: seq<T>, keep: T -> bool)
    ensures Filter([x] + s, keep) == (if keep(x) then [x] else []) + Filter(s, keep)
  {
    assert ([x] + s)[0] == x && ([x] + s)[1..] == s;
    if !keep(x) {
      assert [] + Filter(s, keep) == Filter(s, keep);
    }
  }

  /** Inserting `x` adds it to its own class of equal keys after nothing of
      that class, and leaves every other class as it was. */
  lemma {:induction false} FilterInsert<T(!new)>(x: T, s: seq<T>, le: (T, T) -> bool, c: T, same: T -> bool)
    requires TotalPreorder(le) && SortedBy(s, le)
    requires forall z :: same(z) == (le(z, c) && le(c, z))
    ensures Filter(Insert(x, s, le), same) == (if same(x) then [x] else []) + Filter(s, same)
  {
    if s == [] {
      FilterCons(x, s, same);
    } else if le(x, s[0]) {
      FilterCons(x, s, same);
    } else {
      var rest := Insert(x, s[1..], le);
      assert Insert(x, s, le) == [s[0]] + rest;
      assert SortedBy(s[1..], le);
      FilterInsert(x, s[1..], le, c, same);
      FilterCons(s[0], rest, same);
      FilterCons(s[0], s[1..], same);
      assert s == [s[0]] + s[1..];
      SameKeyOrdered(x, s[0], le, c, same);
    }
  }

  /** Two elements whose keys equal that of `c` are ordered either way. */
  lemma SameKeyOrdered<T(!new)>(a: T, b: T, le: (T, T) -> bool, c: T, same: T -> bool)
    requires TotalPreorder(le)
    requires forall z :: same(z) == (le(z, c) && le(c, z))
    ensures same(a) && same(b) ==> le(a, b)
  {
    if same(a) && same(b) {
      assert le(a, c) && le(c, b);
    }
  }

  /** `OrderBy` is stable: the elements whose key equals that of `c` appear
      in the output in their input order. */
  lemma {:induction false} SortByStable<T(!new)>(s: seq<T>, le: (T, T) -> bool, c: T, same: T -> bool)
    requires TotalPreorder(le)
    requires forall z :: same(z) == (le(z, c) && le(c, z))
    ensures Filter(SortBy(s, le), same) == Filter(s, same)
  {
    if s != [] {
      SortByStable(s[1..], le, c, same);
      FilterInsert(s[0], SortBy(s[1..], le), le, c, same);
    }
  }

  predicate NoDuplicates<T(==)>(s: seq<T>) {
    forall i, j :: 0 <= i < j < |s| ==> s[i] != s[j]
  }

  /** A duplicate-free sequence holds each value at most once. */
  lemma {:induction false} NoDuplicatesCount<T>(s: seq<T>, x: T)
    requires NoDuplicates(s)
    ensures multiset(s)[x] <= 1
  {
    if s != [] {
      assert s == [s[0]] + s[1..];
      assert NoDuplicates(s[1..]);
      NoDuplicatesCount(s[1..], x);
      if s[0] == x {
        assert x !in s[1..];
      }
    }
  }

  /** Reordering a duplicate-free sequence leaves it duplicate-free. */
  lemma NoDuplicatesPermutation<T>(a: seq<T>, b: seq<T>)
    requires NoDuplicates(a) && multiset(a) == multiset(b)
    ensures NoDuplicates(b)
  {
    forall i, j | 0 <= i < j < |b| ensures b[i] != b[j] {
      if b[i] == b[j] {
        var x := b[i];
        assert b == b[..j] + [b[j]] + b[j + 1..];
        assert x in b[..j];
        assert multiset(b)[x] >= 2;
        NoDuplicatesCount(a, x);
        assert false;
      }
    }
  }

  /** `Distinct`: the first occurrence of every element, in input order. */
  function Distinct<T(==,!new)>(s: seq<T>): (r: seq<T>)
    ensures NoDuplicates(r)
    ensures forall x :: x in r <==> x in s
    ensures |r| <= |s|
  {
    if s == [] then []
    else
      var r := Distinct(s[..|s| - 1]);
      assert s == s[..|s| - 1] + [s[|s| - 1]];
      if s[|s| - 1] in r then r else r + [s[|s| - 1]]
  }

  /** A duplicate-free sequence is its own `Distinct`. */
  lemma {:induction false} DistinctOfDistinct<T(!new)>(s: seq<T>)
    requires NoDuplicates(s)
    ensures Distinct(s) == s
  {
    if s != [] {
      var p := s[..|s| - 1];
      assert NoDuplicates(p);
      DistinctOfDistinct(p);
      assert s[|s| - 1] !in p;
      assert p + [s[|s| - 1]] == s;
    }
  }

  /** Whatever `r` lists before `r[j]` occurs in `s` before every occurrence
      of `r[j]`. */
  predicate FirstOccurrenceOrder<T(==)>(r: seq<T>, s: seq<T>) {
    forall i, j, k :: 0 <= i < j < |r| && 0 <= k < |s| && s[k] == r[j] ==> r[i] in s[..k]
  }

  /** `Distinct` keeps first occurrences in input order. */
  lemma {:induction false} DistinctFirstOccurrences<T(!new)>(s: seq<T>)
    ensures FirstOccurrenceOrder(Distinct(s), s)
  {
    if s != [] {
      var n := |s| - 1;
      var p := s[..n];
      var rp := Distinct(p);
      DistinctFirstOccurrences(p);
      var r := Distinct(s);
      assert r == if s[n] in rp then rp else rp + [s[n]];
      forall i, j, k | 0 <= i < j < |r| && 0 <= k < |s| && s[k] == r[j]
        ensures r[i] in s[..k]
      {
        assert r[i] == rp[i];
        if k < n {
          assert s[k] == p[k] && s[..k] == p[..k];
          assert s[k] in rp;
          assert j < |rp|;
          assert r[j] == rp[j] && p[k] == rp[j];
          assert rp[i] in p[..k];
        } else {
          assert s[..k] == p;
          assert rp[i] in rp;
        }
      }
    }
  }

  /** `Where`: the elements satisfying `keep`, in order. */
  function Filter<T(!new)>(s: seq<T>, keep: T -> bool): (r: seq<T>)
    ensures |r| <= |s|
    ensures forall x :: x in r <==> x in s && keep(x)
  {
    if s == [] then []
    else
      var rest := Filter(s[1..], keep);
      assert forall x :: x in s <==> x == s[0] || x in s[1..];
      if keep(s[0]) then [s[0]] + rest else rest
  }

  /** `Where(keep).Select(f)` written as a loop would: the images of the kept
      elements, in order. */
  function MapFilter<A, B(!new)>(s: seq<A>, keep: A -> bool, f: A -> B): (r: seq<B>)
    ensures |r| <= |s|
    ensures forall y :: y in r <==> exists i :: 0 <= i < |s| && keep(s[i]) && f(s[i]) == y
  {
    if s == [] then []
    else
      var n := |s| - 1;
      var rest := MapFilter(s[..n], keep, f);
      assert forall i :: 0 <= i < n ==> s[..n][i] == s[i];
      if keep(s[n]) then rest + [f(s[n])] else rest
  }

  /** When every element is kept, `MapFilter` is a plain `Select`. */
  lemma {:induction false} MapFilterKeepsAll<A, B(!new)>(s: seq<A>, keep: A -> bool, f: A -> B)
    requires forall i :: 0 <= i < |s| ==> keep(s[i])
    ensures |MapFilter(s, keep, f)| == |s|
    ensures forall i :: 0 <= i < |s| ==> MapFilter(s, keep, f)[i] == f(s[i])
  {
    if s != [] {
      var n := |s| - 1;
      assert forall i :: 0 <= i < n ==> s[..n][i] == s[i];
      MapFilterKeepsAll(s[..n], keep, f);
    }
  }

  /** Splitting a sequence by a predicate and its negation loses and adds
      nothing. */
  lemma {:induction false} FilterComplement<T(!new)>(s: seq<T>, keep: T -> bool, drop: T -> bool)
    requires forall x :: drop(x) == !keep(x)
    ensures multiset(Filter(s, keep)) + multiset(Filter(s, drop)) == multiset(s)
  {
    if s != [] {
      var x, tail := s[0], s[1..];
      FilterComplement(tail, keep, drop);
      assert s == [x] + tail;
      FilterCons(x, tail, keep);
      FilterCons(x, tail, drop);
      var k, d := Filter(tail, keep), Filter(tail, drop);
      if keep(x) {
        assert multiset(Filter(s, keep)) == multiset{x} + multiset(k);
        assert Filter(s, drop) == d;
      } else {
        assert Filter(s, keep) == k;
        assert multiset(Filter(s, drop)) == multiset{x} + multiset(d);
      }
      assert multiset(s) == multiset{x} + multiset(tail);
    }
  }

  /** A duplicate-free sequence has as many elements as the set of its
      elements. */
  lemma {:induction false} NoDuplicatesCardinality<T>(s: seq<T>)
    requires NoDuplicates(s)
    ensures |set x | x in s| == |s|
  {
    if s != [] {
      var rest := s[1..];
      assert NoDuplicates(rest);
      NoDuplicatesCardinality(rest);
      assert s[0] !in rest;
      assert (set x | x in s) == {s[0]} + (set x | x in rest);
    }
  }

  /** Filtering a duplicate-free sequence keeps it duplicate-free. */
  lemma {:induction false} FilterNoDuplicates<T(!new)>(s: seq<T>, keep: T -> bool)
    requires NoDuplicates(s)
    ensures NoDuplicates(Filter(s, keep))
  {
    if s != [] {
      assert NoDuplicates(s[1..]);
      FilterNoDuplicates(s[1..], keep);
    }
  }

  /** The ordinal string order: lexicographic on characters (Unicode scalar values). */
  predicate StrLe(a: string, b: string) {
    a == [] || (b != [] && (a[0] < b[0] || (a[0] == b[0] && StrLe(a[1..], b[1..]))))
  }

  lemma {:induction false} StrLeTotal(a: string, b: string)
    ensures StrLe(a, b) || StrLe(b, a)
  {
    if a != [] && b != [] && a[0] == b[0] {
      StrLeTotal(a[1..], b[1..]);
    }
  }

  lemma {:induction false} StrLeTransitive(a: string, b: string, c: string)
    requires StrLe(a, b) && StrLe(b, c)
    ensures StrLe(a, c)
  {
    if a != [] && b != [] && c != [] && a[0] == b[0] && b[0] == c[0] {
      StrLeTransitive(a[1..], b[1..], c[1..]);
    }
  }

  /** A comparer that orders records by a string key with the ordinal order is valid. */
  lemma StrKeyIsTotalPreorder<T(!new)>(le: (T, T) -> bool, key: T -> string)
    requires forall x, y :: le(x, y) == StrLe(key(x), key(y))
    ensures TotalPreorder(le)
  {
    forall a: T, b: T ensures le(a, b) || le(b, a) {
      StrLeTotal(key(a), key(b));
    }
    forall a: T, b: T, c: T | le(a, b) && le(b, c)
      ensures le(a, c)
    {
      StrLeTransitive(key(a), key(b), key(c));
    }
  }

  /** A comparer that orders records by an integer key is valid. */
  lemma IntKeyIsTotalPreorder<T(!new)>(le: (T, T) -> bool, key: T -> int)
    requires forall x, y :: le(x, y) == (key(x) <= key(y))
    ensures TotalPreorder(le)
  {
  }

  /** `Skip(n).Take(m)` with LINQ's clamping: a negative count skips or takes
      nothing, and counts past the end stop at the end. The result is a run of
      consecutive elements of `s`, at most `take` long. */
  function SkipTake<T>(s: seq<T>, skip: int, take: int): (r: seq<T>)
    ensures |r| <= |s| && (take >= 0 ==> |r| <= take) && (take <= 0 ==> r == [])
    ensures 0 <= skip && 0 <= take && skip + take <= |s| ==> r == s[skip..skip + take]
    ensures 0 <= skip <= |s| && 0 <= take && skip + take > |s| ==> r == s[skip..]
    ensures skip > |s| ==> r == []
    ensures skip <= 0 ==> r <= s
    ensures forall x :: x in r ==> x in s
  {
    var from := if skip < 0 then 0 else if skip > |s| then |s| else skip;
    var len := if take < 0 then 0 else if take > |s| - from then |s| - from else take;
    s[from..from + len]
  }

  /** Two positions of a page come from two positions of the whole sequence,
      in the same order. */
  lemma OffsetInSlice<T>(s: seq<T>, skip: int, take: int, i: int, j: int)
    requires 0 <= i < j < |SkipTake(s, skip, take)|
    ensures exists a, b :: 0 <= a < b < |s| && SkipTake(s, skip, take)[i] == s[a] && SkipTake(s, skip, take)[j] == s[b]
  {
    var from := if skip < 0 then 0 else if skip > |s| then |s| else skip;
    assert SkipTake(s, skip, take)[i] == s[from + i] && SkipTake(s, skip, take)[j] == s[from + j];
  }

  /** Every element of a page is an element of the whole sequence. */
  lemma SkipTakeElement<T>(s: seq<T>, skip: int, take: int, i: int)
    requires 0 <= i < |SkipTake(s, skip, take)|
    ensures SkipTake(s, skip, take)[i] in s
  {
    var from := if skip < 0 then 0 else if skip > |s| then |s| else skip;
    assert SkipTake(s, skip, take)[i] == s[from + i];
  }
}
