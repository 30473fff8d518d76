/**
 `sort_by` followed by `dedup`, for any total order: the result is the strictly
 ascending list of the members, so it depends on nothing but the set of members.
 */
module Sorting {

  ghost predicate TotalOrder<T(!new)>(leq: (T, T) -> bool) {
    && (forall a, b :: leq(a, b) || leq(b, a))
    && (forall a, b :: leq(a, b) && leq(b, a) ==> a == b)
    && (forall a, b, c :: leq(a, b) && leq(b, c) ==> leq(a, c))
  }

  function Insert<T>(x: T, xs: seq<T>, leq: (T, T) -> bool): seq<T>
    decreases xs
  {
    if xs == [] || leq(x, xs[0]) then [x] + xs else [xs[0]] + Insert(x, xs[1..], leq)
  }

  function Sort<T>(xs: seq<T>, leq: (T, T) -> bool): seq<T>
    decreases xs
  {
    if xs == [] then [] else Insert(xs[0], Sort(xs[1..], leq), leq)
  }

  /** Drops every element equal to its successor. */
  function Dedup<T(==)>(xs: seq<T>): seq<T>
    decreases xs
  {
    if |xs| < 2 then xs
    else if xs[0] == xs[1] then Dedup(xs[1..])
    else [xs[0]] + Dedup(xs[1..])
  }

  function SortDedup<T(==)>(xs: seq<T>, leq: (T, T) -> bool): seq<T> {
    Dedup(Sort(xs, leq))
  }

  ghost predicate Ascending<T>(xs: seq<T>, leq: (T, T) -> bool) {
    forall i, j :: 0 <= i < j < |xs| ==> leq(xs[i], xs[j])
  }

  ghost predicate Strict<T>(xs: seq<T>, leq: (T, T) -> bool) {
    forall i, j :: 0 <= i < j < |xs| ==> leq(xs[i], xs[j]) && xs[i] != xs[j]
  }

  ghost predicate SameMembers<T(!new)>(xs: seq<T>, ys: seq<T>) {
    forall x :: x in xs <==> x in ys
  }

  lemma {:induction false} InsertMembers<T(!new)>(x: T, xs: seq<T>, leq: (T, T) -> bool)
    ensures forall y :: y in Insert(x, xs, leq) <==> y == x || y in xs
    ensures |Insert(x, xs, leq)| == |xs| + 1
    decreases xs
  {
    if xs != [] && !leq(x, xs[0]) {
      InsertMembers(x, xs[1..], leq);
      assert xs == [xs[0]] + xs[1..];
    }
  }

  lemma {:induction false} InsertAscending<T(!new)>(x: T, xs: seq<T>, leq: (T, T) -> bool)
    requires TotalOrder(leq) && Ascending(xs, leq)
    ensures Ascending(Insert(x, xs, leq), leq)
    decreases xs
  {
    if xs == [] {
    } else if leq(x, xs[0]) {
      forall j | 0 <= j < |xs| ensures leq(x, xs[j]) {
        assert j > 0 ==> leq(xs[0], xs[j]);
      }
    } else {
      InsertAscending(x, xs[1..], leq);
      InsertMembers(x, xs[1..], leq);
      var rest := Insert(x, xs[1..], leq);
      forall j | 0 <= j < |rest| ensures leq(xs[0], rest[j]) {
        assert rest[j] in rest;
        if rest[j] in xs[1..] {
          var k :| 0 <= k < |xs[1..]| && xs[1..][k] == rest[j];
          assert leq(xs[0], xs[k + 1]);
        }
      }
    }
  }

  lemma {:induction false} SortSorts<T(!new)>(xs: seq<T>, leq: (T, T) -> bool)
    requires TotalOrder(leq)
    ensures Ascending(Sort(xs, leq), leq) && SameMembers(Sort(xs, leq), xs) && |Sort(xs, leq)| == |xs|
    decreases xs
  {
    if xs != [] {
      SortSorts(xs[1..], leq);
      InsertAscending(xs[0], Sort(xs[1..], leq), leq);
      InsertMembers(xs[0], Sort(xs[1..], leq), leq);
      assert xs == [xs[0]] + xs[1..];
    }
  }

  lemma {:induction false} DedupStrict<T(!new)>(xs: seq<T>, leq: (T, T) -> bool)
    requires TotalOrder(leq) && Ascending(xs, leq)
    ensures Strict(Dedup(xs), leq) && SameMembers(Dedup(xs), xs) && |Dedup(xs)| <= |xs|
    decreases xs
  {
    if |xs| >= 2 {
      var rest := Dedup(xs[1..]);
      DedupStrict(xs[1..], leq);
      assert xs == [xs[0]] + xs[1..];
      if xs[0] == xs[1] {
        assert xs[0] == xs[1..][0];
      } else {
        forall j | 0 <= j < |rest| ensures leq(xs[0], rest[j]) && xs[0] != rest[j] {
          assert rest[j] in rest;
          var k :| 0 <= k < |xs[1..]| && xs[1..][k] == rest[j];
          assert leq(xs[0], xs[1]) && (k > 0 ==> leq(xs[1], xs[k + 1]));
        }
      }
    }
  }

  /** Strictly ascending lists with the same members are the same list. */
  lemma {:induction false} StrictUnique<T(!new)>(xs: seq<T>, ys: seq<T>, leq: (T, T) -> bool)
    requires TotalOrder(leq) && Strict(xs, leq) && Strict(ys, leq) && SameMembers(xs, ys)
    ensures xs == ys
    decreases xs
  {
    if xs == [] {
      HasMember(ys);
    } else {
      HasMember(xs);
      HasMember(ys);
      assert ys[0] in xs;
      var i :| 0 <= i < |ys| && ys[i] == xs[0];
      var j :| 0 <= j < |xs| && xs[j] == ys[0];
      assert xs[0] == ys[0];
      forall x ensures x in xs[1..] <==> x in ys[1..] {
        SplitStrict(xs, leq, x);
        SplitStrict(ys, leq, x);
      }
      StrictUnique(xs[1..], ys[1..], leq);
      assert xs == [xs[0]] + xs[1..] && ys == [ys[0]] + ys[1..];
    }
  }

  lemma {:induction false} HasMember<T(!new)>(xs: seq<T>)
    ensures xs != [] ==> xs[0] in xs
  {
  }

  lemma {:induction false} SplitStrict<T(!new)>(xs: seq<T>, leq: (T, T) -> bool, x: T)
    requires xs != [] && Strict(xs, leq)
    ensures x in xs[1..] <==> x in xs && x != xs[0]
  {
    assert xs == [xs[0]] + xs[1..];
  }

  /** Sorting and adjacent deduplication give the strictly ascending list of the members. */
  lemma {:induction false} SortDedupStrict<T(!new)>(xs: seq<T>, leq: (T, T) -> bool)
    requires TotalOrder(leq)
    ensures Strict(SortDedup(xs, leq), leq) && SameMembers(SortDedup(xs, leq), xs) && |SortDedup(xs, leq)| <= |xs|
  {
    SortSorts(xs, leq);
    DedupStrict(Sort(xs, leq), leq);
  }

  /** Order and multiplicity of the input are forgotten. */
  lemma {:induction false} SortDedupBySet<T(!new)>(xs: seq<T>, ys: seq<T>, leq: (T, T) -> bool)
    requires TotalOrder(leq) && SameMembers(xs, ys)
    ensures SortDedup(xs, leq) == SortDedup(ys, leq)
  {
    SortDedupStrict(xs, leq);
    SortDedupStrict(ys, leq);
    StrictUnique(SortDedup(xs, leq), SortDedup(ys, leq), leq);
  }

  /** A strictly ascending list is left alone. */
  lemma {:induction false} SortDedupFixed<T(!new)>(xs: seq<T>, leq: (T, T) -> bool)
    requires TotalOrder(leq) && Strict(xs, leq)
    ensures SortDedup(xs, leq) == xs
  {
    SortDedupStrict(xs, leq);
    StrictUnique(SortDedup(xs, leq), xs, leq);
  }
}
