/** A stable sort by a comparison function, as `Array.prototype.sort` is one. */
module Sorting {

  /** The comparison's sign is antisymmetric and transitive. */
  ghost predicate Ordering<T(!new)>(compare: (T, T) -> int) {
    && (forall a, b :: compare(a, b) <= 0 <==> compare(b, a) >= 0)
    && forall a, b, c :: compare(a, b) <= 0 && compare(b, c) <= 0 ==> compare(a, c) <= 0
  }

  /** Insert behind everything that compares no greater. */
  function Insert<T>(s: seq<T>, x: T, compare: (T, T) -> int): seq<T> {
    if s != [] && compare(s[|s| - 1], x) > 0 then Insert(s[..|s| - 1], x, compare) + [s[|s| - 1]] else s + [x]
  }

  function Sort<T>(s: seq<T>, compare: (T, T) -> int): seq<T> {
    if s == [] then [] else Insert(Sort(s[..|s| - 1], compare), s[|s| - 1], compare)
  }

  ghost predicate Sorted<T>(s: seq<T>, compare: (T, T) -> int) {
    forall i, j :: 0 <= i < j < |s| ==> compare(s[i], s[j]) <= 0
  }

  lemma {:induction false} InsertKeepsAll<T>(s: seq<T>, x: T, compare: (T, T) -> int)
    ensures multiset(Insert(s, x, compare)) == multiset(s) + multiset{x}
  {
    if s != [] && compare(s[|s| - 1], x) > 0 {
      InsertKeepsAll(s[..|s| - 1], x, compare);
      assert s == s[..|s| - 1] + [s[|s| - 1]];
    }
  }

  lemma {:induction false} SortKeepsAll<T>(s: seq<T>, compare: (T, T) -> int)
    ensures multiset(Sort(s, compare)) == multiset(s)
  {
    if s != [] {
      SortKeepsAll(s[..|s| - 1], compare);
      InsertKeepsAll(Sort(s[..|s| - 1], compare), s[|s| - 1], compare);
      assert s == s[..|s| - 1] + [s[|s| - 1]];
    }
  }

  lemma SortedSnoc<T>(s: seq<T>, x: T, compare: (T, T) -> int)
    requires Sorted(s, compare) && forall e :: e in s ==> compare(e, x) <= 0
    ensures Sorted(s + [x], compare)
  {
  }

  /** In a sorted list everything compares no greater than what the last does. */
  lemma AllUpTo<T(!new)>(s: seq<T>, x: T, compare: (T, T) -> int)
    requires Ordering(compare) && Sorted(s, compare) && s != [] && compare(s[|s| - 1], x) <= 0
    ensures forall e :: e in s ==> compare(e, x) <= 0
  {
    forall i | 0 <= i < |s|
      ensures compare(s[i], x) <= 0
    {
      assert i < |s| - 1 ==> compare(s[i], s[|s| - 1]) <= 0;
    }
  }

  lemma InsertedUpTo<T(!new)>(s: seq<T>, x: T, last: T, compare: (T, T) -> int)
    requires Ordering(compare) && compare(last, x) > 0
    requires forall i :: 0 <= i < |s| ==> compare(s[i], last) <= 0
    ensures forall e :: e in Insert(s, x, compare) ==> compare(e, last) <= 0
  {
    InsertKeepsAll(s, x, compare);
    assert compare(x, last) <= 0;
    forall e | e in Insert(s, x, compare)
      ensures compare(e, last) <= 0
    {
      assert e in multiset(Insert(s, x, compare));
      assert e in s || e == x;
    }
  }

  lemma {:induction false} InsertSorts<T(!new)>(s: seq<T>, x: T, compare: (T, T) -> int)
    requires Ordering(compare) && Sorted(s, compare)
    ensures Sorted(Insert(s, x, compare), compare)
  {
    if s != [] && compare(s[|s| - 1], x) > 0 {
      var front, last := s[..|s| - 1], s[|s| - 1];
      InsertSorts(front, x, compare);
      InsertedUpTo(front, x, last, compare);
      SortedSnoc(Insert(front, x, compare), last, compare);
    } else if s != [] {
      AllUpTo(s, x, compare);
      SortedSnoc(s, x, compare);
    }
  }

  lemma {:induction false} SortSorts<T(!new)>(s: seq<T>, compare: (T, T) -> int)
    requires Ordering(compare)
    ensures Sorted(Sort(s, compare), compare)
  {
    if s != [] {
      SortSorts(s[..|s| - 1], compare);
      InsertSorts(Sort(s[..|s| - 1], compare), s[|s| - 1], compare);
    }
  }

  lemma InsertHolds<T>(s: seq<T>, x: T, compare: (T, T) -> int)
    ensures forall y :: y in Insert(s, x, compare) <==> y == x || y in s
  {
    InsertKeepsAll(s, x, compare);
    forall y
      ensures y in Insert(s, x, compare) <==> y == x || y in s
    {
      assert y in Insert(s, x, compare) <==> y in multiset(Insert(s, x, compare));
      assert y in s <==> y in multiset(s);
    }
  }

  /** Sorting keeps which elements there are. */
  lemma SortHolds<T>(s: seq<T>, compare: (T, T) -> int)
    ensures forall x :: x in Sort(s, compare) <==> x in s
  {
    SortKeepsAll(s, compare);
    forall x
      ensures x in Sort(s, compare) <==> x in s
    {
      assert x in Sort(s, compare) <==> x in multiset(Sort(s, compare));
      assert x in s <==> x in multiset(s);
    }
  }

  /* ---- Stability ---- */

  /** The elements that compare equal to x, in order. */
  function Equals<T>(s: seq<T>, x: T, compare: (T, T) -> int): seq<T> {
    if s == [] then []
    else if compare(x, s[|s| - 1]) == 0 then Equals(s[..|s| - 1], x, compare) + [s[|s| - 1]]
    else Equals(s[..|s| - 1], x, compare)
  }

  lemma EqualsSnoc<T>(s: seq<T>, y: T, x: T, compare: (T, T) -> int)
    ensures Equals(s + [y], x, compare) ==
            if compare(x, y) == 0 then Equals(s, x, compare) + [y] else Equals(s, x, compare)
  {
    assert (s + [y])[..|s|] == s;
  }

  lemma {:induction false} InsertIsStable<T(!new)>(s: seq<T>, y: T, x: T, compare: (T, T) -> int)
    requires Ordering(compare)
    ensures Equals(Insert(s, y, compare), x, compare) ==
            if compare(x, y) == 0 then Equals(s, x, compare) + [y] else Equals(s, x, compare)
  {
    EqualsSnoc(s, y, x, compare);
    if s != [] && compare(s[|s| - 1], y) > 0 {
      var front, last := s[..|s| - 1], s[|s| - 1];
      InsertIsStable(front, y, x, compare);
      EqualsSnoc(Insert(front, y, compare), last, x, compare);
      assert compare(x, last) == 0 ==> compare(last, x) <= 0;
      assert compare(last, x) <= 0 && compare(x, y) <= 0 ==> compare(last, y) <= 0;
    }
  }

  /** Elements that compare equal keep their order. */
  lemma {:induction false} SortIsStable<T(!new)>(s: seq<T>, x: T, compare: (T, T) -> int)
    requires Ordering(compare)
    ensures Equals(Sort(s, compare), x, compare) == Equals(s, x, compare)
  {
    if s != [] {
      SortIsStable(s[..|s| - 1], x, compare);
      InsertIsStable(Sort(s[..|s| - 1], compare), s[|s| - 1], x, compare);
    }
  }
}
