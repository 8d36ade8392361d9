/** The library sort, as a stable insertion sort, and what it guarantees. */
module Sorting {

  /** A comparator `std::sort` accepts: irreflexive, with "neither comes first" transitive. */
  ghost predicate StrictWeakOrder<T(!new)>(less: (T, T) -> bool) {
    && (forall a :: !less(a, a))
    && (forall a, b {:trigger less(a, b)} :: less(a, b) ==> !less(b, a))
    && (forall a, b, c {:trigger less(a, b), less(c, b)} {:trigger less(a, b), less(a, c)}
          :: less(a, b) ==> less(a, c) || less(c, b))
  }

  ghost predicate Sorted<T(!new)>(less: (T, T) -> bool, s: seq<T>) {
    forall i, j :: 0 <= i < j < |s| ==> !less(s[j], s[i])
  }

  function Insert<T>(less: (T, T) -> bool, x: T, s: seq<T>): (r: seq<T>)
    ensures |r| == |s| + 1
  {
    if s == [] || !less(s[0], x) then [x] + s
    else [s[0]] + Insert(less, x, s[1..])
  }

  function Sort<T>(less: (T, T) -> bool, s: seq<T>): (r: seq<T>)
    ensures |r| == |s|
  {
    if s == [] then [] else Insert(less, s[0], Sort(less, s[1..]))
  }

  lemma {:induction false} InsertKeeps<T(!new)>(less: (T, T) -> bool, x: T, s: seq<T>)
    ensures multiset(Insert(less, x, s)) == multiset(s) + multiset{x}
  {
    if s == [] || !less(s[0], x) {
    } else {
      InsertKeeps(less, x, s[1..]);
      assert s == [s[0]] + s[1..];
    }
  }

  lemma {:induction false} InsertSorts<T(!new)>(less: (T, T) -> bool, x: T, s: seq<T>)
    requires StrictWeakOrder(less)
    requires Sorted(less, s)
    ensures Sorted(less, Insert(less, x, s))
  {
    if s == [] {
    } else if !less(s[0], x) {
      forall j | 0 <= j < |s| ensures !less(s[j], x) {
        if j > 0 { assert !less(s[j], s[0]); }
      }
    } else {
      var rest := Insert(less, x, s[1..]);
      InsertSorts(less, x, s[1..]);
      InsertKeeps(less, x, s[1..]);
      forall j | 0 <= j < |rest| ensures !less(rest[j], s[0]) {
        assert rest[j] in multiset(rest);
        if rest[j] != x {
          assert rest[j] in multiset(s[1..]);
          assert rest[j] in s[1..];
          var k :| 0 <= k < |s[1..]| && s[1..][k] == rest[j];
          assert s[k + 1] == rest[j];
        }
      }
    }
  }

  lemma {:induction false} SortKeeps<T(!new)>(less: (T, T) -> bool, s: seq<T>)
    ensures multiset(Sort(less, s)) == multiset(s)
  {
    if s != [] {
      SortKeeps(less, s[1..]);
      InsertKeeps(less, s[0], Sort(less, s[1..]));
      assert s == [s[0]] + s[1..];
    }
  }

  lemma {:induction false} SortSorts<T(!new)>(less: (T, T) -> bool, s: seq<T>)
    requires StrictWeakOrder(less)
    ensures Sorted(less, Sort(less, s))
  {
    if s != [] {
      SortSorts(less, s[1..]);
      InsertSorts(less, s[0], Sort(less, s[1..]));
    }
  }

  lemma {:induction false} SortKeepsSorted<T(!new)>(less: (T, T) -> bool, s: seq<T>)
    requires Sorted(less, s)
    ensures Sort(less, s) == s
  {
    if s != [] {
      SortKeepsSorted(less, s[1..]);
      assert s == [s[0]] + s[1..];
    }
  }

  lemma SortMembers<T(!new)>(less: (T, T) -> bool, s: seq<T>)
    ensures forall x :: x in Sort(less, s) <==> x in s
  {
    SortKeeps(less, s);
    forall x ensures x in Sort(less, s) <==> x in s {
      assert x in Sort(less, s) <==> x in multiset(Sort(less, s));
      assert x in s <==> x in multiset(s);
    }
  }

  /** On the elements at hand, two that are not ordered are the same value. */
  ghost predicate Distinguishes<T(!new)>(less: (T, T) -> bool, s: seq<T>) {
    forall x, y :: x in s && y in s && !less(x, y) && !less(y, x) ==> x == y
  }

  lemma SortedHeadIsUnique<T(!new)>(less: (T, T) -> bool, a: seq<T>, b: seq<T>)
    requires Sorted(less, a) && Sorted(less, b)
    requires multiset(a) == multiset(b)
    requires Distinguishes(less, a)
    requires a != [] && b != []
    requires forall x :: !less(x, x)
    ensures a[0] == b[0]
  {
    assert a[0] in multiset(b) && b[0] in multiset(a);
    var i :| 0 <= i < |b| && b[i] == a[0];
    var j :| 0 <= j < |a| && a[j] == b[0];
    assert !less(b[i], b[0]);
    assert !less(a[j], a[0]);
  }

  lemma WithoutHead<T>(s: seq<T>)
    requires s != []
    ensures multiset(s[1..]) == multiset(s) - multiset{s[0]}
  {
    assert s == [s[0]] + s[1..];
  }

  /** A comparator that tells all elements apart leaves one sorted arrangement. */
  lemma {:induction false} SortedIsUnique<T(!new)>(less: (T, T) -> bool, a: seq<T>, b: seq<T>)
    requires Sorted(less, a) && Sorted(less, b)
    requires multiset(a) == multiset(b)
    requires Distinguishes(less, a)
    requires forall x :: !less(x, x)
    ensures a == b
  {
    assert |multiset(a)| == |multiset(b)|;
    if a != [] {
      SortedHeadIsUnique(less, a, b);
      WithoutHead(a);
      WithoutHead(b);
      SortedIsUnique(less, a[1..], b[1..]);
      assert a == [a[0]] + a[1..] && b == [b[0]] + b[1..];
    }
  }

  /** Hence sorting forgets the order the elements came in. */
  lemma SortForgetsOrder<T(!new)>(less: (T, T) -> bool, a: seq<T>, b: seq<T>)
    requires StrictWeakOrder(less)
    requires multiset(a) == multiset(b)
    requires Distinguishes(less, a)
    ensures Sort(less, a) == Sort(less, b)
  {
    SortSorts(less, a);
    SortSorts(less, b);
    SortKeeps(less, a);
    SortKeeps(less, b);
    SortMembers(less, a);
    SortedIsUnique(less, Sort(less, a), Sort(less, b));
  }
}
