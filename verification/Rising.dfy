/** Lists that rise strictly are told by their elements alone. */
module Rising {
  import opened Order

  ghost predicate Covers<T(!new)>(cmp: (T, T) -> Ordering, xs: seq<T>, ys: seq<T>) {
    forall y :: y in ys ==> exists x :: x in xs && cmp(x, y) == Equal
  }

  ghost predicate RisesBy<T(!new)>(cmp: (T, T) -> Ordering, xs: seq<T>) {
    forall i, j :: 0 <= i < j < |xs| ==> cmp(xs[i], xs[j]) == Less
  }

  lemma HeadsTie<T(!new)>(cmp: (T, T) -> Ordering, xs: seq<T>, ys: seq<T>)
    requires TotalPreorder(cmp) && RisesBy(cmp, xs) && RisesBy(cmp, ys) && Covers(cmp, xs, ys) && Covers(cmp, ys, xs)
    requires xs != [] && ys != []
    ensures cmp(xs[0], ys[0]) == Equal
  {
    HeadIsLeast(cmp, xs, ys);
    HeadIsLeast(cmp, ys, xs);
    assert cmp(ys[0], xs[0]) == Flip(cmp(xs[0], ys[0]));
  }

  lemma HeadIsLeast<T(!new)>(cmp: (T, T) -> Ordering, xs: seq<T>, ys: seq<T>)
    requires TotalPreorder(cmp) && RisesBy(cmp, xs) && Covers(cmp, xs, ys) && xs != [] && ys != []
    ensures cmp(xs[0], ys[0]) != Greater
  {
    assert ys[0] in ys;
    var x :| x in xs && cmp(x, ys[0]) == Equal;
    var k :| 0 <= k < |xs| && xs[k] == x;
    if k > 0 { assert Composes(cmp(xs[0], x), cmp(x, ys[0]), cmp(xs[0], ys[0])); }
  }

  lemma TailsCover<T(!new)>(cmp: (T, T) -> Ordering, xs: seq<T>, ys: seq<T>)
    requires TotalPreorder(cmp) && RisesBy(cmp, ys) && Covers(cmp, xs, ys) && xs != [] && ys != []
    requires cmp(xs[0], ys[0]) == Equal
    ensures Covers(cmp, xs[1..], ys[1..])
  {
    forall y | y in ys[1..] ensures exists x :: x in xs[1..] && cmp(x, y) == Equal {
      var k :| 0 <= k < |ys[1..]| && ys[1..][k] == y;
      assert ys[k + 1] == y && cmp(ys[0], y) == Less && y in ys;
      var x :| x in xs && cmp(x, y) == Equal;
      assert Composes(cmp(xs[0], ys[0]), cmp(ys[0], y), cmp(xs[0], y));
      assert x != xs[0];
      assert xs == [xs[0]] + xs[1..];
    }
  }

  lemma BothOrNone<T(!new)>(cmp: (T, T) -> Ordering, xs: seq<T>, ys: seq<T>)
    requires Covers(cmp, xs, ys)
    ensures ys != [] ==> xs != []
  {
    if ys != [] { assert ys[0] in ys; }
  }

  /** Two strictly rising lists that cover each other are the same, position by position. */
  lemma {:induction false} RisingListsTie<T(!new)>(cmp: (T, T) -> Ordering, xs: seq<T>, ys: seq<T>)
    requires TotalPreorder(cmp) && RisesBy(cmp, xs) && RisesBy(cmp, ys) && Covers(cmp, xs, ys) && Covers(cmp, ys, xs)
    ensures |xs| == |ys| && forall i :: 0 <= i < |xs| ==> cmp(xs[i], ys[i]) == Equal
    decreases |xs|
  {
    BothOrNone(cmp, xs, ys);
    BothOrNone(cmp, ys, xs);
    if xs != [] {
      HeadsTie(cmp, xs, ys);
      TailsCover(cmp, xs, ys);
      assert cmp(ys[0], xs[0]) == Flip(cmp(xs[0], ys[0]));
      TailsCover(cmp, ys, xs);
      RisingListsTie(cmp, xs[1..], ys[1..]);
      assert forall i :: 0 < i < |xs| ==> xs[i] == xs[1..][i - 1];
      assert forall i :: 0 < i < |ys| ==> ys[i] == ys[1..][i - 1];
    }
  }
}
