/** Version lists and their negotiation (src/taxonomy.cpp, src/registry.cpp), over any precedence with a refining order. */
module Negotiation {
  import opened Order
  import opened Sorting
  import opened Rules
  import opened SemVer

  /** `order` tells values apart that `cmp` ties, and never contradicts it. */
  ghost predicate Refines<T(!new)>(cmp: (T, T) -> Ordering, order: (T, T) -> Ordering) {
    && TotalPreorder(cmp)
    && TotalPreorder(order)
    && forall x, y :: cmp(x, y) != Equal ==> order(x, y) == cmp(x, y)
  }

  function Before<T>(order: (T, T) -> Ordering): (T, T) -> bool {
    (x, y) => order(x, y) == Less
  }

  lemma BeforeIsWeak<T(!new)>(order: (T, T) -> Ordering)
    requires TotalPreorder(order)
    ensures StrictWeakOrder(Before(order))
  {
    var less := Before(order);
    forall a, b | less(a, b) ensures !less(b, a) {
      assert order(b, a) == Flip(order(a, b));
    }
    forall a, b, c | less(a, b) ensures less(a, c) || less(c, b) {
      assert Composes(order(a, c), order(c, b), order(a, b));
    }
  }

  /** The list offers the version, whatever its build metadata. */
  predicate Offers<T>(cmp: (T, T) -> Ordering, list: seq<T>, v: T) {
    exists i :: 0 <= i < |list| && cmp(list[i], v) == Equal
  }

  ghost predicate NoTies<T(!new)>(cmp: (T, T) -> Ordering, s: seq<T>) {
    forall i, j :: 0 <= i < j < |s| ==> cmp(s[i], s[j]) != Equal
  }

  lemma OffersUpToTies<T(!new)>(cmp: (T, T) -> Ordering, list: seq<T>, v: T, w: T)
    requires TotalPreorder(cmp)
    requires cmp(v, w) == Equal
    ensures Offers(cmp, list, v) <==> Offers(cmp, list, w)
  {
    assert cmp(w, v) == Flip(cmp(v, w));
    if Offers(cmp, list, v) {
      var i :| 0 <= i < |list| && cmp(list[i], v) == Equal;
      assert Composes(cmp(list[i], v), cmp(v, w), cmp(list[i], w));
    }
    if Offers(cmp, list, w) {
      var i :| 0 <= i < |list| && cmp(list[i], w) == Equal;
      assert Composes(cmp(list[i], w), cmp(w, v), cmp(list[i], v));
    }
  }

  // ----- Declaring a version list -----

  const MAX_VERSIONS_PER_ID: nat := 64

  datatype Support<T> = EmptyList | TooManyVersions | Declared(versions: seq<T>)

  /** Keeps the first of every run of equal precedence. */
  function Dedupe<T>(cmp: (T, T) -> Ordering, s: seq<T>): (r: seq<T>)
    ensures |r| <= |s|
    ensures s != [] ==> r != []
  {
    if |s| < 2 then s
    else
      var rest := Dedupe(cmp, s[..|s| - 1]);
      if cmp(rest[|rest| - 1], s[|s| - 1]) == Equal then rest else rest + [s[|s| - 1]]
  }

  ghost predicate StrictlyRising<T(!new)>(cmp: (T, T) -> Ordering, s: seq<T>) {
    forall i, j :: 0 <= i < j < |s| ==> cmp(s[i], s[j]) == Less
  }

  /** Every kept version is the first of the input that ties with it. */
  ghost predicate KeepsFirst<T(!new)>(cmp: (T, T) -> Ordering, s: seq<T>, r: seq<T>) {
    forall k :: 0 <= k < |r| ==> LeadsTie(cmp, s, r[k])
  }

  ghost predicate LeadsTie<T(!new)>(cmp: (T, T) -> Ordering, s: seq<T>, v: T) {
    exists i :: 0 <= i < |s| && FirstOfTie(cmp, s, i, v)
  }

  ghost predicate FirstOfTie<T(!new)>(cmp: (T, T) -> Ordering, s: seq<T>, i: int, v: T)
    requires 0 <= i < |s|
  {
    s[i] == v && !Offers(cmp, s[..i], v)
  }

  lemma LeaderStays<T(!new)>(cmp: (T, T) -> Ordering, s: seq<T>, v: T)
    requires s != []
    requires LeadsTie(cmp, s[..|s| - 1], v)
    ensures LeadsTie(cmp, s, v)
  {
    var front := s[..|s| - 1];
    var i :| 0 <= i < |front| && FirstOfTie(cmp, front, i, v);
    assert s[..i] == front[..i];
    assert FirstOfTie(cmp, s, i, v);
  }

  ghost predicate IsExact<T(!new)>(cmp: (T, T) -> Ordering, s: seq<T>, r: seq<T>) {
    StrictlyRising(cmp, r) && KeepsFirst(cmp, s, r) && forall v :: Offers(cmp, r, v) <==> Offers(cmp, s, v)
  }

  lemma {:induction false} DedupeIsExact<T(!new)>(cmp: (T, T) -> Ordering, order: (T, T) -> Ordering, s: seq<T>)
    requires Refines(cmp, order)
    requires Sorted(Before(order), s)
    ensures StrictlyRising(cmp, Dedupe(cmp, s))
    ensures forall v :: Offers(cmp, Dedupe(cmp, s), v) <==> Offers(cmp, s, v)
    ensures KeepsFirst(cmp, s, Dedupe(cmp, s))
    ensures s != [] ==> cmp(Dedupe(cmp, s)[|Dedupe(cmp, s)| - 1], s[|s| - 1]) == Equal
  {
    if |s| >= 2 {
      var front := s[..|s| - 1];
      DedupeIsExact(cmp, order, front);
      hide Offers, KeepsFirst, StrictlyRising;
      assert IsExact(cmp, front, Dedupe(cmp, front));
      DedupeLast(cmp, order, s, front, s[|s| - 1], Dedupe(cmp, front)[|Dedupe(cmp, front)| - 1]);
      hide Sorted, Dedupe, IsExact;
      StepRises(cmp, s);
      StepOffers(cmp, s);
      StepFirsts(cmp, s);
    } else if |s| == 1 {
      assert FirstOfTie(cmp, s, 0, s[0]);
    }
  }

  lemma DedupeUnfolds<T(!new)>(cmp: (T, T) -> Ordering, s: seq<T>)
    requires |s| >= 2
    ensures var rest, last := Dedupe(cmp, s[..|s| - 1]), s[|s| - 1];
      Dedupe(cmp, s) == if cmp(rest[|rest| - 1], last) == Equal then rest else rest + [last]
  {
  }

  lemma StepRises<T(!new)>(cmp: (T, T) -> Ordering, s: seq<T>)
    requires TotalPreorder(cmp) && |s| >= 2
    requires IsExact(cmp, s[..|s| - 1], Dedupe(cmp, s[..|s| - 1]))
    requires cmp(Dedupe(cmp, s[..|s| - 1])[|Dedupe(cmp, s[..|s| - 1])| - 1], s[|s| - 1]) != Greater
    ensures StrictlyRising(cmp, Dedupe(cmp, s))
    ensures cmp(Dedupe(cmp, s)[|Dedupe(cmp, s)| - 1], s[|s| - 1]) == Equal
  {
    DedupeUnfolds(cmp, s);
    hide KeepsFirst, Offers, StrictlyRising, Dedupe;
    AppendRises(cmp, Dedupe(cmp, s[..|s| - 1]), s[|s| - 1]);
  }

  lemma StepOffers<T(!new)>(cmp: (T, T) -> Ordering, s: seq<T>)
    requires TotalPreorder(cmp) && |s| >= 2
    requires IsExact(cmp, s[..|s| - 1], Dedupe(cmp, s[..|s| - 1]))
    ensures forall v :: Offers(cmp, Dedupe(cmp, s), v) <==> Offers(cmp, s, v)
  {
    hide KeepsFirst, Offers, StrictlyRising, Dedupe, TotalPreorder;
    forall v ensures Offers(cmp, Dedupe(cmp, s), v) <==> Offers(cmp, s, v) {
      DedupeOffers(cmp, s, s[..|s| - 1], s[|s| - 1], Dedupe(cmp, s[..|s| - 1]), v);
    }
  }

  lemma StepFirsts<T(!new)>(cmp: (T, T) -> Ordering, s: seq<T>)
    requires TotalPreorder(cmp) && |s| >= 2
    requires IsExact(cmp, s[..|s| - 1], Dedupe(cmp, s[..|s| - 1]))
    requires cmp(Dedupe(cmp, s[..|s| - 1])[|Dedupe(cmp, s[..|s| - 1])| - 1], s[|s| - 1]) != Greater
    ensures KeepsFirst(cmp, s, Dedupe(cmp, s))
  {
    var front, last := s[..|s| - 1], s[|s| - 1];
    var rest := Dedupe(cmp, front);
    hide KeepsFirst, Offers, StrictlyRising, Dedupe, TotalPreorder;
    AppendRises(cmp, rest, last);
    if cmp(rest[|rest| - 1], last) == Less {
      RisenAbove(cmp, rest, last);
      assert !Offers(cmp, front, last);
    }
    DedupeFirsts(cmp, s, front, last, rest);
  }

  lemma RisenAbove<T(!new)>(cmp: (T, T) -> Ordering, rest: seq<T>, last: T)
    requires StrictlyRising(cmp, rest + [last])
    ensures !Offers(cmp, rest, last)
  {
    var longer := rest + [last];
    assert forall i :: 0 <= i < |rest| ==> longer[i] == rest[i] && cmp(longer[i], longer[|rest|]) == Less;
  }

  lemma AppendRises<T(!new)>(cmp: (T, T) -> Ordering, rest: seq<T>, last: T)
    requires TotalPreorder(cmp)
    requires rest != [] && StrictlyRising(cmp, rest)
    ensures cmp(rest[|rest| - 1], last) == Less ==> StrictlyRising(cmp, rest + [last])
  {
    var top := rest[|rest| - 1];
    forall i | 0 <= i < |rest| && cmp(top, last) == Less ensures cmp(rest[i], last) == Less {
      assert i == |rest| - 1 || cmp(rest[i], top) == Less;
      assert Composes(cmp(rest[i], top), cmp(top, last), cmp(rest[i], last));
    }
  }

  lemma DedupeLast<T(!new)>(cmp: (T, T) -> Ordering, order: (T, T) -> Ordering, s: seq<T>, front: seq<T>, last: T, top: T)
    requires Refines(cmp, order)
    requires |s| >= 2 && Sorted(Before(order), s) && front == s[..|s| - 1] && last == s[|s| - 1]
    requires cmp(top, front[|front| - 1]) == Equal
    ensures cmp(top, last) != Greater
  {
    var near := front[|front| - 1];
    assert !Before(order)(last, near);
    assert order(last, near) == Flip(order(near, last));
    assert cmp(near, last) != Greater;
    assert Composes(cmp(top, near), cmp(near, last), cmp(top, last));
  }

  lemma DedupeOffers<T(!new)>(cmp: (T, T) -> Ordering, s: seq<T>, front: seq<T>, last: T, rest: seq<T>, v: T)
    requires TotalPreorder(cmp)
    requires |s| >= 2 && front == s[..|s| - 1] && last == s[|s| - 1] && rest == Dedupe(cmp, front)
    requires Offers(cmp, rest, v) <==> Offers(cmp, front, v)
    ensures Offers(cmp, Dedupe(cmp, s), v) <==> Offers(cmp, s, v)
  {
    var top := rest[|rest| - 1];
    assert s == front + [last];
    OffersOneMore(cmp, front, last, v);
    OffersOneMore(cmp, rest, last, v);
    if cmp(top, last) == Equal {
      assert Composes(cmp(top, last), cmp(last, v), cmp(top, v));
      assert cmp(last, v) == Equal ==> Offers(cmp, rest, v);
    }
    hide Offers;
  }

  lemma OffersOneMore<T>(cmp: (T, T) -> Ordering, a: seq<T>, x: T, v: T)
    ensures Offers(cmp, a + [x], v) <==> Offers(cmp, a, v) || cmp(x, v) == Equal
  {
    var longer := a + [x];
    assert longer[|a|] == x && forall i :: 0 <= i < |a| ==> longer[i] == a[i];
  }

  lemma DedupeFirsts<T(!new)>(cmp: (T, T) -> Ordering, s: seq<T>, front: seq<T>, last: T, rest: seq<T>)
    requires |s| >= 2 && front == s[..|s| - 1] && last == s[|s| - 1] && rest == Dedupe(cmp, front)
    requires KeepsFirst(cmp, front, rest)
    requires cmp(rest[|rest| - 1], last) != Equal ==> !Offers(cmp, front, last)
    ensures KeepsFirst(cmp, s, Dedupe(cmp, s))
  {
    var r := Dedupe(cmp, s);
    forall k | 0 <= k < |r| ensures LeadsTie(cmp, s, r[k]) {
      if k < |rest| {
        assert r[k] == rest[k];
        LeaderStays(cmp, s, rest[k]);
      } else {
        assert FirstOfTie(cmp, s, |s| - 1, last);
      }
    }
  }

  /** The in-place unique pass. */
  method ComputeDedupe<T>(cmp: (T, T) -> Ordering, s: seq<T>) returns (r: seq<T>)
    ensures r == Dedupe(cmp, s)
  {
    if s == [] { return []; }
    r := [s[0]];
    for i := 1 to |s|
      invariant r != [] && r == Dedupe(cmp, s[..i])
    {
      assert s[..i + 1][..i] == s[..i];
      if cmp(r[|r| - 1], s[i]) != Equal { r := r + [s[i]]; }
    }
    assert s[..|s|] == s;
  }

  /** What a declared list promises about the list handed in. */
  ghost predicate IsSupportFor<T(!new)>(cmp: (T, T) -> Ordering, order: (T, T) -> Ordering, given: seq<T>, kept: seq<T>) {
    && kept != []
    && StrictlyRising(cmp, kept)
    && (forall v :: Offers(cmp, kept, v) <==> Offers(cmp, given, v))
    && (forall k, v :: 0 <= k < |kept| && v in given && cmp(v, kept[k]) == Equal ==> order(kept[k], v) != Greater)
    && (forall k :: 0 <= k < |kept| ==> kept[k] in given)
  }

  /** Sort and de-duplicate: one entry per precedence, the least in the total order. */
  method SetSupport<T(!new)>(cmp: (T, T) -> Ordering, order: (T, T) -> Ordering, given: seq<T>) returns (s: Support<T>)
    requires Refines(cmp, order)
    ensures s.EmptyList? <==> given == []
    ensures s.TooManyVersions? <==> |given| > 64
    ensures s.Declared? ==> IsSupportFor(cmp, order, given, s.versions)
  {
    if given == [] { return EmptyList; }
    if |given| > MAX_VERSIONS_PER_ID { return TooManyVersions; }
    var sorted := Sort(Before(order), given);
    var kept := ComputeDedupe(cmp, sorted);
    BeforeIsWeak(order);
    SortSorts(Before(order), given);
    DedupeIsExact(cmp, order, sorted);
    SortedSupport(cmp, order, given, sorted, kept);
    return Declared(kept);
  }

  /** In a sorted list the first of a tie is its least. */
  lemma LeaderIsLeast<T(!new)>(cmp: (T, T) -> Ordering, order: (T, T) -> Ordering, sorted: seq<T>, lead: T, v: T)
    requires TotalPreorder(order)
    requires Sorted(Before(order), sorted)
    requires LeadsTie(cmp, sorted, lead) && v in sorted && cmp(v, lead) == Equal
    ensures lead in sorted && order(lead, v) != Greater
  {
    var i :| 0 <= i < |sorted| && FirstOfTie(cmp, sorted, i, lead);
    var j :| 0 <= j < |sorted| && sorted[j] == v;
    assert forall m :: 0 <= m < i ==> sorted[..i][m] == sorted[m] && cmp(sorted[m], lead) != Equal;
    assert order(v, lead) == Flip(order(lead, v));
    assert i < j ==> !Before(order)(sorted[j], sorted[i]);
  }

  lemma SortedSupport<T(!new)>(cmp: (T, T) -> Ordering, order: (T, T) -> Ordering, given: seq<T>, sorted: seq<T>, kept: seq<T>)
    requires TotalPreorder(order)
    requires given != [] && sorted == Sort(Before(order), given) && Sorted(Before(order), sorted)
    requires kept == Dedupe(cmp, sorted) && StrictlyRising(cmp, kept) && KeepsFirst(cmp, sorted, kept)
    requires forall v :: Offers(cmp, kept, v) <==> Offers(cmp, sorted, v)
    ensures IsSupportFor(cmp, order, given, kept)
  {
    SortMembers(Before(order), given);
    forall v ensures Offers(cmp, sorted, v) <==> Offers(cmp, given, v) {
      SameMembersOffer(cmp, sorted, given, v);
      SameMembersOffer(cmp, given, sorted, v);
    }
    forall k, v | 0 <= k < |kept| && v in given && cmp(v, kept[k]) == Equal ensures order(kept[k], v) != Greater {
      LeaderIsLeast(cmp, order, sorted, kept[k], v);
    }
    forall k | 0 <= k < |kept| ensures kept[k] in given {
      var i :| 0 <= i < |sorted| && FirstOfTie(cmp, sorted, i, kept[k]);
      assert kept[k] in sorted;
    }
  }

  lemma SameMembersOffer<T(!new)>(cmp: (T, T) -> Ordering, a: seq<T>, b: seq<T>, v: T)
    requires forall x :: x in a ==> x in b
    ensures Offers(cmp, a, v) ==> Offers(cmp, b, v)
  {
    if Offers(cmp, a, v) {
      var i :| 0 <= i < |a| && cmp(a[i], v) == Equal;
      assert a[i] in b;
      var j :| 0 <= j < |b| && b[j] == a[i];
    }
  }

  // ----- Negotiating one subject -----

  datatype Member<T> = Member(versions: Option<seq<T>>, closed: bool)

  datatype Status = Agreed | NoOverlap | IsIndeterminate | NotSupported

  /** `owner` is the index of the member that lacks the subject. */
  datatype Subject<T> = Subject(status: Status, selected: Option<T>, window: seq<T>, owner: Option<nat>)

  predicate ListedUpTo<T>(members: seq<Member<T>>, n: nat)
    requires n <= |members|
  {
    forall i :: 0 <= i < n ==> members[i].versions.Some?
  }

  /** Every one of the first n members lists the version. */
  predicate CommonUpTo<T>(cmp: (T, T) -> Ordering, members: seq<Member<T>>, n: nat, v: T)
    requires n <= |members| && ListedUpTo(members, n)
  {
    forall i :: 0 <= i < n ==> Offers(cmp, members[i].versions.value, v)
  }

  ghost predicate SomeCommon<T(!new)>(cmp: (T, T) -> Ordering, members: seq<Member<T>>, n: nat)
    requires n <= |members| && ListedUpTo(members, n)
  {
    exists v :: CommonUpTo(cmp, members, n, v)
  }

  /** All common versions tie with one another. */
  ghost predicate OneCommon<T(!new)>(cmp: (T, T) -> Ordering, members: seq<Member<T>>)
    requires ListedUpTo(members, |members|)
  {
    forall v, w :: CommonUpTo(cmp, members, |members|, v) && CommonUpTo(cmp, members, |members|, w) ==> cmp(v, w) == Equal
  }

  /** Lists come from `SetSupport`. */
  ghost predicate WellListed<T(!new)>(cmp: (T, T) -> Ordering, members: seq<Member<T>>) {
    forall i :: 0 <= i < |members| && members[i].versions.Some?
      ==> members[i].versions.value != [] && NoTies(cmp, members[i].versions.value)
  }

  function Shared<T>(cmp: (T, T) -> Ordering, a: seq<T>, b: seq<T>): (r: seq<T>) {
    if a == [] then []
    else Shared(cmp, a[..|a| - 1], b) + if Offers(cmp, b, a[|a| - 1]) then [a[|a| - 1]] else []
  }

  lemma {:induction false} SharedMembers<T(!new)>(cmp: (T, T) -> Ordering, a: seq<T>, b: seq<T>)
    ensures forall x :: x in Shared(cmp, a, b) <==> x in a && Offers(cmp, b, x)
  {
    if a != [] {
      SharedMembers(cmp, a[..|a| - 1], b);
      assert a == a[..|a| - 1] + [a[|a| - 1]];
    }
  }

  lemma {:induction false} SharedNoTies<T(!new)>(cmp: (T, T) -> Ordering, a: seq<T>, b: seq<T>)
    requires NoTies(cmp, a)
    ensures NoTies(cmp, Shared(cmp, a, b))
  {
    if a != [] {
      var front, last := a[..|a| - 1], a[|a| - 1];
      SharedNoTies(cmp, front, b);
      SharedMembers(cmp, front, b);
      var r := Shared(cmp, front, b);
      forall i | 0 <= i < |r| ensures cmp(r[i], last) != Equal {
        assert r[i] in front;
      }
    }
  }

  lemma SharedOffers<T(!new)>(cmp: (T, T) -> Ordering, a: seq<T>, b: seq<T>, v: T)
    requires TotalPreorder(cmp)
    ensures Offers(cmp, Shared(cmp, a, b), v) <==> Offers(cmp, a, v) && Offers(cmp, b, v)
  {
    SharedMembers(cmp, a, b);
    var r := Shared(cmp, a, b);
    if Offers(cmp, r, v) {
      var i :| 0 <= i < |r| && cmp(r[i], v) == Equal;
      assert r[i] in a;
      OffersUpToTies(cmp, b, r[i], v);
      SameMembersOffer(cmp, r, a, v);
    }
    if Offers(cmp, a, v) && Offers(cmp, b, v) {
      var i :| 0 <= i < |a| && cmp(a[i], v) == Equal;
      OffersUpToTies(cmp, b, a[i], v);
      assert a[i] in r;
      var k :| 0 <= k < |r| && r[k] == a[i];
    }
  }

  lemma {:induction false} SortNoTies<T(!new)>(cmp: (T, T) -> Ordering, less: (T, T) -> bool, s: seq<T>)
    requires TotalPreorder(cmp)
    requires NoTies(cmp, s)
    ensures NoTies(cmp, Sort(less, s))
  {
    if s != [] {
      var rest := Sort(less, s[1..]);
      SortNoTies(cmp, less, s[1..]);
      SortMembers(less, s[1..]);
      forall y | y in rest ensures cmp(s[0], y) != Equal {
        assert y in s[1..];
      }
      InsertNoTies(cmp, less, s[0], rest);
    }
  }

  lemma {:induction false} InsertNoTies<T(!new)>(cmp: (T, T) -> Ordering, less: (T, T) -> bool, x: T, s: seq<T>)
    requires TotalPreorder(cmp)
    requires NoTies(cmp, s)
    requires forall y :: y in s ==> cmp(x, y) != Equal
    ensures NoTies(cmp, Insert(less, x, s))
  {
    if s == [] || !less(s[0], x) {
    } else {
      InsertNoTies(cmp, less, x, s[1..]);
      var rest := Insert(less, x, s[1..]);
      InsertKeeps(less, x, s[1..]);
      forall j | 0 <= j < |rest| ensures cmp(s[0], rest[j]) != Equal {
        assert rest[j] in multiset(rest);
        assert rest[j] == x || rest[j] in multiset(s[1..]);
        assert cmp(s[0], x) == Flip(cmp(x, s[0]));
        assert rest[j] == x || rest[j] in s[1..];
      }
    }
  }

  /** The versions of the first list that the second offers too, in total order. */
  method IntersectVersionLists<T(!new)>(cmp: (T, T) -> Ordering, order: (T, T) -> Ordering, a: seq<T>, b: seq<T>)
    returns (common: seq<T>)
    requires Refines(cmp, order)
    ensures forall v :: Offers(cmp, common, v) <==> Offers(cmp, a, v) && Offers(cmp, b, v)
    ensures forall x :: x in common ==> x in a
    ensures NoTies(cmp, a) ==> NoTies(cmp, common)
    ensures Sorted(Before(order), common)
  {
    var shared := [];
    for i := 0 to |a|
      invariant shared == Shared(cmp, a[..i], b)
    {
      assert a[..i + 1][..i] == a[..i];
      var found := false;
      for j := 0 to |b|
        invariant !found ==> forall k :: 0 <= k < j ==> cmp(b[k], a[i]) != Equal
        invariant found ==> Offers(cmp, b, a[i])
      {
        if cmp(a[i], b[j]) == Equal { found := true; break; }
        assert cmp(b[j], a[i]) == Flip(cmp(a[i], b[j]));
      }
      if found { shared := shared + [a[i]]; }
    }
    assert a[..|a|] == a;
    common := Sort(Before(order), shared);
    BeforeIsWeak(order);
    SortSorts(Before(order), shared);
    SortMembers(Before(order), shared);
    SharedMembers(cmp, a, b);
    forall v ensures Offers(cmp, common, v) <==> Offers(cmp, a, v) && Offers(cmp, b, v) {
      SharedOffers(cmp, a, b, v);
      SameMembersOffer(cmp, shared, common, v);
      SameMembersOffer(cmp, common, shared, v);
    }
    if NoTies(cmp, a) {
      SharedNoTies(cmp, a, b);
      SortNoTies(cmp, Before(order), shared);
    }
  }

  /** `best` is at the end of the list that the policy prefers. */
  ghost predicate Preferred<T(!new)>(cmp: (T, T) -> Ordering, policy: NegotiationPolicy, v: T, best: T) {
    if policy == LowestCommon then cmp(v, best) != Less else cmp(v, best) != Greater
  }

  method SelectNegotiated<T(!new)>(cmp: (T, T) -> Ordering, window: seq<T>, policy: NegotiationPolicy)
    returns (best: Option<T>)
    requires TotalPreorder(cmp)
    ensures best.None? <==> window == []
    ensures best.Some? ==> best.value in window && forall v :: v in window ==> Preferred(cmp, policy, v, best.value)
  {
    if window == [] { return None; }
    var top := window[0];
    for i := 0 to |window|
      invariant top in window
      invariant forall k :: 0 <= k < i ==> Preferred(cmp, policy, window[k], top)
    {
      ghost var was := top;
      if policy == LowestCommon {
        if cmp(window[i], top) == Less { top := window[i]; }
      } else {
        if cmp(window[i], top) == Greater { top := window[i]; }
      }
      forall k | 0 <= k < i ensures Preferred(cmp, policy, window[k], top) {
        assert cmp(was, top) == Flip(cmp(top, was));
        assert Composes(cmp(window[k], was), cmp(was, top), cmp(window[k], top));
      }
    }
    return Some(top);
  }

  /** The first member without the subject, reached while some version was still common. */
  ghost predicate StopsAt<T(!new)>(cmp: (T, T) -> Ordering, members: seq<Member<T>>, k: nat) {
    && k < |members|
    && members[k].versions.None?
    && ListedUpTo(members, k)
    && (k > 0 ==> SomeCommon(cmp, members, k))
  }

  /** What the outcome says about the members, without saying how it is found. */
  ghost predicate IsNegotiated<T(!new)>(cmp: (T, T) -> Ordering, members: seq<Member<T>>, policy: NegotiationPolicy, s: Subject<T>) {
    var n := |members|;
    && (s.status == Agreed <==>
          0 < n && ListedUpTo(members, n) && SomeCommon(cmp, members, n) && (policy == ExactRequired ==> OneCommon(cmp, members)))
    && (s.status == NotSupported <==> exists k: nat :: StopsAt(cmp, members, k) && members[k].closed)
    && (s.status == IsIndeterminate <==> exists k: nat :: StopsAt(cmp, members, k) && !members[k].closed)
    && (s.selected.Some? <==> s.status == Agreed)
    && (s.status == Agreed ==>
          && CommonUpTo(cmp, members, n, s.selected.value)
          && forall v :: CommonUpTo(cmp, members, n, v) ==> Preferred(cmp, policy, v, s.selected.value))
    && (s.owner.Some? <==> s.status == NotSupported || s.status == IsIndeterminate)
    && (s.owner.Some? ==> StopsAt(cmp, members, s.owner.value))
    && (s.window != [] <==> 0 < n && ListedUpTo(members, n) && SomeCommon(cmp, members, n))
    && (s.window != [] ==> IsWindow(cmp, members, n, s.window))
  }

  /** The window after the first n members. */
  ghost predicate IsWindow<T(!new)>(cmp: (T, T) -> Ordering, members: seq<Member<T>>, n: nat, window: seq<T>) {
    && 0 < n <= |members|
    && ListedUpTo(members, n)
    && NoTies(cmp, window)
    && forall v :: Offers(cmp, window, v) <==> CommonUpTo(cmp, members, n, v)
  }

  lemma EmptyWindow<T(!new)>(cmp: (T, T) -> Ordering, members: seq<Member<T>>, n: nat, window: seq<T>)
    requires TotalPreorder(cmp)
    requires IsWindow(cmp, members, n, window)
    ensures window == [] <==> !SomeCommon(cmp, members, n)
  {
    if window != [] {
      assert Offers(cmp, window, window[0]);
    } else {
      forall v ensures !CommonUpTo(cmp, members, n, v) {
        assert !Offers(cmp, window, v);
      }
    }
  }

  /** Once nothing is common, nothing later is, and no later member is looked at. */
  lemma NothingCommonStays<T(!new)>(cmp: (T, T) -> Ordering, members: seq<Member<T>>, n: nat)
    requires 0 < n <= |members| && ListedUpTo(members, n) && !SomeCommon(cmp, members, n)
    ensures forall k :: !StopsAt(cmp, members, k)
    ensures ListedUpTo(members, |members|) ==> !SomeCommon(cmp, members, |members|)
  {
    forall k: nat, v | n <= k <= |members| && ListedUpTo(members, k) ensures !CommonUpTo(cmp, members, k, v) {
      assert !CommonUpTo(cmp, members, n, v);
    }
    assert forall k: nat :: n <= k <= |members| && ListedUpTo(members, k) ==> !SomeCommon(cmp, members, k);
  }

  lemma WindowOfOne<T(!new)>(cmp: (T, T) -> Ordering, members: seq<Member<T>>, window: seq<T>)
    requires TotalPreorder(cmp)
    requires IsWindow(cmp, members, |members|, window)
    requires window != []
    ensures |window| == 1 <==> OneCommon(cmp, members)
  {
    if |window| == 1 {
      forall v, w | CommonUpTo(cmp, members, |members|, v) && CommonUpTo(cmp, members, |members|, w)
        ensures cmp(v, w) == Equal
      {
        assert Offers(cmp, window, v) && Offers(cmp, window, w);
        assert cmp(window[0], v) == Equal && cmp(window[0], w) == Equal;
        assert cmp(v, window[0]) == Flip(cmp(window[0], v));
        assert Composes(cmp(v, window[0]), cmp(window[0], w), cmp(v, w));
      }
    } else {
      assert Offers(cmp, window, window[0]) && Offers(cmp, window, window[1]);
      assert CommonUpTo(cmp, members, |members|, window[0]) && CommonUpTo(cmp, members, |members|, window[1]);
    }
  }

  lemma WindowNarrows<T(!new)>(cmp: (T, T) -> Ordering, members: seq<Member<T>>, i: nat, window: seq<T>, next: seq<T>)
    requires i < |members| && members[i].versions.Some? && NoTies(cmp, next)
    requires i > 0 ==> IsWindow(cmp, members, i, window)
    requires forall v :: Offers(cmp, next, v) <==> (i == 0 || Offers(cmp, window, v)) && Offers(cmp, members[i].versions.value, v)
    ensures IsWindow(cmp, members, i + 1, next)
  {
    hide NoTies, Offers;
  }

  method NextWindow<T(!new)>(cmp: (T, T) -> Ordering, order: (T, T) -> Ordering, members: seq<Member<T>>, i: nat, window: seq<T>)
    returns (next: seq<T>)
    requires Refines(cmp, order) && WellListed(cmp, members)
    requires i < |members| && members[i].versions.Some?
    requires i > 0 ==> IsWindow(cmp, members, i, window)
    ensures IsWindow(cmp, members, i + 1, next)
    ensures i > 0 ==> Sorted(Before(order), next) && forall x :: x in next ==> x in window
    ensures i == 0 ==> next == members[0].versions.value
  {
    if i == 0 {
      WindowNarrows(cmp, members, 0, [], members[0].versions.value);
      return members[i].versions.value;
    }
    hide Offers, NoTies;
    next := IntersectVersionLists(cmp, order, window, members[i].versions.value);
    WindowNarrows(cmp, members, i, window, next);
  }

  /** Folds the lists member by member, giving up at the first that cannot go on. */
  method NegotiateOne<T(!new)>(cmp: (T, T) -> Ordering, order: (T, T) -> Ordering, members: seq<Member<T>>, policy: NegotiationPolicy)
    returns (s: Subject<T>)
    requires Refines(cmp, order) && WellListed(cmp, members)
    ensures IsNegotiated(cmp, members, policy, s)
    ensures s.selected.Some? ==> s.selected.value in s.window
    ensures s.window != [] ==> forall v :: v in s.window ==> v in members[0].versions.value
    ensures |members| > 1 ==> Sorted(Before(order), s.window)
  {
    var window: seq<T> := [];
    for i := 0 to |members|
      invariant ListedUpTo(members, i)
      invariant if i == 0 then window == [] else IsWindow(cmp, members, i, window) && window != []
      invariant i > 0 ==> forall x :: x in window ==> x in members[0].versions.value
      invariant i > 1 ==> Sorted(Before(order), window)
    {
      if i > 0 { EmptyWindow(cmp, members, i, window); }
      if members[i].versions.None? {
        assert StopsAt(cmp, members, i);
        assert forall k: nat :: StopsAt(cmp, members, k) ==> k == i;
        return Subject(if members[i].closed then NotSupported else IsIndeterminate, None, [], Some(i));
      }
      window := NextWindow(cmp, order, members, i, window);
      EmptyWindow(cmp, members, i + 1, window);
      if window == [] {
        NothingCommonStays(cmp, members, i + 1);
        return Subject(NoOverlap, None, [], None);
      }
    }
    s := Conclude(cmp, members, policy, window);
  }

  method Conclude<T(!new)>(cmp: (T, T) -> Ordering, members: seq<Member<T>>, policy: NegotiationPolicy, window: seq<T>)
    returns (s: Subject<T>)
    requires TotalPreorder(cmp)
    requires ListedUpTo(members, |members|)
    requires if members == [] then window == [] else IsWindow(cmp, members, |members|, window) && window != []
    ensures IsNegotiated(cmp, members, policy, s)
    ensures s.window == window && (s.selected.Some? ==> s.selected.value in window)
  {
    assert forall k: nat :: !StopsAt(cmp, members, k);
    if members != [] {
      EmptyWindow(cmp, members, |members|, window);
      WindowOfOne(cmp, members, window);
    }
    if policy == ExactRequired && |window| != 1 {
      return Subject(NoOverlap, None, window, None);
    }
    var selected := SelectNegotiated(cmp, window, policy);
    if members != [] {
      BestOfWindow(cmp, members, policy, window, selected.value);
    }
    return Subject(if selected.Some? then Agreed else NoOverlap, selected, window, None);
  }

  lemma BestOfWindow<T(!new)>(cmp: (T, T) -> Ordering, members: seq<Member<T>>, policy: NegotiationPolicy, window: seq<T>, best: T)
    requires TotalPreorder(cmp)
    requires IsWindow(cmp, members, |members|, window)
    requires best in window && forall v :: v in window ==> Preferred(cmp, policy, v, best)
    ensures CommonUpTo(cmp, members, |members|, best)
    ensures forall v :: CommonUpTo(cmp, members, |members|, v) ==> Preferred(cmp, policy, v, best)
  {
    var i :| 0 <= i < |window| && window[i] == best;
    assert Offers(cmp, window, best);
    forall v | CommonUpTo(cmp, members, |members|, v) ensures Preferred(cmp, policy, v, best) {
      assert Offers(cmp, window, v);
      var k :| 0 <= k < |window| && cmp(window[k], v) == Equal;
      assert window[k] in window && Preferred(cmp, policy, window[k], best);
      assert cmp(v, window[k]) == Flip(cmp(window[k], v));
      assert Composes(cmp(v, window[k]), cmp(window[k], best), cmp(v, best));
    }
  }

  // ----- The order of members -----

  lemma CommonIgnoresOrder<T(!new)>(cmp: (T, T) -> Ordering, a: seq<Member<T>>, b: seq<Member<T>>)
    requires multiset(a) == multiset(b)
    ensures |a| == |b|
    ensures ListedUpTo(a, |a|) ==> ListedUpTo(b, |b|)
    ensures ListedUpTo(a, |a|) ==> forall v :: CommonUpTo(cmp, a, |a|, v) ==> CommonUpTo(cmp, b, |b|, v)
  {
    assert |multiset(a)| == |multiset(b)|;
    forall i | 0 <= i < |b| ensures b[i] in a {
      assert b[i] in multiset(b);
    }
  }

  /** Whatever order the members come in, they agree or not, and on versions of equal precedence. */
  lemma MemberOrderDoesNotMatter<T(!new)>(cmp: (T, T) -> Ordering, a: seq<Member<T>>, b: seq<Member<T>>,
                                          policy: NegotiationPolicy, s: Subject<T>, t: Subject<T>)
    requires TotalPreorder(cmp)
    requires multiset(a) == multiset(b)
    requires IsNegotiated(cmp, a, policy, s) && IsNegotiated(cmp, b, policy, t)
    ensures s.status == Agreed <==> t.status == Agreed
    ensures s.status == Agreed ==> cmp(s.selected.value, t.selected.value) == Equal
  {
    CommonIgnoresOrder(cmp, a, b);
    CommonIgnoresOrder(cmp, b, a);
    if s.status == Agreed && t.status == Agreed {
      var v, w := s.selected.value, t.selected.value;
      assert Preferred(cmp, policy, w, v) && Preferred(cmp, policy, v, w);
      assert cmp(w, v) == Flip(cmp(v, w));
    }
  }

  // ----- Protocols and schemas of components -----

  const MAX_NEGOTIATED_SUBJECTS: nat := 64

  function Listed(items: map<string, seq<SemVersion>>, id: string): Option<seq<SemVersion>> {
    if id in items then Some(items[id]) else None
  }

  function ProtocolMember(id: string): ComponentSpec -> Member<SemVersion> {
    (c: ComponentSpec) => Member(Listed(c.protocols, id), c.knowledge.protocolsClosed)
  }

  function SchemaMember(id: string): ComponentSpec -> Member<SemVersion> {
    (c: ComponentSpec) => Member(Listed(c.schemas, id), c.knowledge.schemasClosed)
  }

  function MembersBy(view: ComponentSpec -> Member<SemVersion>, specs: seq<ComponentSpec>): (m: seq<Member<SemVersion>>)
    ensures |m| == |specs|
  {
    seq(|specs|, i requires 0 <= i < |specs| => view(specs[i]))
  }

  /** Component lists come from `SetSupport`. */
  ghost predicate ListsDeclared(specs: seq<ComponentSpec>, viewOf: string -> ComponentSpec -> Member<SemVersion>) {
    forall id :: WellListed(Precedence, MembersBy(viewOf(id), specs))
  }

  /** The ids that are asked about: the known ones, in order, up to the limit. */
  function KnownOf(ids: seq<string>, known: set<string>): seq<string> {
    if ids == [] then []
    else KnownOf(ids[..|ids| - 1], known) + if ids[|ids| - 1] in known then [ids[|ids| - 1]] else []
  }

  function UpToLimit(ids: seq<string>): seq<string> {
    if |ids| <= MAX_NEGOTIATED_SUBJECTS then ids else ids[..MAX_NEGOTIATED_SUBJECTS]
  }

  lemma KnownGrows(ids: seq<string>, known: set<string>, i: nat)
    requires i < |ids|
    ensures KnownOf(ids[..i + 1], known) == KnownOf(ids[..i], known) + if ids[i] in known then [ids[i]] else []
  {
    assert ids[..i + 1][..i] == ids[..i];
  }

  lemma {:induction false} LimitStays(ids: seq<string>, known: set<string>, i: nat)
    requires i <= |ids| && |KnownOf(ids[..i], known)| >= MAX_NEGOTIATED_SUBJECTS
    ensures UpToLimit(KnownOf(ids, known)) == UpToLimit(KnownOf(ids[..i], known))
    decreases |ids| - i
  {
    if i == |ids| {
      assert ids[..i] == ids;
    } else {
      KnownGrows(ids, known, i);
      LimitStays(ids, known, i + 1);
    }
  }

  /** One answer per name. */
  ghost predicate Answers(specs: seq<ComponentSpec>, names: seq<string>, viewOf: string -> ComponentSpec -> Member<SemVersion>,
                          policy: NegotiationPolicy, subjects: seq<Subject<SemVersion>>)
  {
    && |subjects| == |names|
    && forall i :: 0 <= i < |names| ==> IsNegotiated(Precedence, MembersBy(viewOf(names[i]), specs), policy, subjects[i])
  }

  /** The loop over ids, which passes over unknown ones and stops at the limit. */
  method NegotiateSubjects(specs: seq<ComponentSpec>, ids: seq<string>, known: set<string>,
                           viewOf: string -> ComponentSpec -> Member<SemVersion>, policy: NegotiationPolicy)
    returns (names: seq<string>, subjects: seq<Subject<SemVersion>>)
    requires ListsDeclared(specs, viewOf)
    ensures names == UpToLimit(KnownOf(ids, known))
    ensures Answers(specs, names, viewOf, policy, subjects)
  {
    TotalOrderRefinesPrecedence();
    PrecedenceIsTotal();
    names, subjects := [], [];
    var i := 0;
    while i < |ids|
      invariant i <= |ids|
      invariant names == KnownOf(ids[..i], known) && |names| <= MAX_NEGOTIATED_SUBJECTS
      invariant Answers(specs, names, viewOf, policy, subjects)
    {
      hide IsNegotiated, Precedence, TotalOrder;
      if |names| >= MAX_NEGOTIATED_SUBJECTS {
        LimitStays(ids, known, i);
        break;
      }
      KnownGrows(ids, known, i);
      if ids[i] in known {
        var subject := NegotiateOne(Precedence, TotalOrder, MembersBy(viewOf(ids[i]), specs), policy);
        names, subjects := names + [ids[i]], subjects + [subject];
      }
      i := i + 1;
    }
    assert ids[..|ids|] == ids;
  }

  // ----- The ids in play -----

  function ProtocolIds(specs: seq<ComponentSpec>): set<string> {
    set c, id | c in specs && id in c.protocols :: id
  }

  function SchemaIds(specs: seq<ComponentSpec>): set<string> {
    set c, id | c in specs && id in c.schemas :: id
  }

  /** A set is iterated in the order of the ids' text. */
  method Iterate(ids: set<string>) returns (s: seq<string>)
    ensures StrictlyRising(CompareText, s)
    ensures forall id :: id in s <==> id in ids
  {
    CompareTextIsTotal();
    hide CompareText;
    s := [];
    var left := ids;
    while left != {}
      invariant left <= ids
      invariant forall id :: id in s <==> id in ids && id !in left
      invariant StrictlyRising(CompareText, s)
      decreases |left|
    {
      var id :| id in left;
      left := left - {id};
      InsertRises(CompareText, s, id);
      s := Insert(Before(CompareText), id, s);
    }
  }

  lemma {:induction false} InsertRises<T(!new)>(cmp: (T, T) -> Ordering, s: seq<T>, v: T)
    requires TotalPreorder(cmp) && StrictlyRising(cmp, s)
    requires forall x :: x in s ==> cmp(x, v) != Equal
    ensures StrictlyRising(cmp, Insert(Before(cmp), v, s))
    ensures forall x :: x in Insert(Before(cmp), v, s) <==> x == v || x in s
  {
    if s != [] && cmp(s[0], v) == Less {
      InsertRises(cmp, s[1..], v);
      HeadBelow(cmp, s, v);
    } else if s != [] {
      BelowAll(cmp, s, v);
    }
  }

  lemma HeadBelow<T(!new)>(cmp: (T, T) -> Ordering, s: seq<T>, v: T)
    requires s != [] && StrictlyRising(cmp, s) && cmp(s[0], v) == Less
    requires forall x :: x in Insert(Before(cmp), v, s[1..]) <==> x == v || x in s[1..]
    ensures forall k :: 0 <= k < |Insert(Before(cmp), v, s[1..])| ==> cmp(s[0], Insert(Before(cmp), v, s[1..])[k]) == Less
    ensures forall x :: x in [s[0]] + Insert(Before(cmp), v, s[1..]) <==> x == v || x in s
  {
    var rest := Insert(Before(cmp), v, s[1..]);
    assert s == [s[0]] + s[1..];
    forall k | 0 <= k < |rest| ensures cmp(s[0], rest[k]) == Less {
      assert rest[k] in rest;
      if rest[k] != v {
        var j :| 0 <= j < |s[1..]| && s[1..][j] == rest[k];
        assert s[j + 1] == rest[k];
      }
    }
  }

  lemma BelowAll<T(!new)>(cmp: (T, T) -> Ordering, s: seq<T>, v: T)
    requires TotalPreorder(cmp) && s != [] && StrictlyRising(cmp, s) && cmp(s[0], v) == Greater
    ensures forall k :: 0 <= k < |s| ==> cmp(v, s[k]) == Less
  {
    forall k | 0 <= k < |s| ensures cmp(v, s[k]) == Less {
      assert cmp(v, s[0]) == Flip(cmp(s[0], v));
      if k > 0 { assert Composes(cmp(v, s[0]), cmp(s[0], s[k]), cmp(v, s[k])); }
    }
  }

  /** The least known ids in play, in order, as many as the limit allows. */
  ghost predicate LeastKnown(ids: set<string>, known: set<string>, names: seq<string>) {
    && StrictlyRising(CompareText, names) && |names| <= 64
    && (forall id :: id in names ==> id in ids && id in known)
    && forall id :: id in ids && id in known && id !in names ==>
         |names| == 64 && forall k :: 0 <= k < |names| ==> CompareText(names[k], id) == Less
  }

  lemma {:induction false} KnownRises(ids: seq<string>, known: set<string>)
    requires StrictlyRising(CompareText, ids)
    ensures StrictlyRising(CompareText, KnownOf(ids, known))
    ensures forall id :: id in KnownOf(ids, known) <==> id in ids && id in known
  {
    if ids != [] {
      var front, last := ids[..|ids| - 1], ids[|ids| - 1];
      KnownRises(front, known);
      assert ids == front + [last];
      var rest := KnownOf(front, known);
      forall k | 0 <= k < |rest| ensures CompareText(rest[k], last) == Less {
        assert rest[k] in rest;
        var j :| 0 <= j < |front| && front[j] == rest[k];
        assert ids[j] == rest[k];
      }
    }
  }

  lemma TakenAreLeast(ids: set<string>, known: set<string>, s: seq<string>)
    requires StrictlyRising(CompareText, s) && forall id :: id in s <==> id in ids
    ensures LeastKnown(ids, known, UpToLimit(KnownOf(s, known)))
  {
    KnownRises(s, known);
    hide KnownOf;
    var all := KnownOf(s, known);
    var names := UpToLimit(all);
    forall id | id in ids && id in known && id !in names
      ensures |names| == MAX_NEGOTIATED_SUBJECTS && forall k :: 0 <= k < |names| ==> CompareText(names[k], id) == Less
    {
      assert id in s && id in all;
      var j :| 0 <= j < |all| && all[j] == id;
      assert forall k :: 0 <= k < |names| ==> names[k] == all[k];
    }
  }

  datatype NegotiationResult = NegotiationResult(
    policy: NegotiationPolicy,
    protocolIds: seq<string>,
    protocols: seq<Subject<SemVersion>>,
    schemaIds: seq<string>,
    schemas: seq<Subject<SemVersion>>)

  /** Protocols and schemas of two or more components, each id of the taxonomy once and in order; of one, nothing. */
  method Negotiate(specs: seq<ComponentSpec>, policy: NegotiationPolicy, taxonomy: Taxonomy) returns (r: NegotiationResult)
    requires ListsDeclared(specs, ProtocolMember) && ListsDeclared(specs, SchemaMember)
    ensures |specs| < 2 ==> r == NegotiationResult(policy, [], [], [], [])
    ensures |specs| >= 2 ==>
      && r.policy == policy
      && LeastKnown(ProtocolIds(specs), taxonomy.protocols, r.protocolIds)
      && Answers(specs, r.protocolIds, ProtocolMember, policy, r.protocols)
      && LeastKnown(SchemaIds(specs), taxonomy.schemas, r.schemaIds)
      && Answers(specs, r.schemaIds, SchemaMember, policy, r.schemas)
  {
    hide IsNegotiated, LeastKnown, Answers, ListsDeclared;
    if |specs| < 2 { return NegotiationResult(policy, [], [], [], []); }
    var protocolIds := Iterate(ProtocolIds(specs));
    var names, subjects := NegotiateSubjects(specs, protocolIds, taxonomy.protocols, ProtocolMember, policy);
    TakenAreLeast(ProtocolIds(specs), taxonomy.protocols, protocolIds);
    var schemaIds := Iterate(SchemaIds(specs));
    var schemaNames, schemas := NegotiateSubjects(specs, schemaIds, taxonomy.schemas, SchemaMember, policy);
    TakenAreLeast(SchemaIds(specs), taxonomy.schemas, schemaIds);
    r := NegotiationResult(policy, names, subjects, schemaNames, schemas);
  }
}
