/** The order in which the normal form lists rules, constraints and implications (src/rule.cpp, src/document.cpp). */
module NormalOrder {
  import opened Order
  import opened SemVer
  import opened OrderMeaning
  import opened Decimal
  import opened Sorting
  import opened Rules
  import opened ConstraintKeys
  import opened Canonical

  // ----- Text after text -----

  /** Prefixes of one length decide unless they are equal; then the rest does. */
  lemma {:induction false} PrefixDecides(p: string, q: string, s: string, t: string)
    requires |p| == |q|
    ensures CompareText(p + s, q + t) == if p == q then CompareText(s, t) else CompareText(p, q)
  {
    if p == "" {
      assert p + s == s && q + t == t;
    } else {
      assert (p + s)[1..] == p[1..] + s && (q + t)[1..] == q[1..] + t;
      PrefixDecides(p[1..], q[1..], s, t);
      assert p == [p[0]] + p[1..] && q == [q[0]] + q[1..];
    }
  }

  lemma IndexOrder(m: nat, n: nat)
    requires m < 1000 && n < 1000
    ensures CompareText(Index(m), Index(n)) == CompareNat(m, n)
    ensures Index(m) == Index(n) <==> m == n
  {
    assert Pow10(3) == 1000 by { assert Pow10(1) == 10; assert Pow10(2) == 100; }
    ValueOfPadded(m, 3);
    ValueOfPadded(n, 3);
    SameLengthTextIsValue(Index(m), Index(n));
  }

  // ----- Constraints and implications -----

  /** By kind, then by side, then by what they say, as text. */
  lemma ConstraintOrder(a: Constraint, b: Constraint)
    ensures ConstraintLess(a, b) <==>
      if KindIndex(a) != KindIndex(b) then KindIndex(a) < KindIndex(b)
      else if a.side != b.side then SideIndex(a.side) < SideIndex(b.side)
      else TextBelow(KeyBody(a), KeyBody(b))
  {
    IndexOrder(KindIndex(a), KindIndex(b));
    IndexOrder(SideIndex(a.side), SideIndex(b.side));
    var x, y := Index(KindIndex(a)) + "|", Index(KindIndex(b)) + "|";
    var u, v := Index(SideIndex(a.side)) + "|", Index(SideIndex(b.side)) + "|";
    hide KindIndex, KeyBody, Index, CompareText;
    SidesDiffer(a.side, b.side);
    TextOrderMeaning(KeyBody(a), KeyBody(b));
    KeyInThree(a);
    KeyInThree(b);
    PrefixDecides(x, y, u + KeyBody(a), v + KeyBody(b));
    PrefixDecides(u, v, KeyBody(a), KeyBody(b));
    BarAfter(Index(KindIndex(a)), Index(KindIndex(b)));
    BarAfter(Index(SideIndex(a.side)), Index(SideIndex(b.side)));
    hide TextBelow;
  }

  lemma SidesDiffer(a: Side, b: Side)
    ensures a == b <==> SideIndex(a) == SideIndex(b)
  {
  }

  lemma KeyInThree(c: Constraint)
    ensures ConstraintSortKey(c) == (Index(KindIndex(c)) + "|") + ((Index(SideIndex(c.side)) + "|") + KeyBody(c))
  {
    hide Index, KeyBody, KindIndex, SideIndex;
  }

  lemma BarAfter(p: string, q: string)
    requires |p| == |q|
    ensures CompareText(p + "|", q + "|") == CompareText(p, q)
    ensures p + "|" == q + "|" <==> p == q
  {
    PrefixDecides(p, q, "|", "|");
    CompareTextIsTotal();
    assert (p + "|")[..|p|] == p && (q + "|")[..|q|] == q;
  }

  const SIDES: seq<Side> := [Left, Right, AllMembers]

  predicate ImplicationBefore(a: Implication, b: Implication, i: nat, j: nat)
    requires i < |SIDES| && j < |SIDES|
  {
    SIDES[i] == a.side && SIDES[j] == b.side && i < j
  }

  /** By side, then by the two capabilities. */
  lemma ImplicationOrder(a: Implication, b: Implication)
    ensures ImplicationLess(a, b) <==>
      if a.side != b.side then exists i, j :: 0 <= i < |SIDES| && 0 <= j < |SIDES| && ImplicationBefore(a, b, i, j)
      else if a.ifPresent != b.ifPresent then TextBelow(a.ifPresent, b.ifPresent)
      else TextBelow(a.thenRequired, b.thenRequired)
  {
    TextOrderMeaning(a.ifPresent, b.ifPresent);
    TextOrderMeaning(a.thenRequired, b.thenRequired);
    hide CompareText, TextBelow;
    var i, j := SideIndex(a.side), SideIndex(b.side);
    assert SIDES[i] == a.side && SIDES[j] == b.side;
    if i < j { assert ImplicationBefore(a, b, i, j); }
  }

  // ----- Documents -----

  /** In the normal form nothing stands before what it should follow. */
  lemma NormalFormRises<Meta>(d: Document<Meta>)
    ensures Sorted(DocumentBefore, Normalize(d).rules)
    ensures forall r :: r in Normalize(d).rules ==>
              Sorted(ConstraintLess, r.constraints) && Sorted(ImplicationLess, r.implications)
  {
    DocumentBeforeIsWeak();
    SortSorts(DocumentBefore, NormalizeRules(d.rules));
    SortMembers(DocumentBefore, NormalizeRules(d.rules));
    NormalizedAt(d.rules);
    hide ConstraintLess, ImplicationLess, DocumentBefore;
    forall r | r in NormalizeRules(d.rules) ensures Sorted(ConstraintLess, r.constraints) && Sorted(ImplicationLess, r.implications) {
      var i :| 0 <= i < |NormalizeRules(d.rules)| && NormalizeRules(d.rules)[i] == r;
      RuleRises(d.rules[i]);
    }
  }

  lemma RuleRises(r: Rule)
    ensures Sorted(ConstraintLess, NormalizeRule(r).constraints) && Sorted(ImplicationLess, NormalizeRule(r).implications)
  {
    ConstraintLessIsWeak();
    ImplicationLessIsTotal();
    SortSorts(ConstraintLess, r.constraints);
    SortSorts(ImplicationLess, r.implications);
    hide ConstraintLess, ImplicationLess;
  }
}
