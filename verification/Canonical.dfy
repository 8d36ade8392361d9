/** The normal form of rules and documents (src/rule.cpp, src/document.cpp). */
module Canonical {
  import opened Order
  import opened Sorting
  import opened Rules
  import opened ConstraintKeys

  // ----- Orders inside a rule -----

  predicate ConstraintLess(a: Constraint, b: Constraint) {
    CompareText(ConstraintSortKey(a), ConstraintSortKey(b)) == Less
  }

  predicate ImplicationLess(a: Implication, b: Implication) {
    if a.side != b.side then SideIndex(a.side) < SideIndex(b.side)
    else if a.ifPresent != b.ifPresent then CompareText(a.ifPresent, b.ifPresent) == Less
    else CompareText(a.thenRequired, b.thenRequired) == Less
  }

  lemma ConstraintLessIsWeak()
    ensures StrictWeakOrder(ConstraintLess)
  {
    CompareTextIsTotal();
    hide ConstraintSortKey;
    forall a: Constraint, b: Constraint, c: Constraint | ConstraintLess(a, b)
      ensures ConstraintLess(a, c) || ConstraintLess(c, b)
    {
      var x, y, z := ConstraintSortKey(a), ConstraintSortKey(b), ConstraintSortKey(c);
      assert Composes(CompareText(x, z), CompareText(z, y), CompareText(x, y));
    }
  }

  lemma ImplicationLessIsTotal()
    ensures StrictWeakOrder(ImplicationLess)
    ensures forall a, b :: !ImplicationLess(a, b) && !ImplicationLess(b, a) ==> a == b
  {
    CompareTextIsTotal();
    forall a: Implication, b: Implication, c: Implication | ImplicationLess(a, b)
      ensures ImplicationLess(a, c) || ImplicationLess(c, b)
    {
      assert Composes(CompareText(a.ifPresent, c.ifPresent), CompareText(c.ifPresent, b.ifPresent), CompareText(a.ifPresent, b.ifPresent));
      assert Composes(CompareText(a.thenRequired, c.thenRequired), CompareText(c.thenRequired, b.thenRequired),
                      CompareText(a.thenRequired, b.thenRequired));
    }
  }

  /** Well-formed constraints whose literals have the declared types. */
  ghost predicate TypedRule(t: Taxonomy, r: Rule) {
    forall c :: c in r.constraints ==> WellFormed(c) && TypedBy(t, c)
  }

  lemma KeysDistinguish(t: Taxonomy, cs: seq<Constraint>)
    requires forall c :: c in cs ==> WellFormed(c) && TypedBy(t, c)
    ensures Distinguishes(ConstraintLess, cs)
  {
    CompareTextIsTotal();
    hide WellFormed, TypedBy, ConstraintSortKey;
    forall a, b | a in cs && b in cs && !ConstraintLess(a, b) && !ConstraintLess(b, a) ensures a == b {
      KeyInjective(t, a, b);
    }
  }

  // ----- Normal form of a rule -----

  function NormalizeRule(r: Rule): Rule {
    r.(constraints := Sort(ConstraintLess, r.constraints), implications := Sort(ImplicationLess, r.implications))
  }

  /** The same rule with its constraints and implications in another order. */
  ghost predicate SameRule(a: Rule, b: Rule) {
    && b == a.(constraints := b.constraints, implications := b.implications)
    && multiset(a.constraints) == multiset(b.constraints)
    && multiset(a.implications) == multiset(b.implications)
  }

  lemma NormalizeRuleKeepsRule(r: Rule)
    ensures SameRule(r, NormalizeRule(r))
  {
    SortKeeps(ConstraintLess, r.constraints);
    SortKeeps(ImplicationLess, r.implications);
  }

  lemma NormalizeRuleForgetsOrder(t: Taxonomy, a: Rule, b: Rule)
    requires SameRule(a, b) && TypedRule(t, a)
    ensures NormalizeRule(a) == NormalizeRule(b)
  {
    ConstraintLessIsWeak();
    ImplicationLessIsTotal();
    KeysDistinguish(t, a.constraints);
    SortForgetsOrder(ConstraintLess, a.constraints, b.constraints);
    SortForgetsOrder(ImplicationLess, a.implications, b.implications);
  }

  lemma NormalizeRuleIsIdempotent(r: Rule)
    ensures NormalizeRule(NormalizeRule(r)) == NormalizeRule(r)
  {
    ConstraintLessIsWeak();
    ImplicationLessIsTotal();
    SortSorts(ConstraintLess, r.constraints);
    SortSorts(ImplicationLess, r.implications);
    SortKeepsSorted(ConstraintLess, Sort(ConstraintLess, r.constraints));
    SortKeepsSorted(ImplicationLess, Sort(ImplicationLess, r.implications));
  }

  // ----- Documents -----

  /** `Meta` is everything outside taxonomy and rules. */
  datatype Document<Meta> = Document(meta: Meta, taxonomy: Taxonomy, rules: seq<Rule>)

  function NormalizeRules(rules: seq<Rule>): (normal: seq<Rule>)
    ensures |normal| == |rules|
  {
    if rules == [] then [] else [NormalizeRule(rules[0])] + NormalizeRules(rules[1..])
  }

  function Normalize<Meta>(d: Document<Meta>): Document<Meta> {
    d.(rules := Sort(DocumentBefore, NormalizeRules(d.rules)))
  }

  /** Rule by rule in place, then the sort. */
  method NormalizeDocument<Meta>(d: Document<Meta>) returns (normal: Document<Meta>)
    ensures normal == Normalize(d)
  {
    hide NormalizeRule;
    var rules := d.rules;
    NormalizedAt(d.rules);
    for i := 0 to |rules|
      invariant |rules| == |d.rules|
      invariant forall k :: 0 <= k < i ==> rules[k] == NormalizeRule(d.rules[k])
      invariant forall k :: i <= k < |rules| ==> rules[k] == d.rules[k]
    {
      rules := rules[i := NormalizeRule(rules[i])];
    }
    assert rules == NormalizeRules(d.rules);
    return d.(rules := Sort(DocumentBefore, rules));
  }

  lemma {:induction false} NormalizedAt(rules: seq<Rule>)
    ensures forall i :: 0 <= i < |rules| ==> NormalizeRules(rules)[i] == NormalizeRule(rules[i])
  {
    hide NormalizeRule;
    if rules != [] { NormalizedAt(rules[1..]); }
  }

  ghost predicate DistinctIds(rules: seq<Rule>) {
    forall i, j :: 0 <= i < j < |rules| ==> rules[i].id != rules[j].id
  }

  lemma DistinctIdsDistinguish(rules: seq<Rule>)
    requires DistinctIds(rules)
    ensures Distinguishes(DocumentBefore, rules) && Distinguishes(PrecedenceHigher, rules)
  {
    CompareTextIsTotal();
    PrecedenceHigherIsStrictTotal();
    forall a, b | a in rules && b in rules && a.id == b.id ensures a == b {
    }
  }

  lemma NormalizeRulesKeepsIds(rules: seq<Rule>)
    requires DistinctIds(rules)
    ensures DistinctIds(NormalizeRules(rules))
  {
    NormalizedAt(rules);
  }

  function Without<T>(s: seq<T>, k: nat): (rest: seq<T>)
    requires k < |s|
    ensures |rest| == |s| - 1
  {
    s[..k] + s[k + 1..]
  }

  lemma WithoutAt<T>(s: seq<T>, k: nat, i: nat)
    requires k < |s| && i < |s| - 1
    ensures Without(s, k)[i] == if i < k then s[i] else s[i + 1]
  {
    if i >= k { assert Without(s, k)[i] == s[k + 1..][i - k]; }
  }

  lemma MappedWithout<T, U>(f: T -> U, a: seq<T>, b: seq<U>, c: seq<U>, k: nat)
    requires k < |a| == |b| && |c| == |a| - 1
    requires forall i :: 0 <= i < |b| ==> b[i] == f(a[i])
    requires forall i :: 0 <= i < |c| ==> c[i] == f(Without(a, k)[i])
    ensures c == Without(b, k)
  {
    hide Without;
    forall i | 0 <= i < |c| ensures c[i] == Without(b, k)[i] {
      WithoutAt(a, k, i);
      WithoutAt(b, k, i);
    }
  }

  lemma WithoutOne<T>(s: seq<T>, k: nat)
    requires k < |s|
    ensures multiset(Without(s, k)) == multiset(s) - multiset{s[k]}
    ensures multiset(s) == multiset{s[k]} + multiset(Without(s, k))
  {
    assert s == s[..k] + ([s[k]] + s[k + 1..]);
  }

  lemma NormalizeRulesWithout(rules: seq<Rule>, k: nat)
    requires k < |rules|
    ensures NormalizeRules(Without(rules, k)) == Without(NormalizeRules(rules), k)
  {
    hide NormalizeRule, NormalizeRules, Without;
    NormalizedAt(rules);
    NormalizedAt(Without(rules, k));
    MappedWithout(NormalizeRule, rules, NormalizeRules(rules), NormalizeRules(Without(rules, k)), k);
  }

  lemma {:induction false} NormalizeRulesOfPermutation(a: seq<Rule>, b: seq<Rule>)
    requires multiset(a) == multiset(b)
    ensures multiset(NormalizeRules(a)) == multiset(NormalizeRules(b))
    decreases |a|
  {
    hide NormalizeRule, NormalizeRules, Without;
    if a == [] {
      assert |multiset(b)| == 0;
      assert b == a;
    } else {
      assert a[0] in multiset(b);
      var k :| 0 <= k < |b| && b[k] == a[0];
      WithoutOne(a, 0);
      WithoutOne(b, k);
      NormalizeRulesOfPermutation(Without(a, 0), Without(b, k));
      NormalizeRulesWithout(a, 0);
      NormalizeRulesWithout(b, k);
      WithoutOne(NormalizeRules(a), 0);
      WithoutOne(NormalizeRules(b), k);
      NormalizedAt(a);
      NormalizedAt(b);
    }
  }

  /** The same document with rules, constraints and implications in any other order. */
  ghost predicate Rearranged<Meta>(d: Document<Meta>, e: Document<Meta>, mid: seq<Rule>) {
    && e.meta == d.meta && e.taxonomy == d.taxonomy
    && |mid| == |d.rules| && (forall i :: 0 <= i < |mid| ==> SameRule(d.rules[i], mid[i]))
    && multiset(mid) == multiset(e.rules)
  }

  ghost predicate TypedDocument<Meta>(d: Document<Meta>) {
    forall r :: r in d.rules ==> TypedRule(d.taxonomy, r)
  }

  /** Distinct ids and typed literals: the normal form does not depend on any order. */
  lemma NormalFormForgetsOrder<Meta>(d: Document<Meta>, e: Document<Meta>, mid: seq<Rule>)
    requires Rearranged(d, e, mid) && DistinctIds(d.rules) && TypedDocument(d)
    ensures Normalize(d) == Normalize(e)
  {
    NormalizedAt(d.rules);
    NormalizedAt(mid);
    forall i | 0 <= i < |mid| ensures NormalizeRule(d.rules[i]) == NormalizeRule(mid[i]) {
      NormalizeRuleForgetsOrder(d.taxonomy, d.rules[i], mid[i]);
    }
    hide NormalizeRule, SameRule;
    assert NormalizeRules(d.rules) == NormalizeRules(mid);
    NormalizeRulesOfPermutation(mid, e.rules);
    NormalizeRulesKeepsIds(d.rules);
    DistinctIdsDistinguish(NormalizeRules(d.rules));
    DocumentBeforeIsWeak();
    SortForgetsOrder(DocumentBefore, NormalizeRules(d.rules), NormalizeRules(e.rules));
  }

  lemma {:induction false} NormalRulesStay(rules: seq<Rule>)
    requires forall r :: r in rules ==> NormalizeRule(r) == r
    ensures NormalizeRules(rules) == rules
  {
    hide NormalizeRule;
    if rules != [] { NormalRulesStay(rules[1..]); }
  }

  /** Normalizing twice is normalizing once. */
  lemma NormalizeIsIdempotent<Meta>(d: Document<Meta>)
    ensures Normalize(Normalize(d)) == Normalize(d)
  {
    var mapped := NormalizeRules(d.rules);
    var normal := Sort(DocumentBefore, mapped);
    NormalizedAt(d.rules);
    SortMembers(DocumentBefore, mapped);
    forall r | r in normal ensures NormalizeRule(r) == r {
      assert r in mapped;
      var k :| 0 <= k < |mapped| && mapped[k] == r;
      NormalizeRuleIsIdempotent(d.rules[k]);
    }
    hide NormalizeRule;
    NormalRulesStay(normal);
    DocumentBeforeIsWeak();
    SortSorts(DocumentBefore, mapped);
    SortKeepsSorted(DocumentBefore, normal);
  }

  // ----- Building a document -----

  lemma MembersOfPermutation(a: seq<Rule>, b: seq<Rule>)
    requires multiset(a) == multiset(b)
    ensures forall r :: r in a <==> r in b
    ensures a == [] <==> b == []
  {
    forall r ensures r in a <==> r in b {
      assert r in a <==> r in multiset(a);
      assert r in b <==> r in multiset(b);
    }
    assert |multiset(a)| == |a| && |multiset(b)| == |b|;
  }

  class DocumentBuilder<Meta> {
    const meta: Meta
    var taxonomy: Taxonomy
    var rules: seq<Rule>

    ghost predicate Valid()
      reads this
    {
      DistinctIds(rules) && forall r :: r in rules ==> NormalizeRule(r) == r
    }

    constructor (meta: Meta, taxonomy: Taxonomy)
      ensures Valid() && this.meta == meta && this.taxonomy == taxonomy && rules == []
    {
      this.meta, this.taxonomy, rules := meta, taxonomy, [];
    }

    /** A second rule with the same id is refused and changes nothing. */
    method AddRule(rule: Rule) returns (ok: bool)
      requires Valid()
      modifies this`rules
      ensures Valid()
      ensures ok == forall r :: r in old(rules) ==> r.id != rule.id
      ensures rules == if ok then old(rules) + [NormalizeRule(rule)] else old(rules)
    {
      for i := 0 to |rules|
        invariant rules == old(rules)
        invariant forall k :: 0 <= k < i ==> rules[k].id != rule.id
      {
        if rules[i].id == rule.id { return false; }
      }
      NormalizeRuleIsIdempotent(rule);
      ghost var normal := NormalizeRule(rule);
      assert normal.id == rule.id;
      rules := rules + [NormalizeRule(rule)];
      return true;
    }

    method HasRule(id: string) returns (found: bool)
      ensures found == exists r :: r in rules && r.id == id
    {
      for i := 0 to |rules|
        invariant forall k :: 0 <= k < i ==> rules[k].id != id
      {
        if rules[i].id == id { return true; }
      }
      return false;
    }

    method Build() returns (d: Document<Meta>)
      requires Valid()
      ensures d == Normalize(Document(meta, taxonomy, rules)) && DistinctIds(d.rules)
      ensures multiset(d.rules) == multiset(rules)
    {
      var draft := Document(meta, taxonomy, rules);
      d := NormalizeDocument(draft);
      BuiltRules(draft);
    }
  }

  lemma BuiltRules<Meta>(d: Document<Meta>)
    requires DistinctIds(d.rules) && forall r :: r in d.rules ==> NormalizeRule(r) == r
    ensures DistinctIds(Normalize(d).rules) && multiset(Normalize(d).rules) == multiset(d.rules)
  {
    NormalRulesStay(d.rules);
    SortKeeps(DocumentBefore, d.rules);
    PermutedIdsDistinct(Normalize(d).rules, d.rules);
  }

  lemma {:induction false} OccursOnce(rules: seq<Rule>, r: Rule)
    requires DistinctIds(rules)
    ensures multiset(rules)[r] <= 1
  {
    if rules != [] {
      var n := |rules| - 1;
      OccursOnce(rules[..n], r);
      assert rules == rules[..n] + [rules[n]];
      if rules[n] == r { assert r !in rules[..n]; }
    }
  }

  lemma OccursTwice(rules: seq<Rule>, i: nat, j: nat)
    requires i < j < |rules| && rules[i] == rules[j]
    ensures multiset(rules)[rules[i]] >= 2
  {
    assert rules == rules[..j] + rules[j..];
    assert rules[i] in rules[..j] && rules[j] in rules[j..];
  }

  lemma PermutedIdsDistinct(a: seq<Rule>, b: seq<Rule>)
    requires multiset(a) == multiset(b) && DistinctIds(b)
    ensures DistinctIds(a)
  {
    MembersOfPermutation(a, b);
    forall i, j | 0 <= i < j < |a| ensures a[i].id != a[j].id {
      if a[i].id == a[j].id {
        assert a[i] in b && a[j] in b;
        OccursTwice(a, i, j);
        OccursOnce(b, a[i]);
        assert false;
      }
    }
  }
}
