/** Compiling a document: normalize, validate, list the active rules (src/registry.cpp, src/validation.cpp). */
module Compile {
  import opened Rules
  import opened Engine
  import opened Validation
  import opened Canonical
  import opened Cycles
  import Sorting

  const MAX_RULES: nat := 65536

  datatype Options = Options(validation: ValidationOptions, analyzeCycles: bool, maxReportedCycles: nat)

  predicate SharesId(rules: seq<Rule>, i: nat)
    requires i < |rules|
  {
    exists k :: 0 <= k < i && rules[k].id == rules[i].id
  }

  function DuplicateFindings(rules: seq<Rule>, n: nat): seq<Diagnostic>
    requires n <= |rules|
  {
    if n == 0 then []
    else DuplicateFindings(rules, n - 1)
         + if SharesId(rules, n - 1) then [Diagnostic(Error, DuplicateRuleIdentity, Some(n - 1))] else []
  }

  /** Every id is looked up among the ids seen before it. */
  method DuplicatePass(rules: seq<Rule>) returns (findings: seq<Diagnostic>)
    ensures findings == DuplicateFindings(rules, |rules|)
  {
    findings := [];
    var seen: map<string, nat> := map[];
    for i := 0 to |rules|
      invariant forall id :: id in seen <==> exists k :: 0 <= k < i && rules[k].id == id
      invariant findings == DuplicateFindings(rules, i)
    {
      if rules[i].id in seen {
        findings := findings + [Diagnostic(Error, DuplicateRuleIdentity, Some(i))];
      } else {
        assert forall id :: id in seen[rules[i].id := i] <==> id in seen || id == rules[i].id;
        seen := seen[rules[i].id := i];
      }
    }
  }

  lemma {:induction false} DuplicatesAreReported(rules: seq<Rule>, n: nat)
    requires n <= |rules|
    ensures DuplicateFindings(rules, n) == [] <==> DistinctIds(rules[..n])
    ensures forall d :: d in DuplicateFindings(rules, n) ==> d.severity == Error
  {
    if n > 0 {
      DuplicatesAreReported(rules, n - 1);
      if DistinctIds(rules[..n]) {
        assert DistinctIds(rules[..n - 1]) by {
          assert forall i :: 0 <= i < n - 1 ==> rules[..n - 1][i] == rules[..n][i];
        }
        assert forall k :: 0 <= k < n - 1 ==> rules[..n][k].id != rules[..n][n - 1].id;
      } else if DistinctIds(rules[..n - 1]) {
        var i, j :| 0 <= i < j < n && rules[..n][i].id == rules[..n][j].id;
        assert j == n - 1 by {
          assert forall k :: 0 <= k < n - 1 ==> rules[..n - 1][k] == rules[..n][k];
        }
      }
    }
  }

  ghost predicate NoErrors(ds: seq<Diagnostic>) {
    forall d :: d in ds ==> d.severity != Error
  }

  ghost predicate NoDeadRule(rules: seq<Rule>, o: ValidationOptions) {
    o.analyzeReachability && |rules| <= 2048 ==> forall i :: 0 <= i < |rules| ==> ReachOf(rules, i, o) != Dead
  }

  /** What publishing promises about the rules; `others` are the findings of the checks left out here. */
  ghost predicate Clean(rules: seq<Rule>, others: seq<Diagnostic>, options: Options) {
    && NoErrors(others)
    && |rules| <= 65536
    && DistinctIds(rules)
    && NoConflicts(rules)
    && NoDeadRule(rules, options.validation)
  }

  /** The depth limit and the report limit let the cycle search be complete. */
  ghost predicate CyclesFit(rules: seq<Rule>, options: Options) {
    options.maxReportedCycles > 0 && |ImplicationNodes(rules)| <= 257
  }

  lemma OneReachError(reach: Reach, index: nat)
    ensures NoErrors(ReachFinding(reach, index)) <==> reach != Dead
  {
    if reach == Dead { assert ReachFinding(reach, index)[0] in ReachFinding(reach, index); }
  }

  lemma {:induction false} ReachErrors(reaches: seq<Reach>)
    ensures NoErrors(ReachFindings(reaches)) <==> forall r :: r in reaches ==> r != Dead
  {
    if reaches == [] {
      NothingFound();
    } else {
      var n := |reaches| - 1;
      ReachErrors(reaches[..n]);
      assert reaches == reaches[..n] + [reaches[n]];
      assert reaches[n] in reaches;
      OneReachError(reaches[n], n);
      ErrorsAddUp(ReachFindings(reaches[..n]), ReachFinding(reaches[n], n));
      hide NoErrors, ReachFinding;
      assert ReachFindings(reaches) == ReachFindings(reaches[..n]) + ReachFinding(reaches[n], n);
      assert forall r :: r in reaches <==> r in reaches[..n] || r == reaches[n];
    }
  }

  lemma DeadRulesAreErrors(rules: seq<Rule>, o: ValidationOptions)
    ensures NoErrors(ReachFindings(Reaches(rules, o))) <==> forall i :: 0 <= i < |rules| ==> ReachOf(rules, i, o) != Dead
  {
    hide ReachOf, ReachFindings;
    var reaches := Reaches(rules, o);
    ReachErrors(reaches);
    if forall r :: r in reaches ==> r != Dead {
      assert forall i :: 0 <= i < |rules| ==> reaches[i] == ReachOf(rules, i, o) && reaches[i] in reaches;
    }
  }

  method CycleFindings(rules: seq<Rule>, options: Options) returns (findings: seq<Diagnostic>)
    ensures !NoErrors(findings) ==> options.analyzeCycles && HasImplicationCycle(rules)
    ensures CyclesFit(rules, options) && options.analyzeCycles && HasImplicationCycle(rules) ==> !NoErrors(findings)
  {
    findings := [];
    if !options.analyzeCycles { return; }
    var cycles, capped := CyclePass(rules, options.maxReportedCycles);
    findings := seq(|cycles|, i => Diagnostic(Error, DiagnosticCode.ImplicationCycle, None));
    if cycles != [] {
      assert Cycles.ImplicationCycle(rules, cycles[0]);
      assert findings[0].severity == Error && findings[0] in findings;
    }
    ghost var errors := findings;
    if capped { findings := findings + [Diagnostic(Info, ReachabilityAnalysisSkipped, None)]; }
    assert forall d :: d in errors ==> d in findings;
  }

  lemma ErrorsAddUp(a: seq<Diagnostic>, b: seq<Diagnostic>)
    ensures NoErrors(a + b) <==> NoErrors(a) && NoErrors(b)
  {
    assert forall d :: d in a + b <==> d in a || d in b;
  }

  method CountFindings(rules: seq<Rule>) returns (findings: seq<Diagnostic>)
    ensures NoErrors(findings) <==> |rules| <= 65536
  {
    findings := [];
    if |rules| > MAX_RULES {
      findings := [Diagnostic(Error, RuleCountLimit, None)];
      assert findings[0] in findings;
    }
  }

  method ReachPass(rules: seq<Rule>, o: ValidationOptions) returns (findings: seq<Diagnostic>, exhaustive: bool)
    ensures NoErrors(findings) <==> NoDeadRule(rules, o)
    ensures exhaustive && o.analyzeReachability ==> |rules| <= MAX_REACHABILITY_RULES && forall r :: r in Reaches(rules, o) ==> !GaveUp(r)
  {
    hide ReachOf, ReachFindings;
    findings, exhaustive := ReachabilityPass(rules, o);
    DeadRulesAreErrors(rules, o);
  }

  method DuplicateErrors(rules: seq<Rule>) returns (findings: seq<Diagnostic>)
    ensures NoErrors(findings) <==> DistinctIds(rules)
  {
    findings := DuplicatePass(rules);
    DuplicatesAreReported(rules, |rules|);
    assert rules[..|rules|] == rules;
    if findings != [] { assert findings[0] in findings; }
  }

  method ConflictErrors(rules: seq<Rule>) returns (findings: seq<Diagnostic>)
    ensures NoErrors(findings) <==> NoConflicts(rules)
  {
    hide NoConflicts;
    findings := ConflictPass(rules);
    if findings != [] { assert findings[0] in findings; }
  }

  /**
   * The report over all passes. Publishable means clean; clean and without an implication
   * cycle means publishable; and where the cycle search is complete the two coincide.
   */
  method ValidateRegistryDocument(rules: seq<Rule>, others: seq<Diagnostic>, options: Options) returns (report: ValidationReport)
    ensures fresh(report) && report.Valid()
    ensures NoErrors(report.diagnostics) ==> Clean(rules, others, options)
    ensures Clean(rules, others, options) && (options.analyzeCycles ==> !HasImplicationCycle(rules)) ==> NoErrors(report.diagnostics)
    ensures CyclesFit(rules, options) && NoErrors(report.diagnostics) && options.analyzeCycles ==> !HasImplicationCycle(rules)
  {
    hide DistinctIds, NoConflicts, NoDeadRule, NoErrors, CyclesFit, HasImplicationCycle;
    report := new ValidationReport();
    var count := CountFindings(rules);
    var duplicates := DuplicateErrors(rules);
    var conflicts := ConflictErrors(rules);
    var dead, exhaustive := ReachPass(rules, options.validation);
    var cycles := CycleFindings(rules, options);
    report.AddAll(count);
    report.AddAll(duplicates);
    report.AddAll(others);
    report.AddAll(conflicts);
    report.AddAll(dead);
    report.reachabilityExhaustive := exhaustive;
    report.AddAll(cycles);
    NothingFound();
    ErrorsAddUp([], count);
    ErrorsAddUp([] + count, duplicates);
    ErrorsAddUp([] + count + duplicates, others);
    ErrorsAddUp([] + count + duplicates + others, conflicts);
    ErrorsAddUp([] + count + duplicates + others + conflicts, dead);
    ErrorsAddUp([] + count + duplicates + others + conflicts + dead, cycles);
  }

  lemma NothingFound()
    ensures NoErrors([])
  {
  }

  // ----- Active lists -----

  function Picked(rules: seq<Rule>, indices: seq<nat>): seq<Rule>
    requires Indexes(rules, indices)
  {
    seq(|indices|, k requires 0 <= k < |indices| => rules[indices[k]])
  }

  predicate Indexes(rules: seq<Rule>, indices: seq<nat>) {
    forall k :: 0 <= k < |indices| ==> indices[k] < |rules|
  }

  lemma PickOne(rules: seq<Rule>, indices: seq<nat>, i: nat)
    requires i < |rules| && Indexes(rules, indices)
    ensures Indexes(rules, indices + [i]) && Picked(rules, indices + [i]) == Picked(rules, indices) + [rules[i]]
  {
  }

  lemma ActiveStep(rules: seq<Rule>, i: nat, arity: RuleArity)
    requires i < |rules|
    ensures ActiveOf(rules[..i + 1], arity) ==
      ActiveOf(rules[..i], arity) + if rules[i].state == Active && rules[i].arity == arity then [rules[i]] else []
  {
    assert rules[..i + 1][..i] == rules[..i];
  }

  method ListActive(rules: seq<Rule>) returns (pairs: seq<nat>, sets: seq<nat>)
    ensures Indexes(rules, pairs) && Indexes(rules, sets)
    ensures Picked(rules, pairs) == ActiveOf(rules, Pair) && Picked(rules, sets) == ActiveOf(rules, Set)
  {
    pairs, sets := [], [];
    assert Picked(rules, []) == ActiveOf(rules[..0], Pair) == ActiveOf(rules[..0], Set) == [];
    hide Picked, ActiveOf, Indexes;
    for i := 0 to |rules|
      invariant Indexes(rules, pairs) && Indexes(rules, sets)
      invariant Picked(rules, pairs) == ActiveOf(rules[..i], Pair)
      invariant Picked(rules, sets) == ActiveOf(rules[..i], Set)
    {
      ActiveStep(rules, i, Pair);
      ActiveStep(rules, i, Set);
      if rules[i].state == Active {
        if rules[i].arity == Set {
          PickOne(rules, sets, i);
          sets := sets + [i];
        } else {
          PickOne(rules, pairs, i);
          pairs := pairs + [i];
        }
      }
    }
    assert rules[..|rules|] == rules;
  }

  // ----- Compile -----

  datatype CompileResult<Meta> =
    | ValidationFailed
    | Compiled(document: Document<Meta>, activePairRules: seq<nat>, activeSetRules: seq<nat>)

  /** Rules of one tier that match one pair declare one outcome. */
  ghost predicate TiersAgree(rules: seq<Rule>) {
    forall a, b, left, right ::
      a in rules && b in rules && a.arity == Pair && b.arity == Pair && RuleTier(a) == RuleTier(b)
      && RuleMatches(a, left, right) && RuleMatches(b, left, right)
      ==> a.outcome == b.outcome
  }

  lemma NoConflictsMeansAgreement(rules: seq<Rule>)
    requires NoConflicts(rules) && AllCanonical(rules)
    ensures TiersAgree(rules)
  {
    hide RuleTier, RuleMatches, NoConflicts, AllCanonical;
    forall a, b, left, right |
      a in rules && b in rules && a.arity == Pair && b.arity == Pair && RuleTier(a) == RuleTier(b)
      && RuleMatches(a, left, right) && RuleMatches(b, left, right)
      ensures a.outcome == b.outcome
    {
      TierAgreement(rules, a, b, left, right);
    }
  }

  lemma NormalizeKeepsCanonical<Meta>(d: Document<Meta>)
    requires AllCanonical(d.rules)
    ensures AllCanonical(Normalize(d).rules)
  {
    var mapped := NormalizeRules(d.rules);
    NormalizedAt(d.rules);
    Sorting.SortMembers(DocumentBefore, mapped);
    hide NormalizeRules, DocumentBefore;
    forall r | r in Normalize(d).rules ensures RuleCanonical(r) {
      assert r in mapped;
      var k :| 0 <= k < |mapped| && mapped[k] == r;
      assert d.rules[k] in d.rules;
    }
  }

  /**
   * A compiled generation holds the normal form and the exact lists of active rules; its ids
   * are distinct, its tiers agree, and no rule in it was found dead.
   */
  method CompileDocument<Meta>(d: Document<Meta>, others: Document<Meta> -> seq<Diagnostic>, options: Options)
    returns (r: CompileResult<Meta>)
    ensures r.Compiled? ==> r.document == Normalize(d) && Clean(r.document.rules, others(r.document), options)
    ensures r.Compiled? && AllCanonical(d.rules) ==> TiersAgree(r.document.rules)
    ensures r.Compiled? ==>
              && Indexes(r.document.rules, r.activePairRules) && Indexes(r.document.rules, r.activeSetRules)
              && Picked(r.document.rules, r.activePairRules) == ActiveOf(r.document.rules, Pair)
              && Picked(r.document.rules, r.activeSetRules) == ActiveOf(r.document.rules, Set)
    ensures CyclesFit(Normalize(d).rules, options) ==>
              (r.Compiled? <==> Clean(Normalize(d).rules, others(Normalize(d)), options)
                                && (options.analyzeCycles ==> !HasImplicationCycle(Normalize(d).rules)))
  {
    hide Normalize, NoErrors, CyclesFit, HasImplicationCycle, TiersAgree, NoConflicts, NoDeadRule, DistinctIds, AllCanonical, ActiveOf;
    var normal := NormalizeDocument(d);
    var report := ValidateRegistryDocument(normal.rules, others(normal), options);
    var ok := report.Publishable();
    PublishableMeansNoErrors(report.diagnostics);
    if !ok { return ValidationFailed; }
    if AllCanonical(d.rules) {
      NormalizeKeepsCanonical(d);
      NoConflictsMeansAgreement(normal.rules);
    }
    var pairs, sets := ListActive(normal.rules);
    return Compiled(normal, pairs, sets);
  }

  lemma PublishableMeansNoErrors(ds: seq<Diagnostic>)
    ensures NoErrors(ds) <==> forall i :: 0 <= i < |ds| ==> ds[i].severity != Error
  {
    if NoErrors(ds) {
      assert forall i :: 0 <= i < |ds| ==> ds[i] in ds;
    }
  }
}
