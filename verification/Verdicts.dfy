/** What each verdict of the reachability analysis means, and that none depends on the order of rules (src/validation.cpp). */
module Verdicts {
  import opened Order
  import opened SemVer
  import opened Sorting
  import opened Intervals
  import opened Rules
  import opened Coverage
  import opened Gaps
  import opened Validation
  import opened Reachability
  import VersionRange

  // ----- Who shadows whom -----

  lemma NothingShadowsItself(r: Rule)
    ensures !Shadows(r, r)
  {
  }

  /** The rules that shadow a target, wherever they stand. */
  ghost function ShadowPositions(rules: seq<Rule>, target: Rule, n: nat): set<int>
    requires n <= |rules|
  {
    set k | 0 <= k < n && Shadows(rules[k], target)
  }

  lemma {:induction false} ShadowersAreCounted(rules: seq<Rule>, index: nat, n: nat)
    requires index < |rules| && n <= |rules|
    ensures |ShadowersUpTo(rules, index, n)| == |ShadowPositions(rules, rules[index], n)|
  {
    hide Shadows;
    NothingShadowsItself(rules[index]);
    if n == 0 {
      assert ShadowPositions(rules, rules[index], 0) == {};
    } else {
      ShadowersAreCounted(rules, index, n - 1);
      var before, now := ShadowPositions(rules, rules[index], n - 1), ShadowPositions(rules, rules[index], n);
      assert now == if Shadows(rules[n - 1], rules[index]) then before + {n - 1} else before;
    }
  }

  lemma {:induction false} ShadowersAreAll(rules: seq<Rule>, index: nat, n: nat, s: Rule)
    requires index < |rules| && n <= |rules|
    ensures multiset(ShadowersUpTo(rules, index, n))[s] == if Shadows(s, rules[index]) then multiset(rules[..n])[s] else 0
  {
    hide Shadows;
    if n == 0 {
      assert rules[..0] == [];
    } else {
      hide ShadowersUpTo;
      ShadowersAreAll(rules, index, n - 1, s);
      ShadowersStep(rules, index, n);
      assert rules[..n] == rules[..n - 1] + [rules[n - 1]];
      CountStep(ShadowersUpTo(rules, index, n - 1), rules[..n - 1], rules[n - 1], s,
                Shadows(rules[n - 1], rules[index]), Shadows(s, rules[index]));
    }
  }

  lemma ShadowersStep(rules: seq<Rule>, index: nat, n: nat)
    requires index < |rules| && 0 < n <= |rules|
    ensures ShadowersUpTo(rules, index, n) ==
      ShadowersUpTo(rules, index, n - 1) + if Shadows(rules[n - 1], rules[index]) then [rules[n - 1]] else []
  {
    hide Shadows;
    NothingShadowsItself(rules[index]);
  }

  lemma CountStep<T>(taken: seq<T>, all: seq<T>, x: T, s: T, takesX: bool, takesS: bool)
    requires multiset(taken)[s] == if takesS then multiset(all)[s] else 0
    requires x == s ==> takesX == takesS
    ensures multiset(taken + if takesX then [x] else [])[s] == if takesS then multiset(all + [x])[s] else 0
  {
    if !takesX { assert taken + [] == taken; }
  }

  /** The shadowers a rule is compared with are exactly the rules that shadow it, before it and after it. */
  lemma ShadowersMembersIff(rules: seq<Rule>, index: nat)
    requires index < |rules|
    ensures forall s :: s in ShadowersOf(rules, index) <==> s in rules && Shadows(s, rules[index])
  {
    hide Shadows, ShadowersUpTo;
    assert rules[..|rules|] == rules;
    forall s ensures s in ShadowersOf(rules, index) <==> s in rules && Shadows(s, rules[index]) {
      ShadowersAreAll(rules, index, |rules|, s);
      assert s in ShadowersOf(rules, index) <==> multiset(ShadowersOf(rules, index))[s] > 0;
      assert s in rules <==> multiset(rules)[s] > 0;
    }
  }

  // ----- The verdicts -----

  /** A rule is passed over exactly when it is inactive or no rule shadows it, or no candidate may be looked at. */
  lemma NotShadowedIff(rules: seq<Rule>, index: nat, options: ValidationOptions)
    requires index < |rules|
    ensures ReachOf(rules, index, options) == NotShadowed <==>
            rules[index].state != Active || options.maxReachabilityCandidates == 0
            || forall s :: s in rules ==> !Shadows(s, rules[index])
  {
    hide Shadows, ShadowersUpTo, RegionCovered;
    ShadowersMembersIff(rules, index);
    var over := ShadowersOf(rules, index);
    if over != [] { assert over[0] in over; }
  }

  /** It is skipped exactly when it is shadowed by more rules than may be looked at. */
  lemma OverBudgetIff(rules: seq<Rule>, index: nat, options: ValidationOptions)
    requires index < |rules|
    ensures ReachOf(rules, index, options) == OverBudget <==>
            rules[index].state == Active
            && 0 < options.maxReachabilityCandidates < |ShadowPositions(rules, rules[index], |rules|)|
  {
    hide Shadows, ShadowersUpTo, RegionCovered, ShadowPositions;
    ShadowersAreCounted(rules, index, |rules|);
  }

  /** The grid of one oriented box. */
  function XsOf(target: Rule, over: seq<Rule>, box: RuleBox): seq<Coord> {
    Grid(Lefts(PlaneOf(box), CandidatesFor(over, target, box)))
  }

  function YsOf(target: Rule, over: seq<Rule>, box: RuleBox): seq<Coord> {
    Grid(Rights(PlaneOf(box), CandidatesFor(over, target, box)))
  }

  predicate GridFits(target: Rule, over: seq<Rule>, box: RuleBox, maxCells: nat) {
    (|XsOf(target, over, box)| - 1) * (|YsOf(target, over, box)| - 1) <= maxCells
  }

  /** Some shadower around the box has the whole cell. */
  ghost predicate CellIsShadowed(rules: seq<Rule>, target: Rule, box: RuleBox, xs: seq<Coord>, ys: seq<Coord>, i: nat, j: nat)
    requires i + 1 < |xs| && j + 1 < |ys|
  {
    exists s, b :: s in rules && Shadows(s, target) && HasCellAround(s, b, target, box, xs, ys, i, j)
  }

  predicate HasCellAround(s: Rule, b: RuleBox, target: Rule, box: RuleBox, xs: seq<Coord>, ys: seq<Coord>, i: nat, j: nat)
    requires i + 1 < |xs| && j + 1 < |ys|
  {
    && b in RuleOrientations(s) && BoxSubsumesModuloVersion(b, box, target.arity == Pair)
    && CellInside(PlaneOf(b), xs, ys, i, j)
  }

  /** Every open cell of the box is shadowed. */
  ghost predicate BoxIsShadowed(rules: seq<Rule>, target: Rule, box: RuleBox, xs: seq<Coord>, ys: seq<Coord>) {
    forall i, j :: 0 <= i < |xs| - 1 && 0 <= j < |ys| - 1 && CellInside(PlaneOf(box), xs, ys, i, j) ==>
      CellIsShadowed(rules, target, box, xs, ys, i, j)
  }

  lemma CellShadowedIff(rules: seq<Rule>, index: nat, box: RuleBox, xs: seq<Coord>, ys: seq<Coord>, i: nat, j: nat)
    requires index < |rules| && i + 1 < |xs| && j + 1 < |ys|
    ensures CellCovered(CandidatesFor(ShadowersOf(rules, index), rules[index], box), xs, ys, i, j)
            <==> CellIsShadowed(rules, rules[index], box, xs, ys, i, j)
  {
    var target, over := rules[index], ShadowersOf(rules, index);
    var candidates, pair := CandidatesFor(over, target, box), target.arity == Pair;
    ShadowersMembersIff(rules, index);
    hide Shadows, ShadowersOf, Candidates, RuleOrientations, BoxSubsumesModuloVersion, CellInside;
    if CellCovered(candidates, xs, ys, i, j) {
      var k :| 0 <= k < |candidates| && CellInside(candidates[k], xs, ys, i, j);
      var s, b := CandidateOrigin(over, box, pair, candidates[k]);
      assert HasCellAround(s, b, target, box, xs, ys, i, j);
    }
    if CellIsShadowed(rules, target, box, xs, ys, i, j) {
      var s, b :| s in rules && Shadows(s, target) && HasCellAround(s, b, target, box, xs, ys, i, j);
      BoxIsCandidate(over, box, pair, s, b);
      var k :| 0 <= k < |candidates| && candidates[k] == PlaneOf(b);
      assert CellInside(candidates[k], xs, ys, i, j);
    }
  }

  lemma BoxShadowedIff(rules: seq<Rule>, index: nat, box: RuleBox, maxCells: nat)
    requires index < |rules|
    ensures var target, over := rules[index], ShadowersOf(rules, index);
      var r := BoxCoverage(target, over, box, maxCells);
      && r.exhaustive == GridFits(target, over, box, maxCells)
      && (r.covered <==> r.exhaustive && BoxIsShadowed(rules, target, box, XsOf(target, over, box), YsOf(target, over, box)))
  {
    var target, over := rules[index], ShadowersOf(rules, index);
    var xs, ys := XsOf(target, over, box), YsOf(target, over, box);
    forall i, j | 0 <= i < |xs| - 1 && 0 <= j < |ys| - 1
      ensures CellCovered(CandidatesFor(over, target, box), xs, ys, i, j) <==> CellIsShadowed(rules, target, box, xs, ys, i, j)
    {
      CellShadowedIff(rules, index, box, xs, ys, i, j);
    }
    hide CellCovered, CellIsShadowed, CellInside, Grid, Candidates, ShadowersOf;
  }

  /** The first box that is not covered, if any, decides. */
  lemma {:induction false} RegionByBoxes(target: Rule, over: seq<Rule>, boxes: seq<RuleBox>, maxCells: nat)
    ensures var r := RegionCovered(target, over, boxes, maxCells);
      && (r.covered <==> forall box :: box in boxes ==> BoxCoverage(target, over, box, maxCells).covered)
      && (!r.covered ==> exists box :: box in boxes && BoxCoverage(target, over, box, maxCells) == r)
  {
    hide BoxCoverage;
    if boxes != [] {
      RegionByBoxes(target, over, boxes[1..], maxCells);
      assert boxes == [boxes[0]] + boxes[1..];
    }
  }

  ghost predicate Analysed(rules: seq<Rule>, index: nat, options: ValidationOptions)
    requires index < |rules|
  {
    rules[index].state == Active
    && 0 < |ShadowPositions(rules, rules[index], |rules|)| <= options.maxReachabilityCandidates
  }

  ghost predicate BoxIsDead(rules: seq<Rule>, index: nat, box: RuleBox, maxCells: nat)
    requires index < |rules|
  {
    var target, over := rules[index], ShadowersOf(rules, index);
    GridFits(target, over, box, maxCells)
    && BoxIsShadowed(rules, target, box, XsOf(target, over, box), YsOf(target, over, box))
  }

  lemma AnalysedIsCompared(rules: seq<Rule>, index: nat, options: ValidationOptions)
    requires index < |rules| && Analysed(rules, index, options)
    ensures var r := RegionCovered(rules[index], ShadowersOf(rules, index), RuleOrientations(rules[index]), options.maxReachabilityCells);
      ReachOf(rules, index, options) == if r.covered then Dead else Open(r.exhaustive)
  {
    hide ShadowPositions, ShadowersUpTo, RegionCovered, RuleOrientations;
    ShadowersAreCounted(rules, index, |rules|);
  }

  lemma DeadIsAnalysed(rules: seq<Rule>, index: nat, options: ValidationOptions)
    requires index < |rules| && (ReachOf(rules, index, options) == Dead || ReachOf(rules, index, options).Open?)
    ensures Analysed(rules, index, options)
  {
    hide ShadowPositions, ShadowersUpTo, RegionCovered, RuleOrientations;
    ShadowersAreCounted(rules, index, |rules|);
  }

  /** A rule is reported dead exactly when it is analysed and all cells of all its boxes are shadowed on grids that fit. */
  lemma DeadIff(rules: seq<Rule>, index: nat, options: ValidationOptions)
    requires index < |rules|
    ensures ReachOf(rules, index, options) == Dead <==>
            Analysed(rules, index, options)
            && forall box :: box in RuleOrientations(rules[index]) ==> BoxIsDead(rules, index, box, options.maxReachabilityCells)
  {
    hide ReachOf, Analysed, ShadowersOf, GridFits, BoxIsShadowed, RuleOrientations, RegionCovered, BoxCoverage, XsOf, YsOf;
    var boxes, over := RuleOrientations(rules[index]), ShadowersOf(rules, index);
    forall box ensures BoxCoverage(rules[index], over, box, options.maxReachabilityCells).covered
                       <==> BoxIsDead(rules, index, box, options.maxReachabilityCells) {
      BoxShadowedIff(rules, index, box, options.maxReachabilityCells);
    }
    RegionByBoxes(rules[index], over, boxes, options.maxReachabilityCells);
    if Analysed(rules, index, options) { AnalysedIsCompared(rules, index, options); }
    if ReachOf(rules, index, options) == Dead { DeadIsAnalysed(rules, index, options); }
  }

  /** A rule analysed in full and not reported has an open cell that no shadower has; one not analysed in full, a grid too large. */
  lemma OpenMeans(rules: seq<Rule>, index: nat, options: ValidationOptions) returns (box: RuleBox)
    requires index < |rules| && ReachOf(rules, index, options).Open?
    ensures box in RuleOrientations(rules[index])
    ensures var target, over := rules[index], ShadowersOf(rules, index);
      && (ReachOf(rules, index, options).exhaustive <==> GridFits(target, over, box, options.maxReachabilityCells))
      && (ReachOf(rules, index, options).exhaustive ==>
            !BoxIsShadowed(rules, target, box, XsOf(target, over, box), YsOf(target, over, box)))
  {
    hide ReachOf, Analysed, ShadowersOf, GridFits, BoxIsShadowed, RuleOrientations, RegionCovered, BoxCoverage, XsOf, YsOf;
    var boxes, over := RuleOrientations(rules[index]), ShadowersOf(rules, index);
    DeadIsAnalysed(rules, index, options);
    AnalysedIsCompared(rules, index, options);
    RegionByBoxes(rules[index], over, boxes, options.maxReachabilityCells);
    var r := RegionCovered(rules[index], over, boxes, options.maxReachabilityCells);
    box :| box in boxes && BoxCoverage(rules[index], over, box, options.maxReachabilityCells) == r;
    BoxShadowedIff(rules, index, box, options.maxReachabilityCells);
  }

  // ----- An open verdict is right where the cell has releases -----

  lemma ReleasesInCell(xs: seq<Coord>, i: nat) returns (v: SemVersion)
    requires GridOk(xs) && i + 1 < |xs| && HasRoom(FirstRelease(xs[i]), xs[i + 1])
    ensures !v.HasPrerelease() && LiesAt(xs, Cell(i), v)
  {
    v := InhabitedHasVersion(xs, [], Released(Cell(i)));
  }

  /** In a cell no shadower has, a pair of releases is accepted by the target and by no candidate. */
  lemma UncoveredCellIsUnaccepted(target: Plane, candidates: seq<Plane>, i: nat, j: nat, v: SemVersion, w: SemVersion)
    requires var xs, ys := Grid(Lefts(target, candidates)), Grid(Rights(target, candidates));
      && i + 1 < |xs| && j + 1 < |ys| && LiesAt(xs, Cell(i), v) && LiesAt(ys, Cell(j), w)
      && CellInside(target, xs, ys, i, j) && !CellCovered(candidates, xs, ys, i, j)
    requires !v.HasPrerelease() && !w.HasPrerelease()
    ensures Accepts(target, v, w) && !SomeAccepts(candidates, v, w)
  {
    var x, y := AxisOf(Lefts(target, candidates)), AxisOf(Rights(target, candidates));
    AxesDoFit(target, candidates);
    FitGrids(target, candidates, x, y);
    var a, b := Released(Cell(i)), Released(Cell(j));
    hide AxesFit, GridOk, Grid, Accepts, SomeAccepts, RangeCoversCell, Takes, LinesOfAll;
    PairOfVersions(target, candidates, x, y, a, b, v, w);
    CellIsTaken(target.left, x.xs, x.lines, i);
    CellIsTaken(target.right, y.xs, y.lines, j);
    forall k | 0 <= k < |candidates| ensures !TakesPair(candidates[k], x, y, a, b) {
      CellIsTaken(candidates[k].left, x.xs, x.lines, i);
      CellIsTaken(candidates[k].right, y.xs, y.lines, j);
      assert !CellInside(candidates[k], x.xs, y.xs, i, j);
    }
  }

  /** Then the rule holds two components that none of its shadowers holds. */
  lemma OpenRuleIsFree(rules: seq<Rule>, index: nat, box: RuleBox, i: nat, j: nat) returns (left: ComponentSpec, right: ComponentSpec)
    requires index < |rules| && box in RuleOrientations(rules[index])
    requires var xs, ys := XsOf(rules[index], ShadowersOf(rules, index), box), YsOf(rules[index], ShadowersOf(rules, index), box);
      && i + 1 < |xs| && j + 1 < |ys|
      && CellInside(PlaneOf(box), xs, ys, i, j) && !CellIsShadowed(rules, rules[index], box, xs, ys, i, j)
      && HasRoom(FirstRelease(xs[i]), xs[i + 1]) && HasRoom(FirstRelease(ys[j]), ys[j + 1])
    ensures Meets(rules[index], left, right)
    ensures forall s :: s in rules && Shadows(s, rules[index]) ==> !Meets(s, left, right)
  {
    var target, over := rules[index], ShadowersOf(rules, index);
    var candidates, xs, ys := CandidatesFor(over, target, box), XsOf(target, over, box), YsOf(target, over, box);
    CellShadowedIff(rules, index, box, xs, ys, i, j);
    GridsFit(PlaneOf(box), candidates);
    hide Grid, GridOk, BoundsOnGrid, CellIsShadowed, CellInside, CellCovered, Shadows, ShadowersUpTo, Candidates, RuleOrientations;
    var v := ReleasesInCell(xs, i);
    var w := ReleasesInCell(ys, j);
    UncoveredCellIsUnaccepted(PlaneOf(box), candidates, i, j, v, w);
    left, right := Specimen(box.left, v, SpareId(over)), Specimen(box.right, w, SpareId(over));
    SpecimensMeet(target, box, v, w, SpareId(over));
    ShadowersMembersIff(rules, index);
    forall s | s in over ensures !Meets(s, left, right) {
      if Meets(s, left, right) { SpecimensAreAccepted(over, target, box, v, w, s); }
    }
  }

  lemma SpecimensMeet(target: Rule, box: RuleBox, v: SemVersion, w: SemVersion, spare: string)
    requires box in RuleOrientations(target) && Accepts(PlaneOf(box), v, w)
    ensures Meets(target, Specimen(box.left, v, spare), Specimen(box.right, w, spare))
  {
    SpecimenMatches(box.left, v, spare);
    SpecimenMatches(box.right, w, spare);
    hide RuleOrientations, SelectorMatches, Specimen;
    assert BoxMatches(box, Specimen(box.left, v, spare), Specimen(box.right, w, spare));
  }

  // ----- What is reported -----

  /** An error for each dead rule and a note for each one given up, under its number, and nothing else. */
  lemma {:induction false} FindingsMeaning(reaches: seq<Reach>, d: Diagnostic)
    ensures d in ReachFindings(reaches) <==>
      exists i :: 0 <= i < |reaches| && d.rule == Some(i)
        && ((reaches[i] == Dead && d.severity == Error && d.code == UnreachableRule)
            || (reaches[i] == OverBudget && d.severity == Info && d.code == ReachabilityAnalysisSkipped))
  {
    if reaches != [] {
      var n := |reaches| - 1;
      FindingsMeaning(reaches[..n], d);
      assert forall i :: 0 <= i < n ==> reaches[..n][i] == reaches[i];
    }
  }
}
