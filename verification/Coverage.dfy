/** The coordinate-compressed version plane of the reachability analysis (src/validation.cpp). */
module Coverage {
  import opened Order
  import opened SemVer
  import opened Sorting
  import opened Intervals
  import opened Rules
  import VersionRange

  datatype Coord = NegInf | Finite(version: SemVersion) | PosInf

  function CoordKind(c: Coord): nat {
    match c
    case NegInf => 0
    case Finite(_) => 1
    case PosInf => 2
  }

  function CompareCoord(a: Coord, b: Coord): Ordering {
    if CoordKind(a) != CoordKind(b) then CompareNat(CoordKind(a), CoordKind(b))
    else if a.Finite? then Precedence(a.version, b.version)
    else Equal
  }

  predicate CoordBefore(a: Coord, b: Coord) {
    CompareCoord(a, b) == Less
  }

  lemma CompareCoordIsTotal()
    ensures TotalPreorder(CompareCoord)
    ensures StrictWeakOrder(CoordBefore)
  {
    PrecedenceIsTotal();
    forall a: Coord, b: Coord, c: Coord
      ensures Composes(CompareCoord(a, b), CompareCoord(b, c), CompareCoord(a, c))
    {
      if a.Finite? && b.Finite? && c.Finite? {
        assert Composes(Precedence(a.version, b.version), Precedence(b.version, c.version), Precedence(a.version, c.version));
      }
    }
    forall a: Coord, b: Coord, c: Coord | CoordBefore(a, b)
      ensures CoordBefore(a, c) || CoordBefore(c, b)
    {
      assert Composes(CompareCoord(a, c), CompareCoord(c, b), CompareCoord(a, b));
    }
  }

  // ----- Grid coordinates -----

  function AddCoord(coords: seq<Coord>, c: Coord): seq<Coord> {
    if exists e :: e in coords && CompareCoord(e, c) == Equal then coords else coords + [c]
  }

  function AddBound(coords: seq<Coord>, b: Bound<SemVersion>): seq<Coord> {
    if b.At? then AddCoord(coords, Finite(b.value)) else coords
  }

  function AddIntervals(coords: seq<Coord>, ivs: VersionRange.Range): seq<Coord>
    decreases |ivs|
  {
    if ivs == [] then coords
    else AddIntervals(AddBound(AddBound(coords, ivs[0].low), ivs[0].high), ivs[1..])
  }

  function AddRange(coords: seq<Coord>, range: Option<VersionRange.Range>): seq<Coord> {
    if range.None? then coords else AddIntervals(coords, range.value)
  }

  function AddRanges(coords: seq<Coord>, ranges: seq<Option<VersionRange.Range>>): seq<Coord>
    decreases |ranges|
  {
    if ranges == [] then coords else AddRanges(AddRange(coords, ranges[0]), ranges[1..])
  }

  /** Infinities, then each distinct bound of the target and the candidates, in order. */
  function Grid(ranges: seq<Option<VersionRange.Range>>): seq<Coord> {
    Sort(CoordBefore, AddRanges([NegInf, PosInf], ranges))
  }

  ghost predicate HasCoord(coords: seq<Coord>, c: Coord) {
    exists e :: e in coords && CompareCoord(e, c) == Equal
  }

  ghost predicate BoundsOnGrid(coords: seq<Coord>, range: Option<VersionRange.Range>) {
    range.Some? ==> forall iv :: iv in range.value ==>
      (iv.low.At? ==> HasCoord(coords, Finite(iv.low.value))) && (iv.high.At? ==> HasCoord(coords, Finite(iv.high.value)))
  }

  /** No two entries stand for the same coordinate. */
  ghost predicate AllDistinct(coords: seq<Coord>) {
    forall i, j :: 0 <= i < |coords| && 0 <= j < |coords| && CompareCoord(coords[i], coords[j]) == Equal ==> i == j
  }

  ghost predicate Extends(coords: seq<Coord>, more: seq<Coord>) {
    forall c :: HasCoord(coords, c) ==> HasCoord(more, c)
  }

  lemma AddCoordFacts(coords: seq<Coord>, c: Coord)
    requires AllDistinct(coords)
    ensures AllDistinct(AddCoord(coords, c))
    ensures HasCoord(AddCoord(coords, c), c)
    ensures forall e :: e in coords ==> e in AddCoord(coords, c)
    ensures Extends(coords, AddCoord(coords, c))
  {
    CompareCoordIsTotal();
    if !HasCoord(coords, c) {
      var more := coords + [c];
      assert more[|coords|] == c;
      assert forall k :: 0 <= k < |coords| ==> more[k] in coords;
      forall i, j | 0 <= i < |more| && 0 <= j < |more| && CompareCoord(more[i], more[j]) == Equal ensures i == j {
        assert CompareCoord(more[j], more[i]) == Flip(CompareCoord(more[i], more[j]));
      }
    }
  }

  lemma AddBoundFacts(coords: seq<Coord>, b: Bound<SemVersion>)
    requires AllDistinct(coords)
    ensures AllDistinct(AddBound(coords, b))
    ensures b.At? ==> HasCoord(AddBound(coords, b), Finite(b.value))
    ensures forall e :: e in coords ==> e in AddBound(coords, b)
    ensures Extends(coords, AddBound(coords, b))
  {
    if b.At? { AddCoordFacts(coords, Finite(b.value)); }
  }

  lemma {:induction false} AddIntervalsFacts(coords: seq<Coord>, ivs: VersionRange.Range)
    requires AllDistinct(coords)
    ensures AllDistinct(AddIntervals(coords, ivs))
    ensures BoundsOnGrid(AddIntervals(coords, ivs), Some(ivs))
    ensures forall e :: e in coords ==> e in AddIntervals(coords, ivs)
    ensures Extends(coords, AddIntervals(coords, ivs))
    decreases |ivs|
  {
    if ivs != [] {
      var one := AddBound(coords, ivs[0].low);
      AddBoundFacts(coords, ivs[0].low);
      AddBoundFacts(one, ivs[0].high);
      AddIntervalsFacts(AddBound(one, ivs[0].high), ivs[1..]);
    }
  }

  lemma {:induction false} AddRangesFacts(coords: seq<Coord>, ranges: seq<Option<VersionRange.Range>>)
    requires AllDistinct(coords)
    ensures AllDistinct(AddRanges(coords, ranges))
    ensures forall r :: r in ranges ==> BoundsOnGrid(AddRanges(coords, ranges), r)
    ensures forall e :: e in coords ==> e in AddRanges(coords, ranges)
    ensures Extends(coords, AddRanges(coords, ranges))
    decreases |ranges|
  {
    if ranges != [] {
      var first := AddRange(coords, ranges[0]);
      if ranges[0].Some? { AddIntervalsFacts(coords, ranges[0].value); }
      AddRangesFacts(first, ranges[1..]);
      assert BoundsOnGrid(first, ranges[0]);
      assert BoundsOnGrid(AddRanges(first, ranges[1..]), ranges[0]);
    }
  }

  /** A usable grid: both infinities at the ends, strictly increasing. */
  ghost predicate GridOk(xs: seq<Coord>) {
    && |xs| >= 2 && xs[0] == NegInf && xs[|xs| - 1] == PosInf
    && (forall i, j :: 0 <= i < j < |xs| ==> CoordBefore(xs[i], xs[j]))
  }

  lemma TwiceInMultiset<T>(s: seq<T>, i: nat, j: nat)
    requires i < j < |s| && s[i] == s[j]
    ensures multiset(s)[s[i]] >= 2
  {
    assert s == s[..j] + s[j..];
    assert s[..j][i] == s[i] && s[j..][0] == s[j];
    assert s[i] in multiset(s[..j]) && s[i] in multiset(s[j..]);
  }

  lemma {:induction false} DistinctOnce(s: seq<Coord>, c: Coord)
    requires AllDistinct(s)
    ensures multiset(s)[c] <= 1
  {
    CompareCoordIsTotal();
    if s != [] {
      var n := |s| - 1;
      assert s == s[..n] + [s[n]];
      DistinctOnce(s[..n], c);
      assert forall i :: 0 <= i < n ==> CompareCoord(s[i], s[n]) != Equal;
      assert s[n] !in s[..n];
      assert c in multiset(s[..n]) <==> c in s[..n];
    }
  }

  lemma SortedDistinctIsStrict(cs: seq<Coord>, xs: seq<Coord>)
    requires AllDistinct(cs) && multiset(xs) == multiset(cs)
    requires Sorted(CoordBefore, xs)
    ensures forall i, j :: 0 <= i < j < |xs| ==> CoordBefore(xs[i], xs[j])
  {
    CompareCoordIsTotal();
    forall i, j | 0 <= i < j < |xs| ensures CoordBefore(xs[i], xs[j]) {
      assert !CoordBefore(xs[j], xs[i]);
      assert CompareCoord(xs[j], xs[i]) == Flip(CompareCoord(xs[i], xs[j]));
      if CompareCoord(xs[i], xs[j]) == Equal {
        assert xs[i] in multiset(cs) && xs[j] in multiset(cs);
        var p :| 0 <= p < |cs| && cs[p] == xs[i];
        var q :| 0 <= q < |cs| && cs[q] == xs[j];
        assert p == q;
        TwiceInMultiset(xs, i, j);
        DistinctOnce(cs, xs[i]);
      }
    }
  }

  lemma InfinitiesAtTheEnds(xs: seq<Coord>)
    requires forall i, j :: 0 <= i < j < |xs| ==> CoordBefore(xs[i], xs[j])
    requires NegInf in xs && PosInf in xs
    ensures GridOk(xs)
  {
    var i :| 0 <= i < |xs| && xs[i] == NegInf;
    var j :| 0 <= j < |xs| && xs[j] == PosInf;
    assert forall k :: 0 < k < |xs| ==> CoordBefore(xs[0], xs[k]);
    assert forall k :: 0 <= k < |xs| - 1 ==> CoordBefore(xs[k], xs[|xs| - 1]);
  }

  lemma GridIsOk(ranges: seq<Option<VersionRange.Range>>)
    ensures GridOk(Grid(ranges))
  {
    CompareCoordIsTotal();
    var cs := AddRanges([NegInf, PosInf], ranges);
    AddRangesFacts([NegInf, PosInf], ranges);
    SortSorts(CoordBefore, cs);
    SortKeeps(CoordBefore, cs);
    SortMembers(CoordBefore, cs);
    SortedDistinctIsStrict(cs, Grid(ranges));
    assert NegInf in [NegInf, PosInf] && PosInf in [NegInf, PosInf];
    InfinitiesAtTheEnds(Grid(ranges));
  }

  lemma GridHasBounds(ranges: seq<Option<VersionRange.Range>>, r: Option<VersionRange.Range>)
    requires r in ranges
    ensures BoundsOnGrid(Grid(ranges), r)
  {
    CompareCoordIsTotal();
    var cs := AddRanges([NegInf, PosInf], ranges);
    AddRangesFacts([NegInf, PosInf], ranges);
    SortMembers(CoordBefore, cs);
    assert BoundsOnGrid(cs, r);
    assert forall c :: HasCoord(cs, c) ==> HasCoord(Grid(ranges), c);
  }

  // ----- Cells -----

  predicate LowReaches(low: Bound<SemVersion>, lo: Coord) {
    low.At? ==> lo != NegInf && (lo.Finite? ==> Precedence(lo.version, low.value) != Less)
  }

  predicate HighReaches(high: Bound<SemVersion>, hi: Coord) {
    high.At? ==> hi != PosInf && (hi.Finite? ==> Precedence(high.value, hi.version) != Less)
  }

  /** Every version strictly between the two coordinates is in one interval of the range. */
  predicate RangeCoversCell(range: Option<VersionRange.Range>, lo: Coord, hi: Coord) {
    lo == PosInf || hi == NegInf || range.None?
    || exists i :: 0 <= i < |range.value| && LowReaches(range.value[i].low, lo) && HighReaches(range.value[i].high, hi)
  }

  method ComputeRangeCoversCell(range: Option<VersionRange.Range>, lo: Coord, hi: Coord) returns (covers: bool)
    ensures covers == RangeCoversCell(range, lo, hi)
  {
    if lo == PosInf || hi == NegInf { return true; }
    if range.None? { return true; }
    for i := 0 to |range.value|
      invariant forall k :: 0 <= k < i ==> !(LowReaches(range.value[k].low, lo) && HighReaches(range.value[k].high, hi))
    {
      var iv := range.value[i];
      var lowOk := true;
      if iv.low.At? {
        if lo == NegInf { lowOk := false; } else { lowOk := Precedence(lo.version, iv.low.value) != Less; }
      }
      var highOk := true;
      if iv.high.At? {
        if hi == PosInf { highOk := false; } else { highOk := Precedence(iv.high.value, hi.version) != Less; }
      }
      if lowOk && highOk { return true; }
    }
    return false;
  }

  /** The version ranges of a box, one per side. */
  datatype Plane = Plane(left: Option<VersionRange.Range>, right: Option<VersionRange.Range>)

  function Lefts(target: Plane, candidates: seq<Plane>): seq<Option<VersionRange.Range>> {
    [target.left] + seq(|candidates|, i requires 0 <= i < |candidates| => candidates[i].left)
  }

  function Rights(target: Plane, candidates: seq<Plane>): seq<Option<VersionRange.Range>> {
    [target.right] + seq(|candidates|, i requires 0 <= i < |candidates| => candidates[i].right)
  }

  predicate CellInside(p: Plane, xs: seq<Coord>, ys: seq<Coord>, i: nat, j: nat)
    requires i + 1 < |xs| && j + 1 < |ys|
  {
    RangeCoversCell(p.left, xs[i], xs[i + 1]) && RangeCoversCell(p.right, ys[j], ys[j + 1])
  }

  predicate CellCovered(candidates: seq<Plane>, xs: seq<Coord>, ys: seq<Coord>, i: nat, j: nat)
    requires i + 1 < |xs| && j + 1 < |ys|
  {
    exists k :: 0 <= k < |candidates| && CellInside(candidates[k], xs, ys, i, j)
  }

  predicate OpenCellsCovered(target: Plane, candidates: seq<Plane>, xs: seq<Coord>, ys: seq<Coord>) {
    forall i, j :: 0 <= i < |xs| - 1 && 0 <= j < |ys| - 1 && CellInside(target, xs, ys, i, j) ==>
      CellCovered(candidates, xs, ys, i, j)
  }

  datatype CoverageResult = CoverageResult(covered: bool, exhaustive: bool)

  function VersionPlaneCovered(target: Plane, candidates: seq<Plane>, maxCells: nat): CoverageResult {
    var xs, ys := Grid(Lefts(target, candidates)), Grid(Rights(target, candidates));
    if (|xs| - 1) * (|ys| - 1) > maxCells then CoverageResult(false, false)
    else CoverageResult(OpenCellsCovered(target, candidates, xs, ys), true)
  }

  /** The source's walk over the cells; it gives up at the first uncovered one. */
  method ComputeVersionPlaneCovered(target: Plane, candidates: seq<Plane>, maxCells: nat) returns (r: CoverageResult)
    ensures r == VersionPlaneCovered(target, candidates, maxCells)
  {
    var xs := Grid(Lefts(target, candidates));
    var ys := Grid(Rights(target, candidates));
    if (|xs| - 1) * (|ys| - 1) > maxCells {
      return CoverageResult(false, false);
    }
    var i := 0;
    while i + 1 < |xs|
      invariant forall a, b :: 0 <= a < i && a < |xs| - 1 && 0 <= b < |ys| - 1 && CellInside(target, xs, ys, a, b) ==>
                  CellCovered(candidates, xs, ys, a, b)
    {
      var j := 0;
      while j + 1 < |ys|
        invariant forall b :: 0 <= b < j && b < |ys| - 1 && CellInside(target, xs, ys, i, b) ==>
                    CellCovered(candidates, xs, ys, i, b)
      {
        var covered := ComputeCell(target, candidates, xs, ys, i, j);
        if !covered {
          return CoverageResult(false, true);
        }
        j := j + 1;
      }
      i := i + 1;
    }
    return CoverageResult(true, true);
  }

  method ComputeCell(target: Plane, candidates: seq<Plane>, xs: seq<Coord>, ys: seq<Coord>, i: nat, j: nat)
    returns (fine: bool)
    requires i + 1 < |xs| && j + 1 < |ys|
    ensures fine == (CellInside(target, xs, ys, i, j) ==> CellCovered(candidates, xs, ys, i, j))
  {
    var inLeft := ComputeRangeCoversCell(target.left, xs[i], xs[i + 1]);
    if !inLeft { return true; }
    var inRight := ComputeRangeCoversCell(target.right, ys[j], ys[j + 1]);
    if !inRight { return true; }
    for k := 0 to |candidates|
      invariant forall m :: 0 <= m < k ==> !CellInside(candidates[m], xs, ys, i, j)
    {
      var left := ComputeRangeCoversCell(candidates[k].left, xs[i], xs[i + 1]);
      var right := ComputeRangeCoversCell(candidates[k].right, ys[j], ys[j + 1]);
      if left && right { return true; }
    }
    return false;
  }

  // ----- What the grid means -----

  /** The parts a grid cuts the version line into. */
  datatype Piece = Cell(i: nat) | Point(i: nat)

  predicate PieceOk(xs: seq<Coord>, p: Piece) {
    match p
    case Cell(i) => i + 1 < |xs|
    case Point(i) => i < |xs| && xs[i].Finite?
  }

  predicate LiesAt(xs: seq<Coord>, p: Piece, v: SemVersion)
    requires PieceOk(xs, p)
  {
    match p
    case Cell(i) => CoordBefore(xs[i], Finite(v)) && CoordBefore(Finite(v), xs[i + 1])
    case Point(i) => CompareCoord(xs[i], Finite(v)) == Equal
  }

  lemma FindPiece(xs: seq<Coord>, v: SemVersion) returns (p: Piece)
    requires GridOk(xs)
    ensures PieceOk(xs, p) && LiesAt(xs, p, v)
  {
    CompareCoordIsTotal();
    var i := 0;
    while CompareCoord(xs[i + 1], Finite(v)) != Greater
      invariant 0 <= i < |xs| - 1
      invariant CompareCoord(xs[i], Finite(v)) != Greater
      decreases |xs| - i
    {
      i := i + 1;
    }
    if CompareCoord(xs[i], Finite(v)) == Equal {
      p := Point(i);
    } else {
      p := Cell(i);
    }
  }

  lemma CellInsideInterval(xs: seq<Coord>, i: nat, iv: VersionRange.VersionInterval, v: SemVersion)
    requires i + 1 < |xs| && LiesAt(xs, Cell(i), v)
    requires LowReaches(iv.low, xs[i]) && HighReaches(iv.high, xs[i + 1])
    ensures ContainsBound(Precedence, iv, v)
  {
    PrecedenceIsTotal();
    if iv.low.At? {
      assert Composes(Precedence(iv.low.value, xs[i].version), Precedence(xs[i].version, v), Precedence(iv.low.value, v));
    }
    if iv.high.At? {
      assert Composes(Precedence(v, xs[i + 1].version), Precedence(xs[i + 1].version, iv.high.value), Precedence(v, iv.high.value));
    }
  }

  /** In a strictly increasing list, an entry below the next one is at most the present one. */
  lemma NeighboursBracket<T(!new)>(cmp: (T, T) -> Ordering, xs: seq<T>, i: nat, c: T, v: T)
    requires TotalPreorder(cmp)
    requires i + 1 < |xs| && forall j, k :: 0 <= j < k < |xs| ==> cmp(xs[j], xs[k]) == Less
    requires cmp(xs[i], v) == Less && cmp(v, xs[i + 1]) == Less
    requires exists e :: e in xs && cmp(e, c) == Equal
    ensures cmp(c, v) != Greater ==> cmp(xs[i], c) != Less
    ensures cmp(c, v) != Less ==> cmp(c, xs[i + 1]) != Less
  {
    var e :| e in xs && cmp(e, c) == Equal;
    var k :| 0 <= k < |xs| && xs[k] == e;
    if k <= i {
      assert cmp(e, xs[i]) != Greater;
    } else {
      assert cmp(xs[i + 1], e) != Greater;
    }
  }

  /** A grid coordinate below a version in cell i is not above the cell's start; likewise above. */
  lemma CoordBelowCell(xs: seq<Coord>, i: nat, c: Coord, v: SemVersion)
    requires GridOk(xs) && i + 1 < |xs| && LiesAt(xs, Cell(i), v)
    requires HasCoord(xs, c)
    ensures CompareCoord(c, Finite(v)) != Greater ==> CompareCoord(xs[i], c) != Less
    ensures CompareCoord(c, Finite(v)) != Less ==> CompareCoord(c, xs[i + 1]) != Less
  {
    CompareCoordIsTotal();
    hide CompareCoord;
    assert forall j, k :: 0 <= j < k < |xs| ==> CoordBefore(xs[j], xs[k]);
    NeighboursBracket(CompareCoord, xs, i, c, Finite(v));
  }

  lemma IntervalReachesCell(xs: seq<Coord>, i: nat, iv: VersionRange.VersionInterval, v: SemVersion)
    requires GridOk(xs) && i + 1 < |xs| && LiesAt(xs, Cell(i), v)
    requires iv.low.At? ==> HasCoord(xs, Finite(iv.low.value))
    requires iv.high.At? ==> HasCoord(xs, Finite(iv.high.value))
    requires ContainsBound(Precedence, iv, v)
    ensures LowReaches(iv.low, xs[i]) && HighReaches(iv.high, xs[i + 1])
  {
    CompareCoordIsTotal();
    PrecedenceIsTotal();
    if iv.low.At? { CoordBelowCell(xs, i, Finite(iv.low.value), v); }
    if iv.high.At? { CoordBelowCell(xs, i, Finite(iv.high.value), v); }
  }

  lemma PointOfInterval(iv: VersionRange.VersionInterval, u: SemVersion, v: SemVersion)
    requires Precedence(u, v) == Equal
    ensures ContainsBound(Precedence, iv, u) <==> ContainsBound(Precedence, iv, v)
  {
    PrecedenceIsTotal();
  }

  lemma GridsFit(target: Plane, candidates: seq<Plane>)
    ensures var xs, ys := Grid(Lefts(target, candidates)), Grid(Rights(target, candidates));
            && GridOk(xs) && GridOk(ys)
            && BoundsOnGrid(xs, target.left) && BoundsOnGrid(ys, target.right)
            && (forall k :: 0 <= k < |candidates| ==> BoundsOnGrid(xs, candidates[k].left) && BoundsOnGrid(ys, candidates[k].right))
  {
    var lefts, rights := Lefts(target, candidates), Rights(target, candidates);
    GridIsOk(lefts);
    GridIsOk(rights);
    assert lefts[0] == target.left && rights[0] == target.right;
    GridHasBounds(lefts, target.left);
    GridHasBounds(rights, target.right);
    forall k | 0 <= k < |candidates|
      ensures BoundsOnGrid(Grid(lefts), candidates[k].left) && BoundsOnGrid(Grid(rights), candidates[k].right)
    {
      assert lefts[k + 1] == candidates[k].left && rights[k + 1] == candidates[k].right;
      GridHasBounds(lefts, candidates[k].left);
      GridHasBounds(rights, candidates[k].right);
    }
  }

  /** No bound of the range has the version's precedence. */
  ghost predicate TiesNoBound(range: Option<VersionRange.Range>, v: SemVersion) {
    range.Some? ==> forall iv :: iv in range.value ==>
      (iv.low.At? ==> Precedence(iv.low.value, v) != Equal) && (iv.high.At? ==> Precedence(iv.high.value, v) != Equal)
  }

  lemma {:induction false} AddIntervalsOnlyBounds(coords: seq<Coord>, ivs: VersionRange.Range, v: SemVersion)
    ensures TiesNoBound(Some(ivs), v) ==>
              forall c :: c in AddIntervals(coords, ivs) && c.Finite? && Precedence(c.version, v) == Equal ==> c in coords
    decreases |ivs|
  {
    if ivs != [] {
      var next := AddBound(AddBound(coords, ivs[0].low), ivs[0].high);
      AddIntervalsOnlyBounds(next, ivs[1..], v);
      assert ivs[0] in ivs;
    }
  }

  lemma {:induction false} AddRangesOnlyBounds(coords: seq<Coord>, ranges: seq<Option<VersionRange.Range>>, v: SemVersion)
    requires forall r :: r in ranges ==> TiesNoBound(r, v)
    ensures forall c :: c in AddRanges(coords, ranges) && c.Finite? && Precedence(c.version, v) == Equal ==> c in coords
    decreases |ranges|
  {
    if ranges != [] {
      if ranges[0].Some? { AddIntervalsOnlyBounds(coords, ranges[0].value, v); }
      AddRangesOnlyBounds(AddRange(coords, ranges[0]), ranges[1..], v);
    }
  }

  /** A version that ties with no bound lies in a cell. */
  lemma UntiedLiesInCell(ranges: seq<Option<VersionRange.Range>>, v: SemVersion) returns (i: nat)
    requires forall r :: r in ranges ==> TiesNoBound(r, v)
    ensures i + 1 < |Grid(ranges)| && LiesAt(Grid(ranges), Cell(i), v)
  {
    GridIsOk(ranges);
    var p := FindPiece(Grid(ranges), v);
    AddRangesOnlyBounds([NegInf, PosInf], ranges, v);
    SortMembers(CoordBefore, AddRanges([NegInf, PosInf], ranges));
    assert forall k :: 0 <= k < |Grid(ranges)| ==> Grid(ranges)[k] in Grid(ranges);
    assert forall c :: c in Grid(ranges) && c.Finite? ==> Precedence(c.version, v) != Equal;
    i := p.i;
  }

  /** Every interval of the range is a single version. */
  ghost predicate OnlySingleVersions(range: Option<VersionRange.Range>) {
    range.Some? && forall iv :: iv in range.value ==> IsExactInterval(Precedence, iv)
  }

  lemma SingleVersionSpansNothing(lo: SemVersion, hi: SemVersion, low: SemVersion, high: SemVersion)
    requires Precedence(lo, hi) == Less && Precedence(low, high) == Equal
    ensures Precedence(lo, low) == Less || Precedence(high, hi) == Less
  {
    PrecedenceIsTotal();
    assert Composes(Precedence(low, lo), Precedence(lo, hi), Precedence(low, hi));
    assert Composes(Precedence(low, high), Precedence(high, hi), Precedence(low, hi));
  }

  lemma SingleVersionsOwnNoCell(range: Option<VersionRange.Range>, xs: seq<Coord>, i: nat)
    requires OnlySingleVersions(range) && GridOk(xs) && i + 1 < |xs|
    ensures !RangeCoversCell(range, xs[i], xs[i + 1])
  {
    PrecedenceIsTotal();
    CompareCoordIsTotal();
    assert CoordBefore(xs[i], xs[i + 1]);
    forall k | 0 <= k < |range.value|
      ensures !(LowReaches(range.value[k].low, xs[i]) && HighReaches(range.value[k].high, xs[i + 1]))
    {
      var iv := range.value[k];
      assert iv in range.value;
      if xs[i].Finite? && xs[i + 1].Finite? {
        SingleVersionSpansNothing(xs[i].version, xs[i + 1].version, iv.low.value, iv.high.value);
      }
    }
  }

  /** A target that names single versions on a side is always called covered, whatever the candidates. */
  lemma SingleVersionTargetsAlwaysCovered(target: Plane, candidates: seq<Plane>, maxCells: nat)
    requires OnlySingleVersions(target.left) || OnlySingleVersions(target.right)
    requires VersionPlaneCovered(target, candidates, maxCells).exhaustive
    ensures VersionPlaneCovered(target, candidates, maxCells).covered
  {
    var xs, ys := Grid(Lefts(target, candidates)), Grid(Rights(target, candidates));
    GridsFit(target, candidates);
    forall i, j | 0 <= i < |xs| - 1 && 0 <= j < |ys| - 1 ensures !CellInside(target, xs, ys, i, j) {
      if OnlySingleVersions(target.left) {
        SingleVersionsOwnNoCell(target.left, xs, i);
      } else {
        SingleVersionsOwnNoCell(target.right, ys, j);
      }
    }
  }
}
