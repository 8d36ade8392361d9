/** What the walk over the open cells leaves out: bounds and prereleases (src/validation.cpp, src/version.cpp). */
module Gaps {
  import opened Order
  import opened SemVer
  import opened Intervals
  import opened Rules
  import opened Coverage
  import VersionRange

  // ----- Release lines -----

  /** The versions that share a release, prereleases included. */
  datatype Line = Line(major: u32, minor: u32, patch: u32)

  function LineOf(v: SemVersion): Line {
    Line(v.major, v.minor, v.patch)
  }

  function LowLines(low: Bound<SemVersion>): seq<Line> {
    if low.At? && low.value.HasPrerelease() then [LineOf(low.value)] else []
  }

  /** The lines whose prereleases an interval list can admit. */
  function LinesOf(ivs: VersionRange.Range): seq<Line> {
    if ivs == [] then [] else LowLines(ivs[0].low) + LinesOf(ivs[1..])
  }

  function LinesOfAll(ranges: seq<Option<VersionRange.Range>>): seq<Line> {
    if ranges == [] then []
    else (if ranges[0].Some? then LinesOf(ranges[0].value) else []) + LinesOfAll(ranges[1..])
  }

  predicate AdmitsLine(low: Bound<SemVersion>, line: Line) {
    low.At? && low.value.HasPrerelease() && LineOf(low.value) == line
  }

  predicate KnowsLines(lines: seq<Line>, range: Option<VersionRange.Range>) {
    range.Some? ==> forall iv :: iv in range.value && iv.low.At? && iv.low.value.HasPrerelease() ==> LineOf(iv.low.value) in lines
  }

  lemma {:induction false} LinesOfKnows(ivs: VersionRange.Range)
    ensures KnowsLines(LinesOf(ivs), Some(ivs))
  {
    if ivs != [] { LinesOfKnows(ivs[1..]); }
  }

  lemma {:induction false} LinesOfAllKnows(ranges: seq<Option<VersionRange.Range>>)
    ensures forall r :: r in ranges ==> KnowsLines(LinesOfAll(ranges), r)
  {
    if ranges != [] {
      LinesOfAllKnows(ranges[1..]);
      if ranges[0].Some? {
        LinesOfKnows(ranges[0].value);
        assert forall line :: line in LinesOf(ranges[0].value) ==> line in LinesOfAll(ranges);
      }
      assert forall line :: line in LinesOfAll(ranges[1..]) ==> line in LinesOfAll(ranges);
      assert forall r :: r in ranges ==> r == ranges[0] || r in ranges[1..];
    }
  }

  // ----- Classes of versions no range tells apart -----

  /** Releases at a piece, prereleases of a known line at a piece, and all other prereleases. */
  datatype Class = Released(piece: Piece) | OnLine(piece: Piece, line: Line) | Stray

  predicate ClassOk(xs: seq<Coord>, lines: seq<Line>, c: Class) {
    match c
    case Released(p) => PieceOk(xs, p)
    case OnLine(p, line) => PieceOk(xs, p) && line in lines
    case Stray => true
  }

  predicate LiesIn(xs: seq<Coord>, lines: seq<Line>, c: Class, v: SemVersion)
    requires ClassOk(xs, lines, c)
  {
    match c
    case Released(p) => !v.HasPrerelease() && LiesAt(xs, p, v)
    case OnLine(p, line) => v.HasPrerelease() && LineOf(v) == line && LiesAt(xs, p, v)
    case Stray => v.HasPrerelease() && LineOf(v) !in lines
  }

  /** The interval holds the piece, by its bounds. */
  predicate Holds(iv: VersionRange.VersionInterval, xs: seq<Coord>, p: Piece)
    requires PieceOk(xs, p)
  {
    match p
    case Cell(i) => LowReaches(iv.low, xs[i]) && HighReaches(iv.high, xs[i + 1])
    case Point(i) => ContainsBound(Precedence, iv, xs[i].version)
  }

  /** Whether a range accepts a class, from its bounds alone. */
  predicate Takes(range: Option<VersionRange.Range>, xs: seq<Coord>, lines: seq<Line>, c: Class)
    requires ClassOk(xs, lines, c)
  {
    range.None?
    || match c
       case Released(p) => exists k :: 0 <= k < |range.value| && Holds(range.value[k], xs, p)
       case OnLine(p, line) => exists k :: 0 <= k < |range.value| && Holds(range.value[k], xs, p) && AdmitsLine(range.value[k].low, line)
       case Stray => false
  }

  lemma HoldsIsMembership(xs: seq<Coord>, range: VersionRange.Range, k: nat, p: Piece, v: SemVersion)
    requires GridOk(xs) && BoundsOnGrid(xs, Some(range)) && k < |range|
    requires PieceOk(xs, p) && LiesAt(xs, p, v)
    ensures Holds(range[k], xs, p) <==> ContainsBound(Precedence, range[k], v)
  {
    var iv := range[k];
    assert iv in range;
    match p
    case Cell(i) =>
      if Holds(iv, xs, p) { CellInsideInterval(xs, i, iv, v); }
      if ContainsBound(Precedence, iv, v) { IntervalReachesCell(xs, i, iv, v); }
    case Point(i) =>
      PointOfInterval(iv, xs[i].version, v);
  }

  /** All versions of a class are accepted by a range, or none is. */
  lemma TakesIsMembership(xs: seq<Coord>, lines: seq<Line>, range: Option<VersionRange.Range>, c: Class, v: SemVersion)
    requires GridOk(xs) && BoundsOnGrid(xs, range) && KnowsLines(lines, range)
    requires ClassOk(xs, lines, c) && LiesIn(xs, lines, c, v)
    ensures Takes(range, xs, lines, c) <==> VersionMatches(range, v)
  {
    if range.Some? {
      forall k | 0 <= k < |range.value| && !c.Stray?
        ensures Holds(range.value[k], xs, c.piece) <==> ContainsBound(Precedence, range.value[k], v)
      {
        HoldsIsMembership(xs, range.value, k, c.piece, v);
      }
      hide Holds, ContainsBound, GridOk, BoundsOnGrid;
      assert forall k :: 0 <= k < |range.value| ==> range.value[k] in range.value;
    }
  }

  // ----- The finitely many classes -----

  function PiecesTo(xs: seq<Coord>, n: nat): (ps: seq<Piece>)
    requires n <= |xs|
  {
    if n == 0 then []
    else PiecesTo(xs, n - 1) + (if n < |xs| then [Cell(n - 1)] else []) + (if xs[n - 1].Finite? then [Point(n - 1)] else [])
  }

  function ClassesOn(ps: seq<Piece>, lines: seq<Line>): seq<Class> {
    if lines == [] then []
    else seq(|ps|, i requires 0 <= i < |ps| => OnLine(ps[i], lines[0])) + ClassesOn(ps, lines[1..])
  }

  function Classes(xs: seq<Coord>, lines: seq<Line>): seq<Class> {
    var ps := PiecesTo(xs, |xs|);
    seq(|ps|, i requires 0 <= i < |ps| => Released(ps[i])) + ClassesOn(ps, lines) + [Stray]
  }

  lemma {:induction false} PiecesToMembers(xs: seq<Coord>, n: nat)
    requires n <= |xs|
    ensures forall p :: p in PiecesTo(xs, n) <==> PieceOk(xs, p) && p.i < n
  {
    if n > 0 { PiecesToMembers(xs, n - 1); }
  }

  lemma {:induction false} ClassesOnMembers(ps: seq<Piece>, lines: seq<Line>)
    ensures forall c :: c in ClassesOn(ps, lines) <==> c.OnLine? && c.piece in ps && c.line in lines
  {
    if lines != [] {
      ClassesOnMembers(ps, lines[1..]);
      var first := seq(|ps|, i requires 0 <= i < |ps| => OnLine(ps[i], lines[0]));
      forall c ensures c in first <==> c.OnLine? && c.piece in ps && c.line == lines[0] {
        if c.OnLine? && c.piece in ps && c.line == lines[0] {
          var i :| 0 <= i < |ps| && ps[i] == c.piece;
          assert first[i] == c;
        }
      }
    }
  }

  lemma ClassesMembers(xs: seq<Coord>, lines: seq<Line>)
    ensures forall c :: c in Classes(xs, lines) <==> ClassOk(xs, lines, c)
  {
    var ps := PiecesTo(xs, |xs|);
    PiecesToMembers(xs, |xs|);
    ClassesOnMembers(ps, lines);
    var first := seq(|ps|, i requires 0 <= i < |ps| => Released(ps[i]));
    forall c ensures c in first <==> c.Released? && c.piece in ps {
      if c.Released? && c.piece in ps {
        var i :| 0 <= i < |ps| && ps[i] == c.piece;
        assert first[i] == c;
      }
    }
  }

  lemma FindClass(xs: seq<Coord>, lines: seq<Line>, v: SemVersion) returns (c: Class)
    requires GridOk(xs)
    ensures ClassOk(xs, lines, c) && LiesIn(xs, lines, c, v)
  {
    var p := FindPiece(xs, v);
    c := if !v.HasPrerelease() then Released(p) else if LineOf(v) in lines then OnLine(p, LineOf(v)) else Stray;
  }

  // ----- Which classes have a version in them -----

  function NextRelease(v: SemVersion): Option<SemVersion> {
    if v.HasPrerelease() then Some(Release(v.major, v.minor, v.patch))
    else if v.patch + 1 < U32_BOUND then Some(Release(v.major, v.minor, v.patch + 1))
    else if v.minor + 1 < U32_BOUND then Some(Release(v.major, v.minor + 1, 0))
    else if v.major + 1 < U32_BOUND then Some(Release(v.major + 1, 0, 0))
    else None
  }

  /** The least release past a coordinate. */
  function FirstRelease(c: Coord): Option<SemVersion> {
    match c
    case NegInf => Some(Release(0, 0, 0))
    case Finite(v) => NextRelease(v)
    case PosInf => None
  }

  predicate LineBefore(a: Line, b: Line) {
    a.major < b.major || (a.major == b.major && (a.minor < b.minor || (a.minor == b.minor && a.patch < b.patch)))
  }

  /** The least prerelease of a line past a coordinate. */
  function FirstOnLine(c: Coord, line: Line): Option<SemVersion> {
    var start := Release(line.major, line.minor, line.patch);
    match c
    case NegInf => Some(start.(prerelease := ["0"]))
    case Finite(v) =>
      if LineBefore(LineOf(v), line) then Some(start.(prerelease := ["0"]))
      else if LineOf(v) == line && v.HasPrerelease() then Some(start.(prerelease := v.prerelease + ["0"]))
      else None
    case PosInf => None
  }

  predicate HasRoom(first: Option<SemVersion>, hi: Coord) {
    first.Some? && CoordBefore(Finite(first.value), hi)
  }

  predicate FreeLine(lines: seq<Line>) {
    exists a, b, c | 0 <= a < U32_BOUND && 0 <= b < U32_BOUND && 0 <= c < U32_BOUND :: Line(a, b, c) !in lines
  }

  /** Whether some version is in the class, from the coordinates alone. */
  predicate Inhabited(xs: seq<Coord>, lines: seq<Line>, c: Class)
    requires ClassOk(xs, lines, c)
  {
    match c
    case Released(Cell(i)) => HasRoom(FirstRelease(xs[i]), xs[i + 1])
    case Released(Point(i)) => !xs[i].version.HasPrerelease()
    case OnLine(Cell(i), line) => HasRoom(FirstOnLine(xs[i], line), xs[i + 1])
    case OnLine(Point(i), line) => xs[i].version.HasPrerelease() && LineOf(xs[i].version) == line
    case Stray => FreeLine(lines)
  }

  lemma FirstReleaseIsLeast(c: Coord, v: SemVersion)
    requires !v.HasPrerelease()
    ensures CoordBefore(c, Finite(v)) <==> FirstRelease(c).Some? && Precedence(FirstRelease(c).value, v) != Greater
    ensures FirstRelease(c).Some? ==> !FirstRelease(c).value.HasPrerelease()
  {
  }

  /** "0" is the least identifier. */
  lemma ZeroIsLeast(s: string)
    ensures CompareIdentifier("0", s) != Greater
  {
    assert IsAllDigits("0");
    if IsAllDigits(s) && |s| == 1 {
      assert Lex(CompareChar, "0", s) == if '0' < s[0] then Less else Lex(CompareChar, "0"[1..], s[1..]);
    }
  }

  /** Nothing lies between a prerelease and the same prerelease with one more "0". */
  lemma {:induction false} ZeroFollows(a: seq<string>, b: seq<string>)
    ensures Lex(CompareIdentifier, a, b) == Less <==> Lex(CompareIdentifier, a + ["0"], b) != Greater
  {
    CompareIdentifierIsTotal();
    var more := a + ["0"];
    if a == [] {
      assert more == ["0"];
      if b != [] {
        ZeroIsLeast(b[0]);
        assert more[1..] == [];
        assert Lex(CompareIdentifier, [], b[1..]) != Greater;
      }
    } else if b != [] {
      assert more[0] == a[0] && more[1..] == a[1..] + ["0"];
      ZeroFollows(a[1..], b[1..]);
    }
  }

  lemma FirstOnLineIsLeast(c: Coord, v: SemVersion)
    requires v.HasPrerelease()
    ensures var first := FirstOnLine(c, LineOf(v));
      && (CoordBefore(c, Finite(v)) <==> first.Some? && Precedence(first.value, v) != Greater)
      && (first.Some? ==> first.value.HasPrerelease() && LineOf(first.value) == LineOf(v))
  {
    ZeroFollows([], v.prerelease);
    assert [] + ["0"] == ["0"];
    if c.Finite? { ZeroFollows(c.version.prerelease, v.prerelease); }
    hide CompareIdentifier, Lex;
    assert Lex(CompareIdentifier, [], v.prerelease) == Less by { EmptyIsFirst(v.prerelease); }
  }

  lemma EmptyIsFirst(b: seq<string>)
    requires b != []
    ensures Lex(CompareIdentifier, [], b) == Less
  {
  }

  /** The cell holds a version of its kind exactly when the least one past its start is before its end. */
  lemma RoomInCell(lo: Coord, hi: Coord, first: Option<SemVersion>, v: SemVersion)
    requires CoordBefore(lo, Finite(v)) <==> first.Some? && Precedence(first.value, v) != Greater
    requires CoordBefore(lo, Finite(v)) && CoordBefore(Finite(v), hi)
    ensures HasRoom(first, hi)
  {
    CompareCoordIsTotal();
    assert CompareCoord(Finite(first.value), Finite(v)) == Precedence(first.value, v);
    assert Composes(CompareCoord(Finite(first.value), Finite(v)), CompareCoord(Finite(v), hi), CompareCoord(Finite(first.value), hi));
  }

  lemma InhabitedHasVersion(xs: seq<Coord>, lines: seq<Line>, c: Class) returns (v: SemVersion)
    requires GridOk(xs) && ClassOk(xs, lines, c) && Inhabited(xs, lines, c)
    ensures LiesIn(xs, lines, c, v)
  {
    PrecedenceIsTotal();
    match c
    case Released(Cell(i)) =>
      v := FirstRelease(xs[i]).value;
      FirstReleaseIsLeast(xs[i], Release(0, 0, 0));
      FirstReleaseIsLeast(xs[i], v);
    case Released(Point(i)) =>
      v := xs[i].version;
    case OnLine(Cell(i), line) =>
      v := FirstOnLine(xs[i], line).value;
      FirstOnLineIsLeast(xs[i], v);
    case OnLine(Point(i), line) =>
      v := xs[i].version;
    case Stray =>
      var major, minor, patch :| 0 <= major < U32_BOUND && 0 <= minor < U32_BOUND && 0 <= patch < U32_BOUND
                                 && Line(major, minor, patch) !in lines;
      v := SemVersion(major, minor, patch, ["0"], "");
      assert LineOf(v) == Line(major, minor, patch);
  }

  lemma VersionInhabits(xs: seq<Coord>, lines: seq<Line>, c: Class, v: SemVersion)
    requires GridOk(xs) && ClassOk(xs, lines, c) && LiesIn(xs, lines, c, v)
    ensures Inhabited(xs, lines, c)
  {
    PrecedenceIsTotal();
    match c
    case Released(Cell(i)) =>
      FirstReleaseIsLeast(xs[i], v);
      RoomInCell(xs[i], xs[i + 1], FirstRelease(xs[i]), v);
    case Released(Point(i)) =>
      assert xs[i].version.(build := "") == v.(build := "");
    case OnLine(Cell(i), line) =>
      FirstOnLineIsLeast(xs[i], v);
      RoomInCell(xs[i], xs[i + 1], FirstOnLine(xs[i], line), v);
    case OnLine(Point(i), line) =>
      assert xs[i].version.(build := "") == v.(build := "");
      assert xs[i].version.prerelease == xs[i].version.(build := "").prerelease == v.(build := "").prerelease;
    case Stray =>
      assert Line(v.major, v.minor, v.patch) !in lines;
  }

  // ----- Planes -----

  /** Acceptance by the selectors themselves, prerelease admission included. */
  predicate Accepts(p: Plane, v: SemVersion, w: SemVersion) {
    VersionMatches(p.left, v) && VersionMatches(p.right, w)
  }

  ghost predicate SomeAccepts(candidates: seq<Plane>, v: SemVersion, w: SemVersion) {
    exists k :: 0 <= k < |candidates| && Accepts(candidates[k], v, w)
  }

  /** One side of the comparison: its grid and its known lines. */
  datatype Axis = Axis(xs: seq<Coord>, lines: seq<Line>)

  function AxisOf(ranges: seq<Option<VersionRange.Range>>): Axis {
    Axis(Grid(ranges), LinesOfAll(ranges))
  }

  predicate OnAxis(x: Axis, c: Class) {
    ClassOk(x.xs, x.lines, c)
  }

  predicate TakesPair(p: Plane, x: Axis, y: Axis, a: Class, b: Class)
    requires OnAxis(x, a) && OnAxis(y, b)
  {
    Takes(p.left, x.xs, x.lines, a) && Takes(p.right, y.xs, y.lines, b)
  }

  predicate SomeTakesPair(candidates: seq<Plane>, x: Axis, y: Axis, a: Class, b: Class)
    requires OnAxis(x, a) && OnAxis(y, b)
  {
    exists k :: 0 <= k < |candidates| && TakesPair(candidates[k], x, y, a, b)
  }

  /** If the target takes the pair of classes at all, and versions lie there, so does a candidate. */
  predicate PairIsCovered(target: Plane, candidates: seq<Plane>, x: Axis, y: Axis, a: Class, b: Class)
    requires OnAxis(x, a) && OnAxis(y, b)
  {
    Inhabited(x.xs, x.lines, a) && Inhabited(y.xs, y.lines, b) && TakesPair(target, x, y, a, b)
    ==> SomeTakesPair(candidates, x, y, a, b)
  }

  /** The pairs the walk does look at: releases strictly between bounds on both sides. */
  predicate IsWalked(a: Class, b: Class) {
    a.Released? && a.piece.Cell? && b.Released? && b.piece.Cell?
  }

  /** What the walk would have to check besides: every pair of classes with a bound or a prerelease in it. */
  predicate GapsCovered(target: Plane, candidates: seq<Plane>) {
    var x, y := AxisOf(Lefts(target, candidates)), AxisOf(Rights(target, candidates));
    forall a, b | a in Classes(x.xs, x.lines) && b in Classes(y.xs, y.lines) ::
      OnAxis(x, a) && OnAxis(y, b) && !IsWalked(a, b) ==> PairIsCovered(target, candidates, x, y, a, b)
  }

  ghost predicate AxesFit(target: Plane, candidates: seq<Plane>, x: Axis, y: Axis) {
    && GridOk(x.xs) && GridOk(y.xs)
    && BoundsOnGrid(x.xs, target.left) && BoundsOnGrid(y.xs, target.right)
    && KnowsLines(x.lines, target.left) && KnowsLines(y.lines, target.right)
    && forall k :: 0 <= k < |candidates| ==>
         && BoundsOnGrid(x.xs, candidates[k].left) && BoundsOnGrid(y.xs, candidates[k].right)
         && KnowsLines(x.lines, candidates[k].left) && KnowsLines(y.lines, candidates[k].right)
  }

  lemma AxesDoFit(target: Plane, candidates: seq<Plane>)
    ensures AxesFit(target, candidates, AxisOf(Lefts(target, candidates)), AxisOf(Rights(target, candidates)))
  {
    var lefts, rights := Lefts(target, candidates), Rights(target, candidates);
    GridsFit(target, candidates);
    LinesOfAllKnows(lefts);
    LinesOfAllKnows(rights);
    hide GridOk, BoundsOnGrid, KnowsLines, Grid;
    assert lefts[0] == target.left && rights[0] == target.right;
    forall k | 0 <= k < |candidates|
      ensures KnowsLines(LinesOfAll(lefts), candidates[k].left) && KnowsLines(LinesOfAll(rights), candidates[k].right)
    {
      assert lefts[k + 1] == candidates[k].left && rights[k + 1] == candidates[k].right;
    }
  }

  /** A pair of versions stands for its pair of classes. */
  lemma PairMembership(p: Plane, x: Axis, y: Axis, a: Class, b: Class, v: SemVersion, w: SemVersion)
    requires GridOk(x.xs) && GridOk(y.xs) && BoundsOnGrid(x.xs, p.left) && BoundsOnGrid(y.xs, p.right)
    requires KnowsLines(x.lines, p.left) && KnowsLines(y.lines, p.right)
    requires OnAxis(x, a) && OnAxis(y, b) && LiesIn(x.xs, x.lines, a, v) && LiesIn(y.xs, y.lines, b, w)
    ensures TakesPair(p, x, y, a, b) <==> Accepts(p, v, w)
  {
    hide Takes, GridOk, BoundsOnGrid, KnowsLines, LiesIn, VersionMatches, ClassOk;
    assert ClassOk(x.xs, x.lines, a) && ClassOk(y.xs, y.lines, b);
    TakesIsMembership(x.xs, x.lines, p.left, a, v);
    TakesIsMembership(y.xs, y.lines, p.right, b, w);
  }

  lemma PairOfVersions(target: Plane, candidates: seq<Plane>, x: Axis, y: Axis, a: Class, b: Class, v: SemVersion, w: SemVersion)
    requires AxesFit(target, candidates, x, y)
    requires OnAxis(x, a) && OnAxis(y, b) && LiesIn(x.xs, x.lines, a, v) && LiesIn(y.xs, y.lines, b, w)
    ensures TakesPair(target, x, y, a, b) <==> Accepts(target, v, w)
    ensures SomeTakesPair(candidates, x, y, a, b) <==> SomeAccepts(candidates, v, w)
    ensures PairIsCovered(target, candidates, x, y, a, b) <==> (Accepts(target, v, w) ==> SomeAccepts(candidates, v, w))
  {
    hide GridOk, BoundsOnGrid, KnowsLines, LiesIn, Takes, VersionMatches, Inhabited, Accepts, TakesPair;
    PairMembership(target, x, y, a, b, v, w);
    forall k | 0 <= k < |candidates| ensures TakesPair(candidates[k], x, y, a, b) <==> Accepts(candidates[k], v, w) {
      PairMembership(candidates[k], x, y, a, b, v, w);
    }
    VersionInhabits(x.xs, x.lines, a, v);
    VersionInhabits(y.xs, y.lines, b, w);
  }

  /** Whatever version pair the target accepts, some candidate accepts. */
  ghost predicate AllAccepted(target: Plane, candidates: seq<Plane>) {
    forall v, w :: Accepts(target, v, w) ==> SomeAccepts(candidates, v, w)
  }

  ghost predicate AllPairsCovered(target: Plane, candidates: seq<Plane>, x: Axis, y: Axis) {
    forall a, b :: OnAxis(x, a) && OnAxis(y, b) ==> PairIsCovered(target, candidates, x, y, a, b)
  }

  lemma OnePairIsRight(target: Plane, candidates: seq<Plane>, x: Axis, y: Axis, a: Class, b: Class)
    requires AxesFit(target, candidates, x, y) && OnAxis(x, a) && OnAxis(y, b)
    requires AllAccepted(target, candidates)
    ensures PairIsCovered(target, candidates, x, y, a, b)
  {
    hide AxesFit, LiesIn, Takes, Accepts, SomeAccepts, TakesPair, SomeTakesPair;
    if Inhabited(x.xs, x.lines, a) && Inhabited(y.xs, y.lines, b) {
      assert GridOk(x.xs) && GridOk(y.xs) by { FitGrids(target, candidates, x, y); }
      var v := InhabitedHasVersion(x.xs, x.lines, a);
      var w := InhabitedHasVersion(y.xs, y.lines, b);
      hide Inhabited;
      PairOfVersions(target, candidates, x, y, a, b, v, w);
    }
  }

  lemma FitGrids(target: Plane, candidates: seq<Plane>, x: Axis, y: Axis)
    requires AxesFit(target, candidates, x, y)
    ensures GridOk(x.xs) && GridOk(y.xs)
  {
  }

  /** The exact meaning of acceptance by some candidate, version by version, as a check of finitely many classes. */
  lemma AcceptanceByClasses(target: Plane, candidates: seq<Plane>)
    ensures AllAccepted(target, candidates)
            <==> AllPairsCovered(target, candidates, AxisOf(Lefts(target, candidates)), AxisOf(Rights(target, candidates)))
  {
    hide AxisOf, Accepts, SomeAccepts, PairIsCovered, AxesFit, LiesIn;
    var x, y := AxisOf(Lefts(target, candidates)), AxisOf(Rights(target, candidates));
    AxesDoFit(target, candidates);
    FitGrids(target, candidates, x, y);
    if AllAccepted(target, candidates) {
      forall a, b | OnAxis(x, a) && OnAxis(y, b) ensures PairIsCovered(target, candidates, x, y, a, b) {
        OnePairIsRight(target, candidates, x, y, a, b);
      }
    }
    if AllPairsCovered(target, candidates, x, y) {
      forall v, w | Accepts(target, v, w) ensures SomeAccepts(candidates, v, w) {
        var a := FindClass(x.xs, x.lines, v);
        var b := FindClass(y.xs, y.lines, w);
        PairOfVersions(target, candidates, x, y, a, b, v, w);
      }
    }
  }

  lemma CellIsTaken(range: Option<VersionRange.Range>, xs: seq<Coord>, lines: seq<Line>, i: nat)
    requires GridOk(xs) && i + 1 < |xs|
    ensures Takes(range, xs, lines, Released(Cell(i))) <==> RangeCoversCell(range, xs[i], xs[i + 1])
  {
    assert CoordBefore(xs[i], xs[i + 1]);
  }

  /** The pairs the walk looks at are covered when the walk says so. */
  lemma WalkedPairIsCovered(target: Plane, candidates: seq<Plane>, x: Axis, y: Axis, a: Class, b: Class)
    requires GridOk(x.xs) && GridOk(y.xs) && OnAxis(x, a) && OnAxis(y, b) && IsWalked(a, b)
    requires OpenCellsCovered(target, candidates, x.xs, y.xs)
    ensures PairIsCovered(target, candidates, x, y, a, b)
  {
    var i, j := a.piece.i, b.piece.i;
    CellIsTaken(target.left, x.xs, x.lines, i);
    CellIsTaken(target.right, y.xs, y.lines, j);
    hide GridOk, RangeCoversCell, Takes, Inhabited;
    if TakesPair(target, x, y, a, b) {
      assert CellInside(target, x.xs, y.xs, i, j);
      assert CellCovered(candidates, x.xs, y.xs, i, j);
      var k :| 0 <= k < |candidates| && CellInside(candidates[k], x.xs, y.xs, i, j);
      CellIsTaken(candidates[k].left, x.xs, x.lines, i);
      CellIsTaken(candidates[k].right, y.xs, y.lines, j);
      assert TakesPair(candidates[k], x, y, a, b);
    }
  }

  /** Releases that tie with no bound are walked, so for them a positive answer is right as it stands. */
  lemma UntiedReleasesAreAccepted(target: Plane, candidates: seq<Plane>, maxCells: nat, v: SemVersion, w: SemVersion)
    requires VersionPlaneCovered(target, candidates, maxCells).covered
    requires forall r :: r in Lefts(target, candidates) ==> TiesNoBound(r, v)
    requires forall r :: r in Rights(target, candidates) ==> TiesNoBound(r, w)
    requires !v.HasPrerelease() && !w.HasPrerelease() && Accepts(target, v, w)
    ensures SomeAccepts(candidates, v, w)
  {
    var x, y := AxisOf(Lefts(target, candidates)), AxisOf(Rights(target, candidates));
    AxesDoFit(target, candidates);
    FitGrids(target, candidates, x, y);
    var i := UntiedLiesInCell(Lefts(target, candidates), v);
    var j := UntiedLiesInCell(Rights(target, candidates), w);
    hide AxesFit, GridOk, OpenCellsCovered, PairIsCovered, Accepts, SomeAccepts, Grid, LinesOfAll, TiesNoBound;
    WalkedPairIsCovered(target, candidates, x, y, Released(Cell(i)), Released(Cell(j)));
    PairOfVersions(target, candidates, x, y, Released(Cell(i)), Released(Cell(j)), v, w);
  }

  lemma CellTiesNoBound(xs: seq<Coord>, range: Option<VersionRange.Range>, i: nat, v: SemVersion)
    requires GridOk(xs) && BoundsOnGrid(xs, range) && i + 1 < |xs| && LiesAt(xs, Cell(i), v)
    ensures TiesNoBound(range, v)
  {
    CompareCoordIsTotal();
    if range.Some? {
      forall iv | iv in range.value
        ensures (iv.low.At? ==> Precedence(iv.low.value, v) != Equal) && (iv.high.At? ==> Precedence(iv.high.value, v) != Equal)
      {
        if iv.low.At? { BoundIsNotInCell(xs, i, iv.low.value, v); }
        if iv.high.At? { BoundIsNotInCell(xs, i, iv.high.value, v); }
      }
    }
  }

  lemma BoundIsNotInCell(xs: seq<Coord>, i: nat, u: SemVersion, v: SemVersion)
    requires GridOk(xs) && i + 1 < |xs| && LiesAt(xs, Cell(i), v) && HasCoord(xs, Finite(u))
    ensures Precedence(u, v) != Equal
  {
    CompareCoordIsTotal();
    CoordBelowCell(xs, i, Finite(u), v);
    assert Composes(CompareCoord(xs[i], Finite(v)), CompareCoord(Finite(v), Finite(u)), CompareCoord(xs[i], Finite(u)));
  }

  predicate Includes(wide: seq<Plane>, narrow: seq<Plane>) {
    forall p :: p in narrow ==> p in wide
  }

  lemma WiderAccepts(wide: seq<Plane>, narrow: seq<Plane>, v: SemVersion, w: SemVersion)
    requires Includes(wide, narrow) && SomeAccepts(narrow, v, w)
    ensures SomeAccepts(wide, v, w)
  {
    hide Accepts;
    var k :| 0 <= k < |narrow| && Accepts(narrow[k], v, w);
    assert narrow[k] in wide;
    var m :| 0 <= m < |wide| && wide[m] == narrow[k];
    assert Accepts(wide[m], v, w);
  }

  /** A pair of cells of the wider grid lies within a pair of cells that was walked. */
  lemma WalkedPairIsAccepted(target: Plane, narrow: seq<Plane>, wide: seq<Plane>, maxCells: nat, x: Axis, y: Axis, i: nat, j: nat,
                             v: SemVersion, w: SemVersion)
    requires VersionPlaneCovered(target, narrow, maxCells).covered && Includes(wide, narrow) && AxesFit(target, wide, x, y)
    requires i + 1 < |x.xs| && j + 1 < |y.xs| && LiesAt(x.xs, Cell(i), v) && LiesAt(y.xs, Cell(j), w)
    requires !v.HasPrerelease() && !w.HasPrerelease() && Accepts(target, v, w)
    ensures SomeAccepts(wide, v, w)
  {
    hide VersionPlaneCovered, GridOk, BoundsOnGrid, KnowsLines, LiesAt, TiesNoBound, Accepts, SomeAccepts;
    forall k | 0 <= k < |narrow| ensures TiesNoBound(narrow[k].left, v) && TiesNoBound(narrow[k].right, w) {
      assert narrow[k] in wide;
      var m :| 0 <= m < |wide| && wide[m] == narrow[k];
      CellTiesNoBound(x.xs, wide[m].left, i, v);
      CellTiesNoBound(y.xs, wide[m].right, j, w);
    }
    CellTiesNoBound(x.xs, target.left, i, v);
    CellTiesNoBound(y.xs, target.right, j, w);
    UntiedReleasesAreAccepted(target, narrow, maxCells, v, w);
    WiderAccepts(wide, narrow, v, w);
  }

  lemma WiderPairIsCovered(target: Plane, narrow: seq<Plane>, wide: seq<Plane>, maxCells: nat, x: Axis, y: Axis, a: Class, b: Class)
    requires VersionPlaneCovered(target, narrow, maxCells).covered && Includes(wide, narrow) && AxesFit(target, wide, x, y)
    requires OnAxis(x, a) && OnAxis(y, b) && IsWalked(a, b)
    ensures PairIsCovered(target, wide, x, y, a, b)
  {
    FitGrids(target, wide, x, y);
    hide VersionPlaneCovered, AxesFit, GridOk, Inhabited, LiesAt, TakesPair, SomeTakesPair, Accepts, SomeAccepts, Includes;
    if Inhabited(x.xs, x.lines, a) && Inhabited(y.xs, y.lines, b) {
      var v := InhabitedHasVersion(x.xs, x.lines, a);
      var w := InhabitedHasVersion(y.xs, y.lines, b);
      PairOfVersions(target, wide, x, y, a, b, v, w);
      if Accepts(target, v, w) {
        WalkedPairIsAccepted(target, narrow, wide, maxCells, x, y, a.piece.i, b.piece.i, v, w);
      }
    }
  }

  /**
   * The walk was over some candidates; let there be these or more. Then every version pair the
   * target accepts, prereleases included, is accepted by one of them exactly when the classes
   * that no walk looks at are covered.
   */
  lemma CoveredIsRightIffGapsCovered(target: Plane, narrow: seq<Plane>, wide: seq<Plane>, maxCells: nat)
    requires VersionPlaneCovered(target, narrow, maxCells).covered && Includes(wide, narrow)
    ensures AllAccepted(target, wide) <==> GapsCovered(target, wide)
  {
    var x, y := AxisOf(Lefts(target, wide)), AxisOf(Rights(target, wide));
    AcceptanceByClasses(target, wide);
    AxesDoFit(target, wide);
    ClassesMembers(x.xs, x.lines);
    ClassesMembers(y.xs, y.lines);
    hide VersionPlaneCovered, AxisOf, AllAccepted, PairIsCovered, AxesFit, Classes, ClassOk, IsWalked, Includes;
    if GapsCovered(target, wide) {
      forall a, b | OnAxis(x, a) && OnAxis(y, b) ensures PairIsCovered(target, wide, x, y, a, b) {
        if IsWalked(a, b) { WiderPairIsCovered(target, narrow, wide, maxCells, x, y, a, b); }
      }
    }
  }
}
