/** The containment geometry of the cell diagram: the distance helper and
    the two correction rules that keep a node inside a cellular component
    (a disc, or an annulus when rmin > 0) and outside the cell.

    Numbers are reals and rounding is ignored. `Math.sqrt` is passed in as
    a function `sqrt` about which only `IsSqrt` is known. A correction divides
    by the point's distance from a centre, which JavaScript turns into NaN
    when that distance is 0; the `...Defined` predicates exclude exactly
    those inputs. */
module CellGeometry {
  import opened Seqs

  datatype Point = Point(x: real, y: real)

  /** A cellular component as the cell table stores it: centre, outer
      radius and inner radius (0 for a solid disc). */
  datatype Component = Component(cx: real, cy: real, rmax: real, rmin: real)

  /** The cell table (`this.cell`): the component of every name, and the
      names in the order in which they were first stored, which is the order
      `Object.keys` reports them in. */
  datatype CellTable = CellTable(keys: seq<string>, entries: map<string, Component>)

  /** Radius of a drawn node. */
  const NodeRadius: real := 5.0
  /** Margin kept between a node and a boundary it must not cross. */
  const Padding: real := 2.0 * NodeRadius
  /** The viewport height used by the fallback clamp (`h = 800`). */
  const ViewportHeight: real := 800.0

  ghost predicate IsSqrt(sqrt: real -> real)
  {
    forall v :: 0.0 <= v ==> 0.0 <= sqrt(v) && sqrt(v) * sqrt(v) == v
  }

  ghost predicate ValidTable(t: CellTable)
  {
    NoDuplicates(t.keys) && forall k :: k in t.entries <==> k in t.keys
  }

  /** `cell[k] = v`: a new name goes to the end of the key order, a known
      name keeps its place. */
  function Put(t: CellTable, k: string, v: Component): (r: CellTable)
    ensures ValidTable(t) ==> ValidTable(r)
    ensures r.entries == t.entries[k := v]
    ensures r.keys == if k in t.entries then t.keys else t.keys + [k]
  {
    if k in t.entries then CellTable(t.keys, t.entries[k := v])
    else CellTable(t.keys + [k], t.entries[k := v])
  }

  function SquaredDistance(x1: real, y1: real, x2: real, y2: real): real
  {
    (x1 - x2) * (x1 - x2) + (y1 - y2) * (y1 - y2)
  }

  lemma SquareNonNegative(a: real)
    ensures 0.0 <= a * a
  {
  }

  /** Squaring is strictly increasing on the non-negative reals. */
  lemma SquareLess(a: real, s: real)
    requires 0.0 <= a < s
    ensures a * a < s * s
  {
    ProductPositive(s - a, s + a);
  }

  lemma ProductPositive(u: real, v: real)
    requires 0.0 < u && 0.0 < v
    ensures 0.0 < u * v
  {
  }

  /** `calculateDistance`: the square root of the squared distance. */
  function CalculateDistance(sqrt: real -> real, x1: real, y1: real, x2: real, y2: real): real
    requires IsSqrt(sqrt)
  {
    SquareNonNegative(x1 - x2);
    SquareNonNegative(y1 - y2);
    sqrt(SquaredDistance(x1, y1, x2, y2))
  }

  /** The distance is the Euclidean one: the non-negative root of the
      squared distance; a point is at distance 0 from itself. */
  lemma DistanceIsRoot(sqrt: real -> real, x1: real, y1: real, x2: real, y2: real)
    requires IsSqrt(sqrt)
    ensures var d := CalculateDistance(sqrt, x1, y1, x2, y2);
      0.0 <= d && d * d == SquaredDistance(x1, y1, x2, y2)
    ensures x1 == x2 && y1 == y2 ==> CalculateDistance(sqrt, x1, y1, x2, y2) == 0.0
  {
    SquareNonNegative(x1 - x2);
    SquareNonNegative(y1 - y2);
    if x1 == x2 && y1 == y2 {
      assert SquaredDistance(x1, y1, x2, y2) == 0.0 * 0.0;
      SqrtOfSquare(sqrt, 0.0);
    }
  }

  /** Distance of (x, y) from a component's centre. */
  function DistanceTo(sqrt: real -> real, x: real, y: real, c: Component): real
    requires IsSqrt(sqrt)
  {
    CalculateDistance(sqrt, x, y, c.cx, c.cy)
  }

  /** `(k * (x - cx) + cx, k * (y - cy) + cy)`: the point whose offset from
      the centre is k times that of (x, y). */
  function Scale(x: real, y: real, cx: real, cy: real, k: real): Point
  {
    Point(k * (x - cx) + cx, k * (y - cy) + cy)
  }

  /** The square root of a square is the non-negative root. */
  lemma SqrtOfSquare(sqrt: real -> real, a: real)
    requires IsSqrt(sqrt) && 0.0 <= a
    ensures sqrt(a * a) == a
  {
    var s := sqrt(a * a);
    SquareNonNegative(a);
    if s > a {
      SquareLess(a, s);
    } else if s < a {
      SquareLess(s, a);
    }
  }

  /** Moving (x, y) radially so that its offset from the centre is scaled
      by target / R, where R is its distance, puts it at distance target. */
  lemma ProjectionDistance(sqrt: real -> real, x: real, y: real, cx: real, cy: real, target: real)
    requires IsSqrt(sqrt) && 0.0 <= target
    requires CalculateDistance(sqrt, x, y, cx, cy) != 0.0
    ensures var p := Scale(x, y, cx, cy, target / CalculateDistance(sqrt, x, y, cx, cy));
      CalculateDistance(sqrt, p.x, p.y, cx, cy) == target
  {
    var R := CalculateDistance(sqrt, x, y, cx, cy);
    DistanceIsRoot(sqrt, x, y, cx, cy);
    var k := target / R;
    var p := Scale(x, y, cx, cy, k);
    var a, b := x - cx, y - cy;
    assert p.x - cx == k * a && p.y - cy == k * b;
    assert k * R == target;
    calc {
      SquaredDistance(p.x, p.y, cx, cy);
    ==
      (k * a) * (k * a) + (k * b) * (k * b);
    ==
      (k * k) * (a * a + b * b);
    ==
      (k * k) * (R * R);
    ==
      (k * R) * (k * R);
    ==
      target * target;
    }
    SqrtOfSquare(sqrt, target);
  }

  /** p lies at distance target from c's centre, on the ray from the
      centre through (x, y): its offset is k >= 0 times that of (x, y). */
  ghost predicate MovedRadially(sqrt: real -> real, x: real, y: real, p: Point, c: Component, target: real, k: real)
    requires IsSqrt(sqrt)
  {
    && DistanceTo(sqrt, p.x, p.y, c) == target
    && 0.0 <= k && p.x - c.cx == k * (x - c.cx) && p.y - c.cy == k * (y - c.cy)
  }

  /** The same move stated for a component: the new point lies on the ray
      from the centre through (x, y), at distance target. */
  lemma RadialMove(sqrt: real -> real, x: real, y: real, c: Component, target: real, p: Point)
    returns (k: real)
    requires IsSqrt(sqrt) && 0.0 <= target && DistanceTo(sqrt, x, y, c) != 0.0
    requires p == Scale(x, y, c.cx, c.cy, target / DistanceTo(sqrt, x, y, c))
    ensures MovedRadially(sqrt, x, y, p, c, target, k)
  {
    k := target / DistanceTo(sqrt, x, y, c);
    DistanceIsRoot(sqrt, x, y, c.cx, c.cy);
    ProjectionDistance(sqrt, x, y, c.cx, c.cy, target);
  }

  /** Where a correction divides by the point's distance from the exclusion
      it hits, that distance is not 0. */
  ghost predicate ExclusionsDefined(sqrt: real -> real, x: real, y: real, es: seq<Component>)
    requires IsSqrt(sqrt)
  {
    |es| == 0 ||
    (if DistanceTo(sqrt, x, y, es[0]) < es[0].rmax + Padding
     then DistanceTo(sqrt, x, y, es[0]) != 0.0
     else ExclusionsDefined(sqrt, x, y, es[1..]))
  }

  /** `constraintInsideCell` divides by 0 only when the point sits at the
      centre of the component it is pushed within, or of the exclusion
      that pushes it out. */
  ghost predicate InsideDefined(sqrt: real -> real, x: real, y: real, c: Component, es: seq<Component>)
    requires IsSqrt(sqrt)
  {
    var R := DistanceTo(sqrt, x, y, c);
    if R > c.rmax - Padding || R < c.rmin + Padding then R != 0.0
    else ExclusionsDefined(sqrt, x, y, es)
  }

  /** Lines 28-38: the point is pushed out of the first exclusion whose
      padded disc it lies in; later exclusions are not looked at. */
  function AvoidExclusions(sqrt: real -> real, x: real, y: real, es: seq<Component>): Point
    requires IsSqrt(sqrt) && ExclusionsDefined(sqrt, x, y, es)
  {
    if |es| == 0 then Point(x, y)
    else
      var e := es[0];
      var R := DistanceTo(sqrt, x, y, e);
      if R < e.rmax + Padding then Scale(x, y, e.cx, e.cy, (e.rmax + Padding) / R)
      else AvoidExclusions(sqrt, x, y, es[1..])
  }

  /** What `constraintInsideCell(x, y, c, es)` returns. */
  function InsidePosition(sqrt: real -> real, x: real, y: real, c: Component, es: seq<Component>): Point
    requires IsSqrt(sqrt) && InsideDefined(sqrt, x, y, c, es)
  {
    var R := DistanceTo(sqrt, x, y, c);
    if R > c.rmax - Padding then Scale(x, y, c.cx, c.cy, (c.rmax - Padding) / R)
    else if R < c.rmin + Padding then Scale(x, y, c.cx, c.cy, (c.rmin + Padding) / R)
    else AvoidExclusions(sqrt, x, y, es)
  }

  /** `constraintInsideCell`, with its early-return loop over the exclusions. */
  method ConstraintInsideCell(sqrt: real -> real, x: real, y: real, component: Component, components: seq<Component>)
    returns (p: Point)
    requires IsSqrt(sqrt) && InsideDefined(sqrt, x, y, component, components)
    ensures p == InsidePosition(sqrt, x, y, component, components)
  {
    var R := DistanceTo(sqrt, x, y, component);
    if R > component.rmax - Padding {
      return Scale(x, y, component.cx, component.cy, (component.rmax - Padding) / R);
    } else if R < component.rmin + Padding {
      return Scale(x, y, component.cx, component.cy, (component.rmin + Padding) / R);
    }
    var i := 0;
    while i < |components|
      invariant 0 <= i <= |components|
      invariant ExclusionsDefined(sqrt, x, y, components[i..])
      invariant AvoidExclusions(sqrt, x, y, components[i..]) == AvoidExclusions(sqrt, x, y, components)
    {
      var e := components[i];
      R := DistanceTo(sqrt, x, y, e);
      if R < e.rmax + Padding {
        return Scale(x, y, e.cx, e.cy, (e.rmax + Padding) / R);
      }
      assert components[i..][1..] == components[i + 1..];
      i := i + 1;
    }
    return Point(x, y);
  }

  /** A point beyond rmax - padding is moved along its ray from the centre to
      exactly rmax - padding. */
  lemma InsideOuterClamp(sqrt: real -> real, x: real, y: real, c: Component, es: seq<Component>)
    returns (k: real)
    requires IsSqrt(sqrt) && InsideDefined(sqrt, x, y, c, es)
    requires DistanceTo(sqrt, x, y, c) > c.rmax - Padding && Padding <= c.rmax
    ensures MovedRadially(sqrt, x, y, InsidePosition(sqrt, x, y, c, es), c, c.rmax - Padding, k)
  {
    k := RadialMove(sqrt, x, y, c, c.rmax - Padding, InsidePosition(sqrt, x, y, c, es));
  }

  /** A point within the outer boundary but nearer than rmin + padding is
      moved along its ray to exactly rmin + padding. */
  lemma InsideInnerClamp(sqrt: real -> real, x: real, y: real, c: Component, es: seq<Component>)
    returns (k: real)
    requires IsSqrt(sqrt) && InsideDefined(sqrt, x, y, c, es)
    requires DistanceTo(sqrt, x, y, c) <= c.rmax - Padding
    requires DistanceTo(sqrt, x, y, c) < c.rmin + Padding && 0.0 <= c.rmin
    ensures MovedRadially(sqrt, x, y, InsidePosition(sqrt, x, y, c, es), c, c.rmin + Padding, k)
  {
    k := RadialMove(sqrt, x, y, c, c.rmin + Padding, InsidePosition(sqrt, x, y, c, es));
  }

  /** Inside the annulus, the first exclusion whose padded disc holds the
      point decides: the point is moved along the ray from that exclusion's
      centre to exactly rmax + padding from it. */
  lemma FirstExclusionWins(sqrt: real -> real, x: real, y: real, es: seq<Component>, i: nat)
    returns (k: real)
    requires IsSqrt(sqrt) && ExclusionsDefined(sqrt, x, y, es)
    requires i < |es| && 0.0 <= es[i].rmax
    requires forall j :: 0 <= j < i ==> DistanceTo(sqrt, x, y, es[j]) >= es[j].rmax + Padding
    requires DistanceTo(sqrt, x, y, es[i]) < es[i].rmax + Padding
    ensures MovedRadially(sqrt, x, y, AvoidExclusions(sqrt, x, y, es), es[i], es[i].rmax + Padding, k)
  {
    FirstExclusionDecides(sqrt, x, y, es, i);
    k := RadialMove(sqrt, x, y, es[i], es[i].rmax + Padding, AvoidExclusions(sqrt, x, y, es));
  }

  /** The exclusion at i, the first one hit, alone decides the result. */
  lemma FirstExclusionDecides(sqrt: real -> real, x: real, y: real, es: seq<Component>, i: nat)
    requires IsSqrt(sqrt) && ExclusionsDefined(sqrt, x, y, es)
    requires i < |es|
    requires forall j :: 0 <= j < i ==> DistanceTo(sqrt, x, y, es[j]) >= es[j].rmax + Padding
    requires DistanceTo(sqrt, x, y, es[i]) < es[i].rmax + Padding
    ensures DistanceTo(sqrt, x, y, es[i]) != 0.0
    ensures AvoidExclusions(sqrt, x, y, es)
      == Scale(x, y, es[i].cx, es[i].cy, (es[i].rmax + Padding) / DistanceTo(sqrt, x, y, es[i]))
  {
    SkipClearedExclusions(sqrt, x, y, es, i);
    assert es[i..][0] == es[i];
    HitFirstExclusion(sqrt, x, y, es[i..]);
  }

  /** When the first exclusion is hit, it alone decides the result. */
  lemma HitFirstExclusion(sqrt: real -> real, x: real, y: real, es: seq<Component>)
    requires IsSqrt(sqrt) && ExclusionsDefined(sqrt, x, y, es)
    requires |es| > 0 && DistanceTo(sqrt, x, y, es[0]) < es[0].rmax + Padding
    ensures AvoidExclusions(sqrt, x, y, es)
      == Scale(x, y, es[0].cx, es[0].cy, (es[0].rmax + Padding) / DistanceTo(sqrt, x, y, es[0]))
  {
  }

  /** Exclusions the point is clear of are passed over. */
  lemma {:induction false} SkipClearedExclusions(sqrt: real -> real, x: real, y: real, es: seq<Component>, i: nat)
    requires IsSqrt(sqrt) && ExclusionsDefined(sqrt, x, y, es) && i <= |es|
    requires forall j :: 0 <= j < i ==> DistanceTo(sqrt, x, y, es[j]) >= es[j].rmax + Padding
    ensures ExclusionsDefined(sqrt, x, y, es[i..])
    ensures AvoidExclusions(sqrt, x, y, es[i..]) == AvoidExclusions(sqrt, x, y, es)
  {
    if i > 0 {
      SkipClearedExclusions(sqrt, x, y, es[1..], i - 1);
      assert es[1..][i - 1..] == es[i..];
    }
  }

  /** Inside the annulus and clear of every exclusion, the point is returned
      unchanged. */
  lemma {:induction false} NoExclusionKeepsPoint(sqrt: real -> real, x: real, y: real, es: seq<Component>)
    requires IsSqrt(sqrt)
    requires forall j :: 0 <= j < |es| ==> DistanceTo(sqrt, x, y, es[j]) >= es[j].rmax + Padding
    ensures ExclusionsDefined(sqrt, x, y, es) && AvoidExclusions(sqrt, x, y, es) == Point(x, y)
  {
    if |es| > 0 {
      NoExclusionKeepsPoint(sqrt, x, y, es[1..]);
    }
  }

  /** A component wide enough for a padded node: rmin >= 0 and
      rmax - rmin >= 2 * padding. */
  predicate Roomy(c: Component)
  {
    0.0 <= c.rmin && 2.0 * Padding <= c.rmax - c.rmin
  }

  /** Without exclusions, the corrected point lies in the padded annulus
      rmin + padding <= distance <= rmax - padding. */
  lemma InsideContained(sqrt: real -> real, x: real, y: real, c: Component)
    requires IsSqrt(sqrt) && InsideDefined(sqrt, x, y, c, []) && Roomy(c)
    ensures var p := InsidePosition(sqrt, x, y, c, []);
      c.rmin + Padding <= DistanceTo(sqrt, p.x, p.y, c) <= c.rmax - Padding
  {
    var R := DistanceTo(sqrt, x, y, c);
    if R > c.rmax - Padding {
      var _ := InsideOuterClamp(sqrt, x, y, c, []);
    } else if R < c.rmin + Padding {
      var _ := InsideInnerClamp(sqrt, x, y, c, []);
    }
  }

  /** Without exclusions, correcting an already corrected point changes
      nothing. */
  lemma InsideIdempotent(sqrt: real -> real, x: real, y: real, c: Component)
    requires IsSqrt(sqrt) && InsideDefined(sqrt, x, y, c, []) && Roomy(c)
    ensures var p := InsidePosition(sqrt, x, y, c, []);
      InsideDefined(sqrt, p.x, p.y, c, []) && InsidePosition(sqrt, p.x, p.y, c, []) == p
  {
    InsideContained(sqrt, x, y, c);
  }

  /** The border the outside rule keeps nodes away from: the cell wall if
      the cell has one, else the plasma membrane. */
  function Border(cell: CellTable): Component
    requires "cell_wall" in cell.entries || "plasma_membrane" in cell.entries
  {
    if "cell_wall" in cell.entries then cell.entries["cell_wall"] else cell.entries["plasma_membrane"]
  }

  /** `constraintOutsideCell` returns normally. It fails outright when the
      cell has neither border, and divides by 0 for a point at the border's
      centre. Away from the border, the low-side branches of the viewport
      clamp (lines 57-58) assign the undeclared `xt` and `yt`. The file is an
      ES module, so its code is strict and that assignment throws a
      ReferenceError: a point left of or above the padding line throws. */
  ghost predicate OutsideDefined(sqrt: real -> real, x: real, y: real, cell: CellTable)
    requires IsSqrt(sqrt)
  {
    ("cell_wall" in cell.entries || "plasma_membrane" in cell.entries) &&
    var b := Border(cell);
    var R := DistanceTo(sqrt, x, y, b);
    if R < b.rmax + Padding then R != 0.0 else Padding <= x && Padding <= y
  }

  /** What `constraintOutsideCell(x, y, cell)` returns. Away from the
      border, x is kept: the width `w` is declared but never assigned, so
      `x > w - padding` compares with NaN and is false. y is capped at
      800 - padding. */
  function ConstraintOutsideCell(sqrt: real -> real, x: real, y: real, cell: CellTable): Point
    requires IsSqrt(sqrt) && OutsideDefined(sqrt, x, y, cell)
  {
    var b := Border(cell);
    var R := DistanceTo(sqrt, x, y, b);
    if R < b.rmax + Padding then Scale(x, y, b.cx, b.cy, (b.rmax + Padding) / R)
    else Point(x, if y > ViewportHeight - Padding then ViewportHeight - Padding else y)
  }

  /** A point within rmax + padding of the border (the cell wall when
      present, else the plasma membrane) is pushed along its ray to exactly
      that distance. */
  lemma OutsidePushOut(sqrt: real -> real, x: real, y: real, cell: CellTable)
    returns (k: real)
    requires IsSqrt(sqrt) && OutsideDefined(sqrt, x, y, cell)
    requires var b := if "cell_wall" in cell.entries then cell.entries["cell_wall"] else cell.entries["plasma_membrane"];
      DistanceTo(sqrt, x, y, b) < b.rmax + Padding && 0.0 <= b.rmax
    ensures var b := if "cell_wall" in cell.entries then cell.entries["cell_wall"] else cell.entries["plasma_membrane"];
      MovedRadially(sqrt, x, y, ConstraintOutsideCell(sqrt, x, y, cell), b, b.rmax + Padding, k)
  {
    k := RadialMove(sqrt, x, y, Border(cell), Border(cell).rmax + Padding, ConstraintOutsideCell(sqrt, x, y, cell));
  }

  /** Away from the border the rule returns only for a point at or beyond
      the padding line on both axes; any other point reaches a strict-mode
      assignment to an undeclared variable and throws. */
  lemma OutsideLowSideThrows(sqrt: real -> real, x: real, y: real, cell: CellTable)
    requires IsSqrt(sqrt) && ("cell_wall" in cell.entries || "plasma_membrane" in cell.entries)
    requires var b := Border(cell); DistanceTo(sqrt, x, y, b) >= b.rmax + Padding
    ensures OutsideDefined(sqrt, x, y, cell) <==> Padding <= x && Padding <= y
  {
  }

  /** Away from the border a point that does not throw stays inside the
      viewport's height: y is capped at 800 - padding and otherwise kept.
      x is never changed, so a point to the right of the viewport stays
      where it is. */
  lemma OutsideViewportFallback(sqrt: real -> real, x: real, y: real, cell: CellTable)
    requires IsSqrt(sqrt) && OutsideDefined(sqrt, x, y, cell)
    requires var b := Border(cell); DistanceTo(sqrt, x, y, b) >= b.rmax + Padding
    ensures var p := ConstraintOutsideCell(sqrt, x, y, cell);
      && p.x == x
      && Padding <= p.y <= ViewportHeight - Padding
      && (y <= ViewportHeight - Padding ==> p.y == y)
      && (ViewportHeight - Padding < y ==> p.y == ViewportHeight - Padding)
  {
  }
}
