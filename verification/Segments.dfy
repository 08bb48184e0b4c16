/** Segment intersection by orientations, with the orientation's product cut down to an integer. */
module Segments {
  import opened Points
  import opened Reals

  /** The conversion of a double to an int: towards zero. */
  function Truncated(x: real): int {
    if x >= 0.0 then x.Floor else -((-x).Floor)
  }

  function Cross(p: XYZCoord, q: XYZCoord, r: XYZCoord): real {
    (q.y - p.y) * (r.x - q.x) - (q.x - p.x) * (r.y - q.y)
  }

  function Orientation(p: XYZCoord, q: XYZCoord, r: XYZCoord): nat {
    var val := Truncated(Cross(p, q, r));
    if val == 0 then 0 else if val > 0 then 1 else 2
  }

  predicate OnSegment(p: XYZCoord, q: XYZCoord, r: XYZCoord) {
    Min(p.x, r.x) <= q.x <= Max(p.x, r.x) && Min(p.y, r.y) <= q.y <= Max(p.y, r.y)
  }

  /** The decision, once it is known on which side of each segment's line the other's ends are. */
  predicate Decide(o1: nat, o2: nat, o3: nat, o4: nat, p1: XYZCoord, q1: XYZCoord, p2: XYZCoord, q2: XYZCoord) {
    if o1 != o2 && o3 != o4 then true
    else if o1 == 0 && OnSegment(p1, p2, q1) then true
    else if o2 == 0 && OnSegment(p1, q2, q1) then true
    else if o3 == 0 && OnSegment(p2, p1, q2) then true
    else o4 == 0 && OnSegment(p2, q1, q2)
  }

  predicate Intersect(p1: XYZCoord, q1: XYZCoord, p2: XYZCoord, q2: XYZCoord) {
    Decide(Orientation(p1, q1, p2), Orientation(p1, q1, q2), Orientation(p2, q2, p1), Orientation(p2, q2, q1),
           p1, q1, p2, q2)
  }

  // ----- what it is for

  /** `x` is at the fraction `s` of the way from `p` to `q`. */
  predicate IsAt(p: XYZCoord, q: XYZCoord, s: real, x: XYZCoord) {
    x.x == p.x + s * (q.x - p.x) && x.y == p.y + s * (q.y - p.y)
  }

  /** `x` is a point of the closed segment from `p` to `q`. */
  ghost predicate PointOf(p: XYZCoord, q: XYZCoord, x: XYZCoord) {
    exists s: real :: 0.0 <= s <= 1.0 && IsAt(p, q, s, x)
  }

  ghost predicate SharePoint(p1: XYZCoord, q1: XYZCoord, p2: XYZCoord, q2: XYZCoord) {
    exists x: XYZCoord :: PointOf(p1, q1, x) && PointOf(p2, q2, x)
  }

  // ----- truncation

  function Sign(x: real): nat {
    if x == 0.0 then 0 else if x > 0.0 then 1 else 2
  }

  predicate Sharp(x: real) {
    x == 0.0 || x <= -1.0 || x >= 1.0
  }

  /** The orientation is the sign of the product exactly when the product is zero or at least one in
      magnitude. */
  lemma OrientationIsSign(p: XYZCoord, q: XYZCoord, r: XYZCoord)
    ensures Orientation(p, q, r) == Sign(Cross(p, q, r)) <==> Sharp(Cross(p, q, r))
  {
  }

  /** None of the four products is changed in sign by cutting it down. */
  predicate NothingCut(p1: XYZCoord, q1: XYZCoord, p2: XYZCoord, q2: XYZCoord) {
    && Sharp(Cross(p1, q1, p2)) && Sharp(Cross(p1, q1, q2))
    && Sharp(Cross(p2, q2, p1)) && Sharp(Cross(p2, q2, q1))
  }

  /** Cut down to zero. */
  predicate Cut(x: real) {
    -1.0 < x < 1.0
  }

  function CutSign(x: real): nat {
    if Cut(x) then 0 else Sign(x)
  }

  /** The four products of two segments, one for each end, and whether that end lies in the box of the
      other segment. */
  datatype Sides = Sides(d1: real, d2: real, d3: real, d4: real, in1: bool, in2: bool, in3: bool, in4: bool)
  {
    /** On both segments the two ends are on different sides of the other's line, or one of them on it. */
    predicate AcrossBoth() {
      Sign(d1) != Sign(d2) && Sign(d3) != Sign(d4)
    }

    predicate StillAcross() {
      CutSign(d1) != CutSign(d2) && CutSign(d3) != CutSign(d4)
    }

    /** Both products of one segment are cut down to zero. */
    predicate SideLost() {
      (Cut(d1) && Cut(d2)) || (Cut(d3) && Cut(d4))
    }

    /** Some end with a product cut down to zero lies in the other segment's box. */
    predicate EndLands() {
      (Cut(d1) && in1) || (Cut(d2) && in2) || (Cut(d3) && in3) || (Cut(d4) && in4)
    }

    /** Some such end is in truth off the other segment's line. */
    predicate EndStrays() {
      || (d1 != 0.0 && Cut(d1) && in1) || (d2 != 0.0 && Cut(d2) && in2)
      || (d3 != 0.0 && Cut(d3) && in3) || (d4 != 0.0 && Cut(d4) && in4)
    }

    predicate RightlyDecided() {
      if AcrossBoth() then !SideLost() || EndLands() else !StillAcross() && !EndStrays()
    }
  }

  function SidesOf(p1: XYZCoord, q1: XYZCoord, p2: XYZCoord, q2: XYZCoord): Sides {
    Sides(Cross(p1, q1, p2), Cross(p1, q1, q2), Cross(p2, q2, p1), Cross(p2, q2, q1),
          OnSegment(p1, p2, q1), OnSegment(p1, q2, q1), OnSegment(p2, p1, q2), OnSegment(p2, q1, q2))
  }

  predicate IsInteger(x: real) {
    x == x.Floor as real
  }

  predicate Whole(p: XYZCoord) {
    IsInteger(p.x) && IsInteger(p.y)
  }

  lemma WholeCross(p: XYZCoord, q: XYZCoord, r: XYZCoord)
    requires Whole(p) && Whole(q) && Whole(r)
    ensures Sharp(Cross(p, q, r))
  {
    var a, b, c, d := q.y.Floor - p.y.Floor, r.x.Floor - q.x.Floor, q.x.Floor - p.x.Floor, r.y.Floor - q.y.Floor;
    ProductOfInts(a, b);
    ProductOfInts(c, d);
    assert q.y - p.y == a as real && r.x - q.x == b as real && q.x - p.x == c as real && r.y - q.y == d as real;
    assert Cross(p, q, r) == (a as real) * (b as real) - (c as real) * (d as real);
    WholeIsSharp(a * b - c * d);
  }

  lemma WholeIsSharp(n: int)
    ensures Sharp(n as real)
  {
  }

  lemma ProductOfInts(a: int, b: int)
    ensures (a as real) * (b as real) == (a * b) as real
  {
  }

  // ----- geometry by cross products

  lemma CrossesDiffer(p1: XYZCoord, q1: XYZCoord, p2: XYZCoord, q2: XYZCoord)
    ensures Cross(p1, q1, p2) - Cross(p1, q1, q2) == Cross(p2, q2, q1) - Cross(p2, q2, p1)
    ensures Cross(p1, q1, p2) - Cross(p1, q1, q2) ==
            (q1.x - p1.x) * (q2.y - p2.y) - (q1.y - p1.y) * (q2.x - p2.x)
  {
  }

  /** The product is affine in its last point. */
  lemma CrossBetween(p: XYZCoord, q: XYZCoord, a: XYZCoord, b: XYZCoord, x: XYZCoord, t: real)
    requires IsAt(a, b, t, x)
    ensures Cross(p, q, x) == (1.0 - t) * Cross(p, q, a) + t * Cross(p, q, b)
  {
    var k, m := q.y - p.y, q.x - p.x;
    assert x.x - q.x == (1.0 - t) * (a.x - q.x) + t * (b.x - q.x);
    assert x.y - q.y == (1.0 - t) * (a.y - q.y) + t * (b.y - q.y);
    Distribute(k, 1.0 - t, a.x - q.x, t, b.x - q.x);
    Distribute(m, 1.0 - t, a.y - q.y, t, b.y - q.y);
    Spread(1.0 - t, k * (a.x - q.x), m * (a.y - q.y));
    Spread(t, k * (b.x - q.x), m * (b.y - q.y));
  }

  lemma Distribute(k: real, c: real, x: real, d: real, y: real)
    ensures k * (c * x + d * y) == c * (k * x) + d * (k * y)
  {
  }

  lemma Spread(c: real, x: real, y: real)
    ensures c * (x - y) == c * x - c * y
  {
  }

  /** A point of the segment's line lies on that line. */
  lemma CrossOnLine(p: XYZCoord, q: XYZCoord, x: XYZCoord, s: real)
    requires IsAt(p, q, s, x)
    ensures Cross(p, q, x) == 0.0
  {
    var k, m := q.y - p.y, q.x - p.x;
    assert x.x - q.x == (s - 1.0) * m;
    assert x.y - q.y == (s - 1.0) * k;
    assert k * ((s - 1.0) * m) == m * ((s - 1.0) * k);
  }

  lemma Cramer(ux: real, uy: real, vx: real, vy: real, wx: real, wy: real, s: real, t: real)
    requires ux * vy - uy * vx != 0.0
    requires s * (ux * vy - uy * vx) == wx * vy - wy * vx
    requires t * (ux * vy - uy * vx) == wx * uy - wy * ux
    ensures s * ux - t * vx == wx && s * uy - t * vy == wy
  {
    var d := ux * vy - uy * vx;
    Elimination(ux, uy, vx, vy, wx, wy);
    Swap(s, ux, d);
    Swap(t, vx, d);
    Swap(s, uy, d);
    Swap(t, vy, d);
    Cancel(s * ux - t * vx, wx, d);
    Cancel(s * uy - t * vy, wy, d);
  }

  lemma Swap(a: real, b: real, c: real)
    ensures (a * b) * c == (a * c) * b
  {
  }

  lemma Elimination(ux: real, uy: real, vx: real, vy: real, wx: real, wy: real)
    ensures (wx * vy - wy * vx) * ux - (wx * uy - wy * ux) * vx == wx * (ux * vy - uy * vx)
    ensures (wx * vy - wy * vx) * uy - (wx * uy - wy * ux) * vy == wy * (ux * vy - uy * vx)
  {
  }

  lemma FractionOfSigns(a: real, b: real)
    requires Sign(a) != Sign(b)
    ensures a != b && 0.0 <= a / (a - b) <= 1.0 && (a / (a - b)) * (a - b) == a
  {
  }

  lemma MeetAt(p1: XYZCoord, q1: XYZCoord, p2: XYZCoord, q2: XYZCoord, s: real, t: real)
    requires Cross(p1, q1, p2) != Cross(p1, q1, q2)
    requires t * (Cross(p1, q1, p2) - Cross(p1, q1, q2)) == Cross(p1, q1, p2)
    requires s * (Cross(p2, q2, p1) - Cross(p2, q2, q1)) == Cross(p2, q2, p1)
    ensures var x := XYZCoord(p1.x + s * (q1.x - p1.x), p1.y + s * (q1.y - p1.y), 0.0);
            IsAt(p1, q1, s, x) && IsAt(p2, q2, t, x)
  {
    hide Cross;
    var ux, uy, vx, vy := q1.x - p1.x, q1.y - p1.y, q2.x - p2.x, q2.y - p2.y;
    var wx, wy := p2.x - p1.x, p2.y - p1.y;
    var d := ux * vy - uy * vx;
    CrossesDiffer(p1, q1, p2, q2);
    CrossFromStart(p1, q1, p2);
    CrossFromStart(p2, q2, p1);
    Negated(s, d, vx, vy, wx, wy);
    assert Cross(p2, q2, p1) == vy * (p1.x - p2.x) - vx * (p1.y - p2.y);
    Cramer(ux, uy, vx, vy, wx, wy, s, t);
  }

  lemma Negated(s: real, d: real, vx: real, vy: real, wx: real, wy: real)
    ensures s * (-d) == vy * (-wx) - vx * (-wy) <==> s * d == wx * vy - wy * vx
  {
  }

  /** Each segment has its ends on different sides of the other's line, or on it: they meet. */
  lemma ProperCrossing(p1: XYZCoord, q1: XYZCoord, p2: XYZCoord, q2: XYZCoord)
    requires Sign(Cross(p1, q1, p2)) != Sign(Cross(p1, q1, q2))
    requires Sign(Cross(p2, q2, p1)) != Sign(Cross(p2, q2, q1))
    ensures SharePoint(p1, q1, p2, q2)
  {
    hide Cross, Sign, IsAt;
    var d1, d2, d3, d4 := Cross(p1, q1, p2), Cross(p1, q1, q2), Cross(p2, q2, p1), Cross(p2, q2, q1);
    FractionOfSigns(d1, d2);
    FractionOfSigns(d3, d4);
    var s := d3 / (d3 - d4);
    MeetAt(p1, q1, p2, q2, s, d1 / (d1 - d2));
    var x := XYZCoord(p1.x + s * (q1.x - p1.x), p1.y + s * (q1.y - p1.y), 0.0);
    assert PointOf(p1, q1, x) && PointOf(p2, q2, x);
  }

  lemma CrossFromStart(p: XYZCoord, q: XYZCoord, r: XYZCoord)
    ensures Cross(p, q, r) == (q.y - p.y) * (r.x - p.x) - (q.x - p.x) * (r.y - p.y)
  {
  }

  lemma InBox(p: XYZCoord, q: XYZCoord, x: XYZCoord)
    requires PointOf(p, q, x)
    ensures OnSegment(p, x, q)
  {
    var s :| 0.0 <= s <= 1.0 && IsAt(p, q, s, x);
    BetweenEnds(p.x, q.x, s);
    BetweenEnds(p.y, q.y, s);
  }

  lemma BetweenEnds(a: real, b: real, s: real)
    requires 0.0 <= s <= 1.0
    ensures Min(a, b) <= a + s * (b - a) <= Max(a, b)
  {
    if a <= b { Scaled(s, a, b); } else { Scaled(1.0 - s, b, a); }
  }

  lemma Scaled(s: real, a: real, b: real)
    requires 0.0 <= s <= 1.0 && a <= b
    ensures a <= a + s * (b - a) <= b
    ensures b + (1.0 - s) * (a - b) == a + s * (b - a)
  {
    var h := b - a;
    assert s * h >= 0.0 && (1.0 - s) * h >= 0.0;
    assert (1.0 - s) * h == h - s * h;
    assert (1.0 - s) * (a - b) == -((1.0 - s) * h);
  }

  lemma Unscaled(s: real, h: real, n: real)
    requires h > 0.0 && s * h == n && 0.0 <= n <= h
    ensures 0.0 <= s <= 1.0
  {
    PositiveProduct(-s, h);
    PositiveProduct(s - 1.0, h);
  }

  lemma PositiveProduct(a: real, b: real)
    ensures a > 0.0 && b > 0.0 ==> a * b > 0.0
    ensures (a * b > 0.0) == ((-a) * b < 0.0)
  {
  }

  /** A point of the segment's line within the segment's box is a point of the segment. */
  lemma CollinearInBox(p: XYZCoord, q: XYZCoord, x: XYZCoord)
    requires Cross(p, q, x) == 0.0 && OnSegment(p, x, q)
    ensures PointOf(p, q, x)
  {
    CrossFromStart(p, q, x);
    if p.x != q.x {
      var s := FractionAlong(p.x, q.x, x.x, p.y, q.y, x.y);
      assert IsAt(p, q, s, x);
    } else if p.y != q.y {
      var s := FractionAlong(p.y, q.y, x.y, p.x, q.x, x.x);
      assert IsAt(p, q, s, x);
    } else {
      assert IsAt(p, q, 0.0, x);
    }
  }

  lemma FractionAlong(a: real, b: real, x: real, c: real, d: real, y: real) returns (s: real)
    requires a != b && Min(a, b) <= x <= Max(a, b)
    requires (d - c) * (x - a) == (b - a) * (y - c)
    ensures 0.0 <= s <= 1.0 && x == a + s * (b - a) && y == c + s * (d - c)
  {
    s := (x - a) / (b - a);
    assert s * (b - a) == x - a;
    if a < b { Unscaled(s, b - a, x - a); } else { Unscaled(s, a - b, a - x); }
    assert (s * (d - c)) * (b - a) == (s * (b - a)) * (d - c);
    Cancel(s * (d - c), y - c, b - a);
  }

  /** The decision by the signs of the products, with nothing cut down. */
  predicate SignsDecide(p1: XYZCoord, q1: XYZCoord, p2: XYZCoord, q2: XYZCoord) {
    Decide(Sign(Cross(p1, q1, p2)), Sign(Cross(p1, q1, q2)), Sign(Cross(p2, q2, p1)), Sign(Cross(p2, q2, q1)),
           p1, q1, p2, q2)
  }

  lemma SoundDecision(p1: XYZCoord, q1: XYZCoord, p2: XYZCoord, q2: XYZCoord)
    requires SignsDecide(p1, q1, p2, q2)
    ensures SharePoint(p1, q1, p2, q2)
  {
    hide Cross, OnSegment;
    if Sign(Cross(p1, q1, p2)) != Sign(Cross(p1, q1, q2)) && Sign(Cross(p2, q2, p1)) != Sign(Cross(p2, q2, q1)) {
      ProperCrossing(p1, q1, p2, q2);
    } else if Cross(p1, q1, p2) == 0.0 && OnSegment(p1, p2, q1) {
      CollinearInBox(p1, q1, p2);
      OwnEnds(p2, q2);
    } else if Cross(p1, q1, q2) == 0.0 && OnSegment(p1, q2, q1) {
      CollinearInBox(p1, q1, q2);
      OwnEnds(p2, q2);
    } else if Cross(p2, q2, p1) == 0.0 && OnSegment(p2, p1, q2) {
      CollinearInBox(p2, q2, p1);
      OwnEnds(p1, q1);
    } else {
      CollinearInBox(p2, q2, q1);
      OwnEnds(p1, q1);
    }
  }

  lemma OwnEnds(p: XYZCoord, q: XYZCoord)
    ensures PointOf(p, q, p) && PointOf(p, q, q)
  {
    assert IsAt(p, q, 0.0, p) && IsAt(p, q, 1.0, q);
  }

  /** The line through one segment's shared point separates the other's ends, or holds them both. */
  lemma EndsApart(p1: XYZCoord, q1: XYZCoord, p2: XYZCoord, q2: XYZCoord, x: XYZCoord)
    requires PointOf(p1, q1, x) && PointOf(p2, q2, x)
    ensures Sign(Cross(p1, q1, p2)) != Sign(Cross(p1, q1, q2)) || Cross(p1, q1, p2) == Cross(p1, q1, q2) == 0.0
  {
    hide Cross;
    var s :| 0.0 <= s <= 1.0 && IsAt(p1, q1, s, x);
    var t :| 0.0 <= t <= 1.0 && IsAt(p2, q2, t, x);
    CrossOnLine(p1, q1, x, s);
    CrossBetween(p1, q1, p2, q2, x, t);
    WeightedZero(t, Cross(p1, q1, p2), Cross(p1, q1, q2));
  }

  lemma WeightedZero(t: real, a: real, b: real)
    requires 0.0 <= t <= 1.0 && (1.0 - t) * a + t * b == 0.0
    ensures Sign(a) != Sign(b) || a == b == 0.0
  {
    Weighted(t, a, b);
    Weighted(t, -a, -b);
  }

  lemma Weighted(t: real, a: real, b: real)
    requires 0.0 <= t <= 1.0
    ensures a > 0.0 && b > 0.0 ==> (1.0 - t) * a + t * b > 0.0
    ensures (1.0 - t) * (-a) + t * (-b) == -((1.0 - t) * a + t * b)
  {
    if t == 0.0 {
      assert (1.0 - t) * a == a;
    } else {
      PositiveProduct(t, b);
      if a > 0.0 { assert (1.0 - t) * a >= 0.0; }
    }
  }

  predicate Within(a: real, x: real, b: real) {
    Min(a, b) <= x <= Max(a, b)
  }

  lemma OverlapAtEnd(a: real, b: real, c: real, d: real, x: real)
    requires Within(a, x, b) && Within(c, x, d)
    ensures Within(a, c, b) || Within(a, d, b) || (Within(c, a, d) && c != d)
  {
  }

  lemma BoxFromAbscissa(p: XYZCoord, q: XYZCoord, r: XYZCoord)
    requires Cross(p, q, r) == 0.0 && p.x != q.x && Within(p.x, r.x, q.x)
    ensures OnSegment(p, r, q)
  {
    CrossFromStart(p, q, r);
    var s := FractionAlong(p.x, q.x, r.x, p.y, q.y, r.y);
    BetweenEnds(p.y, q.y, s);
  }

  lemma BoxFromOrdinate(p: XYZCoord, q: XYZCoord, r: XYZCoord)
    requires Cross(p, q, r) == 0.0 && p.y != q.y && Within(p.y, r.y, q.y)
    ensures OnSegment(p, r, q)
  {
    CrossFromStart(p, q, r);
    var s := FractionAlong(p.y, q.y, r.y, p.x, q.x, r.x);
    BetweenEnds(p.x, q.x, s);
  }

  /** All four points on one line: some end of one segment lies in the box of the other. */
  lemma SomeEndInBox(p1: XYZCoord, q1: XYZCoord, p2: XYZCoord, q2: XYZCoord, x: XYZCoord)
    requires PointOf(p1, q1, x) && PointOf(p2, q2, x)
    requires Cross(p1, q1, p2) == Cross(p1, q1, q2) == Cross(p2, q2, p1) == Cross(p2, q2, q1) == 0.0
    ensures OnSegment(p1, p2, q1) || OnSegment(p1, q2, q1) || OnSegment(p2, p1, q2) || OnSegment(p2, q1, q2)
  {
    hide Cross;
    InBox(p1, q1, x);
    InBox(p2, q2, x);
    if p1.x != q1.x {
      OverlapAtEnd(p1.x, q1.x, p2.x, q2.x, x.x);
      if Within(p1.x, p2.x, q1.x) { BoxFromAbscissa(p1, q1, p2); }
      else if Within(p1.x, q2.x, q1.x) { BoxFromAbscissa(p1, q1, q2); }
      else { BoxFromAbscissa(p2, q2, p1); }
    } else if p1.y != q1.y {
      OverlapAtEnd(p1.y, q1.y, p2.y, q2.y, x.y);
      if Within(p1.y, p2.y, q1.y) { BoxFromOrdinate(p1, q1, p2); }
      else if Within(p1.y, q2.y, q1.y) { BoxFromOrdinate(p1, q1, q2); }
      else { BoxFromOrdinate(p2, q2, p1); }
    }
  }

  /** Segments that share a point without crossing properly lie on one line altogether. */
  lemma AllOnOneLine(p1: XYZCoord, q1: XYZCoord, p2: XYZCoord, q2: XYZCoord)
    requires SharePoint(p1, q1, p2, q2) && !SidesOf(p1, q1, p2, q2).AcrossBoth()
    ensures Cross(p1, q1, p2) == Cross(p1, q1, q2) == Cross(p2, q2, p1) == Cross(p2, q2, q1) == 0.0
  {
    hide Cross, OnSegment, PointOf;
    var x :| PointOf(p1, q1, x) && PointOf(p2, q2, x);
    EndsApart(p1, q1, p2, q2, x);
    EndsApart(p2, q2, p1, q1, x);
    CrossesDiffer(p1, q1, p2, q2);
  }

  lemma CompleteDecision(p1: XYZCoord, q1: XYZCoord, p2: XYZCoord, q2: XYZCoord)
    requires SharePoint(p1, q1, p2, q2)
    ensures SignsDecide(p1, q1, p2, q2)
  {
    hide Cross, OnSegment, PointOf;
    if !SidesOf(p1, q1, p2, q2).AcrossBoth() {
      AllOnOneLine(p1, q1, p2, q2);
      var x :| PointOf(p1, q1, x) && PointOf(p2, q2, x);
      SomeEndInBox(p1, q1, p2, q2, x);
    }
  }

  /** By the signs alone the decision is right for every two segments, collinear, touching and
      single-point ones included. */
  lemma SignsDecideRightly(p1: XYZCoord, q1: XYZCoord, p2: XYZCoord, q2: XYZCoord)
    ensures SignsDecide(p1, q1, p2, q2) <==> SharePoint(p1, q1, p2, q2)
  {
    hide SignsDecide, SharePoint;
    if SignsDecide(p1, q1, p2, q2) { SoundDecision(p1, q1, p2, q2); }
    if SharePoint(p1, q1, p2, q2) { CompleteDecision(p1, q1, p2, q2); }
  }

  lemma OrientationIsCutSign(p: XYZCoord, q: XYZCoord, r: XYZCoord)
    ensures Orientation(p, q, r) == CutSign(Cross(p, q, r))
  {
  }

  lemma IntersectByProducts(p1: XYZCoord, q1: XYZCoord, p2: XYZCoord, q2: XYZCoord)
    ensures var s := SidesOf(p1, q1, p2, q2);
            Intersect(p1, q1, p2, q2) <==> s.StillAcross() || s.EndLands()
  {
    hide Cross, OnSegment, Orientation;
    OrientationIsCutSign(p1, q1, p2);
    OrientationIsCutSign(p1, q1, q2);
    OrientationIsCutSign(p2, q2, p1);
    OrientationIsCutSign(p2, q2, q1);
  }

  /** A shared point is missed exactly when the segments cross properly, both products of one of them are
      cut down to zero, and no end whose product is cut down lies in the other segment's box. */
  lemma MissedExactly(p1: XYZCoord, q1: XYZCoord, p2: XYZCoord, q2: XYZCoord)
    ensures var s := SidesOf(p1, q1, p2, q2);
            SharePoint(p1, q1, p2, q2) && !Intersect(p1, q1, p2, q2) <==>
              s.AcrossBoth() && s.SideLost() && !s.EndLands()
  {
    hide Cross, OnSegment, Intersect, SharePoint;
    SignsDecideRightly(p1, q1, p2, q2);
    IntersectByProducts(p1, q1, p2, q2);
  }

  /** A shared point is made up exactly when the segments do not cross properly, but either seem to once
      products are cut down, or an end off the other segment's line is cut onto it within its box. */
  lemma MadeUpExactly(p1: XYZCoord, q1: XYZCoord, p2: XYZCoord, q2: XYZCoord)
    ensures var s := SidesOf(p1, q1, p2, q2);
            Intersect(p1, q1, p2, q2) && !SharePoint(p1, q1, p2, q2) <==>
              !s.AcrossBoth() && (s.StillAcross() || s.EndStrays())
  {
    hide Cross, OnSegment, Intersect, SharePoint;
    SignsDecideRightly(p1, q1, p2, q2);
    IntersectByProducts(p1, q1, p2, q2);
    if SharePoint(p1, q1, p2, q2) && !SidesOf(p1, q1, p2, q2).AcrossBoth() { AllOnOneLine(p1, q1, p2, q2); }
  }

  /** So this is exactly when the answer is right. */
  lemma IntersectRightExactly(p1: XYZCoord, q1: XYZCoord, p2: XYZCoord, q2: XYZCoord)
    ensures (Intersect(p1, q1, p2, q2) <==> SharePoint(p1, q1, p2, q2)) <==> SidesOf(p1, q1, p2, q2).RightlyDecided()
  {
    hide Intersect, SharePoint, SidesOf, Sides.AcrossBoth, Sides.SideLost, Sides.EndLands, Sides.StillAcross,
      Sides.EndStrays;
    MissedExactly(p1, q1, p2, q2);
    MadeUpExactly(p1, q1, p2, q2);
  }

  /** In particular it is right whenever none of the four products is cut down: each is zero or at least
      one in magnitude. */
  lemma IntersectIsExact(p1: XYZCoord, q1: XYZCoord, p2: XYZCoord, q2: XYZCoord)
    requires NothingCut(p1, q1, p2, q2)
    ensures Intersect(p1, q1, p2, q2) <==> SharePoint(p1, q1, p2, q2)
  {
    hide Cross, SharePoint, Intersect, OnSegment;
    IntersectRightExactly(p1, q1, p2, q2);
  }

  /** Whole coordinates are such a case. */
  lemma IntersectOfWhole(p1: XYZCoord, q1: XYZCoord, p2: XYZCoord, q2: XYZCoord)
    requires Whole(p1) && Whole(q1) && Whole(p2) && Whole(q2)
    ensures Intersect(p1, q1, p2, q2) <==> SharePoint(p1, q1, p2, q2)
  {
    hide Cross, Intersect, SharePoint, Sharp, Whole;
    WholeCross(p1, q1, p2);
    WholeCross(p1, q1, q2);
    WholeCross(p2, q2, p1);
    WholeCross(p2, q2, q1);
    IntersectIsExact(p1, q1, p2, q2);
  }

  /** With fractions it can be wrong either way: two parallel segments a quarter of a metre apart "intersect",
      because their products, a quarter each, are cut down to zero. */
  lemma FractionsCanBeWrong()
    ensures var p1, q1 := XYZCoord(0.0, 0.0, 0.0), XYZCoord(1.0, 1.0, 0.0);
            var p2, q2 := XYZCoord(0.25, 0.0, 0.0), XYZCoord(1.25, 1.0, 0.0);
            Intersect(p1, q1, p2, q2) && !SharePoint(p1, q1, p2, q2)
  {
    var p1, q1 := XYZCoord(0.0, 0.0, 0.0), XYZCoord(1.0, 1.0, 0.0);
    var p2, q2 := XYZCoord(0.25, 0.0, 0.0), XYZCoord(1.25, 1.0, 0.0);
    assert Cross(p1, q1, p2) == 0.25 && OnSegment(p1, p2, q1);
    forall x | PointOf(p1, q1, x) ensures !PointOf(p2, q2, x) {
      assert x.x == x.y;
    }
  }

  /** And two segments that cross in the middle "do not intersect". */
  lemma FractionsCanBeMissed()
    ensures var p1, q1 := XYZCoord(0.0, 0.5, 0.0), XYZCoord(1.0, 0.5, 0.0);
            var p2, q2 := XYZCoord(0.5, 0.0, 0.0), XYZCoord(0.5, 1.0, 0.0);
            !Intersect(p1, q1, p2, q2) && SharePoint(p1, q1, p2, q2)
  {
    hide Intersect, OnSegment, SharePoint, Cross;
    var p1, q1 := XYZCoord(0.0, 0.5, 0.0), XYZCoord(1.0, 0.5, 0.0);
    var p2, q2 := XYZCoord(0.5, 0.0, 0.0), XYZCoord(0.5, 1.0, 0.0);
    NoneOnTheOther(p1, q1, p2, q2);
    HalvesCutDown(p1, q1, p2, q2);
  }

  lemma NoneOnTheOther(p1: XYZCoord, q1: XYZCoord, p2: XYZCoord, q2: XYZCoord)
    requires p1.y == q1.y == 0.5 && p2.x == q2.x == 0.5 && p1.x == p2.y == 0.0 && q1.x == q2.y == 1.0
    ensures !OnSegment(p1, p2, q1) && !OnSegment(p1, q2, q1) && !OnSegment(p2, p1, q2) && !OnSegment(p2, q1, q2)
    ensures Cross(p1, q1, p2) == 0.5 && Cross(p1, q1, q2) == -0.5
    ensures Cross(p2, q2, p1) == -0.5 && Cross(p2, q2, q1) == 0.5
  {
  }

  lemma HalvesCutDown(p1: XYZCoord, q1: XYZCoord, p2: XYZCoord, q2: XYZCoord)
    requires Cross(p1, q1, p2) == 0.5 && Cross(p1, q1, q2) == -0.5
    requires Cross(p2, q2, p1) == -0.5 && Cross(p2, q2, q1) == 0.5
    requires !OnSegment(p1, p2, q1) && !OnSegment(p1, q2, q1) && !OnSegment(p2, p1, q2) && !OnSegment(p2, q1, q2)
    ensures !Intersect(p1, q1, p2, q2) && SharePoint(p1, q1, p2, q2)
  {
    hide Cross, OnSegment, SharePoint;
    ProperCrossing(p1, q1, p2, q2);
  }

  // ----- polygons

  function Previous(i: nat, n: nat): nat
    requires i < n
  {
    if i == 0 then n - 1 else i - 1
  }

  predicate CutsEdge(start: XYZCoord, end: XYZCoord, polygon: Polygon, i: nat)
    requires i < |polygon|
  {
    Intersect(start, end, polygon[i], polygon[Previous(i, |polygon|)])
  }

  ghost predicate Hits(start: XYZCoord, end: XYZCoord, polygon: Polygon) {
    exists i :: 0 <= i < |polygon| && CutsEdge(start, end, polygon, i)
  }

  method DoesLineIntersectPolygon(start: XYZCoord, end: XYZCoord, polygon: Polygon) returns (hit: bool)
    ensures hit <==> Hits(start, end, polygon)
  {
    hide Intersect;
    var i, j := 0, |polygon| - 1;
    while i < |polygon|
      invariant 0 <= i <= |polygon|
      invariant i < |polygon| ==> j == Previous(i, |polygon|)
      invariant forall k | 0 <= k < i :: !CutsEdge(start, end, polygon, k)
    {
      if Intersect(start, end, polygon[i], polygon[j]) {
        assert CutsEdge(start, end, polygon, i);
        return true;
      }
      j := i;
      i := i + 1;
    }
    return false;
  }

  /** The line meets the boundary of the polygon. */
  ghost predicate MeetsBoundary(start: XYZCoord, end: XYZCoord, polygon: Polygon) {
    exists i :: 0 <= i < |polygon| && SharePoint(start, end, polygon[i], polygon[Previous(i, |polygon|)])
  }

  /** Every edge is decided rightly against the line. */
  predicate RightlyDecidedEdges(start: XYZCoord, end: XYZCoord, polygon: Polygon) {
    forall i | 0 <= i < |polygon| ::
      SidesOf(start, end, polygon[i], polygon[Previous(i, |polygon|)]).RightlyDecided()
  }

  lemma EdgesDecided(start: XYZCoord, end: XYZCoord, polygon: Polygon)
    requires RightlyDecidedEdges(start, end, polygon)
    ensures Hits(start, end, polygon) <==> MeetsBoundary(start, end, polygon)
  {
    hide Intersect, SharePoint, SidesOf, Sides.RightlyDecided;
    forall i | 0 <= i < |polygon|
      ensures CutsEdge(start, end, polygon, i) <==> SharePoint(start, end, polygon[i], polygon[Previous(i, |polygon|)])
    {
      IntersectRightExactly(start, end, polygon[i], polygon[Previous(i, |polygon|)]);
    }
  }

  ghost predicate WholePolygon(polygon: Polygon) {
    forall i | 0 <= i < |polygon| :: Whole(polygon[i])
  }

  lemma WholeEdges(start: XYZCoord, end: XYZCoord, polygon: Polygon)
    requires Whole(start) && Whole(end) && WholePolygon(polygon)
    ensures RightlyDecidedEdges(start, end, polygon)
  {
    hide Intersect, SharePoint, Whole, SidesOf, Sides.RightlyDecided;
    forall i | 0 <= i < |polygon|
      ensures SidesOf(start, end, polygon[i], polygon[Previous(i, |polygon|)]).RightlyDecided()
    {
      IntersectOfWhole(start, end, polygon[i], polygon[Previous(i, |polygon|)]);
      IntersectRightExactly(start, end, polygon[i], polygon[Previous(i, |polygon|)]);
    }
  }

  /** A line is in bounds when it hits no edge of the region and none of an obstacle. */
  method IsLineInBounds(start: XYZCoord, end: XYZCoord, validRegion: Polygon, obstacles: seq<Polygon>)
    returns (ok: bool)
    ensures ok <==> !Hits(start, end, validRegion) && forall o | o in obstacles :: !Hits(start, end, o)
  {
    hide Hits;
    var hit := DoesLineIntersectPolygon(start, end, validRegion);
    if hit {
      return false;
    }
    for i := 0 to |obstacles|
      invariant forall o | o in obstacles[..i] :: !Hits(start, end, o)
    {
      hit := DoesLineIntersectPolygon(start, end, obstacles[i]);
      if hit {
        return false;
      }
      assert obstacles[..i + 1] == obstacles[..i] + [obstacles[i]];
    }
    return true;
  }
}
