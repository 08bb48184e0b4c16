/** Points, polygons and the airspace: ray-cast membership and the strided path check. */
module Points {
  datatype XYZCoord = XYZCoord(x: real, y: real, z: real)

  datatype RRTPoint = RRTPoint(coord: XYZCoord, psi: real)

  type Polygon = seq<XYZCoord>

  function DistanceToSquared(p: XYZCoord, q: XYZCoord): real {
    var dx, dy, dz := p.x - q.x, p.y - q.y, p.z - q.z;
    dx * dx + dy * dy + dz * dz
  }

  /** Along an axis it is the square of the shift; and moving first along some axes and then along the
      others adds up, as Pythagoras has it. */
  lemma DistancePythagoras(p: XYZCoord, m: XYZCoord, q: XYZCoord, d: real)
    ensures DistanceToSquared(p, p.(x := p.x + d)) == d * d
    ensures DistanceToSquared(p, p.(y := p.y + d)) == d * d
    ensures DistanceToSquared(p, p.(z := p.z + d)) == d * d
    ensures m.x in {p.x, q.x} && m.y in {p.y, q.y} && m.z in {p.z, q.z} ==>
              DistanceToSquared(p, q) == DistanceToSquared(p, m) + DistanceToSquared(m, q)
  {
    assert (-d) * (-d) == d * d;
  }

  /** Without the altitude, which the planner assigns only once an edge is flown. */
  function Ground(p: XYZCoord): (real, real) {
    (p.x, p.y)
  }

  /** The track of a path over the ground. */
  ghost function Track(path: seq<XYZCoord>): (r: seq<(real, real)>)
    ensures |r| == |path|
  {
    seq(|path|, i requires 0 <= i < |path| => Ground(path[i]))
  }

  lemma TrackJoins(p: seq<XYZCoord>, q: seq<XYZCoord>)
    ensures Track(p + q) == Track(p) + Track(q)
  {
  }

  /** Where one is, over the ground, after flying `path` from `start`. */
  ghost function Over(start: XYZCoord, path: seq<XYZCoord>): (real, real) {
    if path == [] then Ground(start) else Ground(path[|path| - 1])
  }

  lemma OverTrack(start: XYZCoord, p: seq<XYZCoord>, q: seq<XYZCoord>)
    requires Track(p) == Track(q)
    ensures Over(start, p) == Over(start, q)
  {
    assert |p| == |Track(p)| == |q|;
    if p != [] {
      assert Track(p)[|p| - 1] == Track(q)[|q| - 1];
    }
  }
}

module RayCast {
  import opened Points
  import opened Reals

  function Xor(a: bool, b: bool): bool { a != b }

  /** The rightward ray from `point` crosses the edge between `a` and `b`. */
  predicate Crosses(a: XYZCoord, b: XYZCoord, point: XYZCoord) {
    && (a.y > point.y) != (b.y > point.y)
    && point.x < (b.x - a.x) * (point.y - a.y) / (b.y - a.y) + a.x
  }

  /** Parity of the crossings along the open polyline `s`. */
  ghost predicate ChainParity(s: Polygon, point: XYZCoord) {
    |s| >= 2 && Xor(Crosses(s[0], s[1], point), ChainParity(s[1..], point))
  }

  /** Parity of the crossings of the closed polygon. */
  ghost predicate Inside(polygon: Polygon, point: XYZCoord) {
    |polygon| >= 1 &&
    Xor(ChainParity(polygon, point), Crosses(polygon[|polygon| - 1], polygon[0], point))
  }

  lemma CrossesSymmetric(a: XYZCoord, b: XYZCoord, point: XYZCoord)
    ensures Crosses(a, b, point) == Crosses(b, a, point)
  {
    if (a.y > point.y) != (b.y > point.y) {
      SameAbscissa(a.x, a.y, b.x, b.y, point.y);
    }
  }

  /** The crossing's abscissa does not depend on which end of the edge it is measured from. */
  lemma SameAbscissa(ax: real, ay: real, zx: real, zy: real, y: real)
    requires ay != zy
    ensures (zx - ax) * (y - ay) / (zy - ay) + ax == (ax - zx) * (y - zy) / (ay - zy) + zx
  {
    var h := zy - ay;
    var lhs := (zx - ax) * (y - ay) / h;
    var rhs := (ax - zx) * (y - zy) / (ay - zy);
    assert lhs * h == (zx - ax) * (y - ay);
    assert rhs * (ay - zy) == (ax - zx) * (y - zy);
    assert (lhs - rhs) * h == (zx - ax) * h;
    Cancel(lhs - rhs, zx - ax, h);
  }

  /** The point of the edge from `a` to `b` at `t`, from 0 to 1, is level with `point` and to its right. */
  predicate RightOf(a: XYZCoord, b: XYZCoord, t: real, point: XYZCoord) {
    && 0.0 <= t <= 1.0
    && a.y + t * (b.y - a.y) == point.y
    && a.x + t * (b.x - a.x) > point.x
  }

  /** One end is above `point`, the other level with it or below. */
  predicate Straddles(a: XYZCoord, b: XYZCoord, point: XYZCoord) {
    (a.y > point.y && b.y <= point.y) || (a.y <= point.y && b.y > point.y)
  }

  /** An edge is crossed exactly when its ends are on different sides of the ray and it meets the ray. */
  lemma CrossesExactly(a: XYZCoord, b: XYZCoord, point: XYZCoord)
    ensures Crosses(a, b, point) <==> Straddles(a, b, point) && exists t: real :: RightOf(a, b, t, point)
  {
    if Straddles(a, b, point) {
      var t := (point.y - a.y) / (b.y - a.y);
      Meeting(a.x, a.y, b.x, b.y, point.y);
      assert t * (b.x - a.x) == (b.x - a.x) * (point.y - a.y) / (b.y - a.y);
      assert Crosses(a, b, point) <==> RightOf(a, b, t, point);
      forall t': real | RightOf(a, b, t', point)
        ensures t' == t
      {
        SameMeeting(a, b, t', t, point);
      }
    }
  }

  lemma SameMeeting(a: XYZCoord, b: XYZCoord, t: real, t': real, point: XYZCoord)
    requires Straddles(a, b, point) && RightOf(a, b, t, point) && t' * (b.y - a.y) == point.y - a.y
    ensures t == t'
  {
    Cancel(t, t', b.y - a.y);
  }

  lemma Meeting(ax: real, ay: real, zx: real, zy: real, y: real)
    requires (ay > y && zy <= y) || (ay <= y && zy > y)
    ensures var t := (y - ay) / (zy - ay);
            0.0 <= t <= 1.0 && t * (zy - ay) == y - ay && t * (zx - ax) == (zx - ax) * (y - ay) / (zy - ay)
  {
    var h, n, w := zy - ay, y - ay, zx - ax;
    var t := n / h;
    assert t * h == n;
    UnitRatio(n, h);
    var m := w * n;
    assert (m / h) * h == m;
    assert (t * w) * h == w * (t * h);
    Cancel(t * w, m / h, h);
  }

  lemma UnitRatio(n: real, h: real)
    requires (h > 0.0 && 0.0 <= n <= h) || (h < 0.0 && h <= n <= 0.0)
    ensures 0.0 <= n / h <= 1.0
  {
  }

  lemma {:induction false} ChainJoin(s: Polygon, t: Polygon, point: XYZCoord)
    requires |s| >= 1 && |t| >= 1 && s[|s| - 1] == t[0]
    ensures ChainParity(s + t[1..], point) == Xor(ChainParity(s, point), ChainParity(t, point))
  {
    if |s| == 1 {
      assert s + t[1..] == t;
    } else {
      assert (s + t[1..])[1..] == s[1..] + t[1..];
      ChainJoin(s[1..], t, point);
    }
  }

  function Reversed(s: Polygon): (r: Polygon)
    ensures |r| == |s|
  {
    if s == [] then [] else Reversed(s[1..]) + [s[0]]
  }

  lemma {:induction false} ReversedEnds(s: Polygon)
    requires |s| >= 1
    ensures Reversed(s)[0] == s[|s| - 1] && Reversed(s)[|s| - 1] == s[0]
  {
    if |s| >= 2 { ReversedEnds(s[1..]); }
  }

  lemma {:induction false} ChainReversed(s: Polygon, point: XYZCoord)
    ensures ChainParity(Reversed(s), point) == ChainParity(s, point)
  {
    if |s| >= 2 {
      ChainReversed(s[1..], point);
      var r := Reversed(s[1..]);
      ReversedEnds(s[1..]);
      var last := [s[1], s[0]];
      assert r + last[1..] == Reversed(s);
      ChainJoin(r, last, point);
      assert last[1..] == [s[0]];
      CrossesSymmetric(s[0], s[1], point);
    }
  }

  /** Starting the vertex list elsewhere does not change membership. */
  lemma RotationInvariant(polygon: Polygon, k: nat, point: XYZCoord)
    requires k < |polygon|
    ensures Inside(polygon[k..] + polygon[..k], point) == Inside(polygon, point)
  {
    if k > 0 {
      var a, b := polygon[..k], polygon[k..];
      Glue(a, b, point);
      Glue(b, a, point);
      assert a + b == polygon;
    } else {
      assert polygon[0..] + polygon[..0] == polygon;
    }
  }

  /** Two chains laid end to end: their own parities and the edge between them. */
  lemma {:induction false} Glue(a: Polygon, b: Polygon, point: XYZCoord)
    requires |a| >= 1 && |b| >= 1
    ensures ChainParity(a + b, point) ==
            Xor(Xor(ChainParity(a, point), ChainParity(b, point)), Crosses(a[|a| - 1], b[0], point))
  {
    hide Crosses;
    if |a| == 1 {
      assert (a + b)[1..] == b;
    } else {
      assert (a + b)[1..] == a[1..] + b;
      Glue(a[1..], b, point);
    }
  }

  /** Listing the vertices the other way round does not change membership. */
  lemma ReversalInvariant(polygon: Polygon, point: XYZCoord)
    ensures Inside(Reversed(polygon), point) == Inside(polygon, point)
  {
    if |polygon| >= 1 {
      ReversedEnds(polygon);
      ChainReversed(polygon, point);
      CrossesSymmetric(polygon[0], polygon[|polygon| - 1], point);
    }
  }

  /** Cutting along the chord between vertices `i` and `j`: a point is inside the whole exactly
      when it is inside one of the two parts and not the other. */
  lemma ChordCut(polygon: Polygon, i: nat, j: nat, point: XYZCoord)
    requires i < j < |polygon|
    ensures Inside(polygon, point) ==
            Xor(Inside(polygon[i..j + 1], point), Inside(polygon[j..] + polygon[..i + 1], point))
  {
    hide Crosses;
    var first, tail, front := polygon[i..j + 1], polygon[j..], polygon[..i + 1];
    assert front + first[1..] == polygon[..j + 1];
    ChainJoin(front, first, point);
    assert polygon[..j + 1] + tail[1..] == polygon;
    ChainJoin(polygon[..j + 1], tail, point);
    Glue(tail, front, point);
    CrossesSymmetric(polygon[i], polygon[j], point);
  }

  // ----- triangles

  /** Twice the area of the triangle `p`, `a`, `b`, negative if it is listed clockwise. */
  function Turn(p: XYZCoord, a: XYZCoord, b: XYZCoord): real {
    (a.x - p.x) * (b.y - p.y) - (b.x - p.x) * (a.y - p.y)
  }

  /** An edge going up is crossed if it turns left around the point, one going down if it turns right. */
  lemma CrossesBySide(a: XYZCoord, b: XYZCoord, point: XYZCoord)
    ensures Crosses(a, b, point) <==>
              (a.y <= point.y < b.y && Turn(point, a, b) > 0.0) || (b.y <= point.y < a.y && Turn(point, a, b) < 0.0)
  {
    if Straddles(a, b, point) {
      var w, h, n, k := b.x - a.x, b.y - a.y, point.y - a.y, point.x - a.x;
      var m := w * n;
      assert (m / h) * h == m;
      TurnIs(w, h, n, k);
      assert Turn(point, a, b) == m - k * h;
      SameSide(m / h - k, h);
      assert (m / h - k) * h == m - k * h;
      assert Crosses(a, b, point) <==> k < m / h;
    }
  }

  lemma TurnIs(w: real, h: real, n: real, k: real)
    ensures (-k) * (h - n) - (w - k) * (-n) == w * n - k * h
  {
  }

  lemma SameSide(d: real, h: real)
    requires h != 0.0
    ensures d > 0.0 <==> if h > 0.0 then d * h > 0.0 else d * h < 0.0
  {
  }

  /** `point` is the weighted mean of the three corners; as such every point of the plane can be written in
      exactly one way. */
  predicate Weighted(p: XYZCoord, q: XYZCoord, r: XYZCoord, u: real, v: real, w: real, point: XYZCoord) {
    && u + v + w == 1.0
    && point.x == u * p.x + v * q.x + w * r.x
    && point.y == u * p.y + v * q.y + w * r.y
  }

  /** The weight of a corner is the share of the triangle that the point makes with the other two. */
  lemma WeightIsShare(p: XYZCoord, q: XYZCoord, r: XYZCoord, u: real, v: real, w: real, point: XYZCoord)
    requires Weighted(p, q, r, u, v, w, point)
    ensures Turn(point, p, q) == w * Turn(p, q, r)
  {
    var x1, y1, x2, y2 := q.x - p.x, q.y - p.y, r.x - p.x, r.y - p.y;
    var dx, dy := point.x - p.x, point.y - p.y;
    Offset(p.x, q.x, r.x, u, v, w);
    Offset(p.y, q.y, r.y, u, v, w);
    assert dx == v * x1 + w * x2 && dy == v * y1 + w * y2;
    assert Turn(point, p, q) == (-dx) * (y1 - dy) - (x1 - dx) * (-dy);
    TurnIs(x1, y1, dy, dx);
    Shares(x1, y1, x2, y2, v, w);
  }

  lemma Offset(p: real, q: real, r: real, u: real, v: real, w: real)
    requires u + v + w == 1.0
    ensures u * p + v * q + w * r - p == v * (q - p) + w * (r - p)
  {
    assert u * p == (1.0 - v - w) * p == p - v * p - w * p;
  }

  lemma Shares(x1: real, y1: real, x2: real, y2: real, v: real, w: real)
    ensures x1 * (v * y1 + w * y2) - (v * x1 + w * x2) * y1 == w * (x1 * y2 - x2 * y1)
  {
    assert x1 * (v * y1 + w * y2) == v * (x1 * y1) + w * (x1 * y2);
    assert (v * x1 + w * x2) * y1 == v * (x1 * y1) + w * (x2 * y1);
  }

  lemma SignOfProduct(u: real, a: real)
    ensures u > 0.0 ==> (u * a > 0.0 <==> a > 0.0) && (u * a < 0.0 <==> a < 0.0)
    ensures u < 0.0 ==> (u * a > 0.0 <==> a < 0.0) && (u * a < 0.0 <==> a > 0.0)
    ensures u == 0.0 ==> u * a == 0.0
  {
  }

  /** Whether an edge is crossed, told by which of its ends are above the point and by the weight of the
      corner opposite to it. */
  predicate CrossedIf(aAbove: bool, bAbove: bool, side: real) {
    (!aAbove && bAbove && side > 0.0) || (aAbove && !bAbove && side < 0.0)
  }

  /** Around a triangle an odd number of edges is crossed if all weights are positive, an even number if
      one is negative. */
  lemma Around(a: real, b: real, c: real, u: real, v: real, w: real, d: real)
    requires u + v + w == 1.0 && u * a + v * b + w * c == 0.0 && d != 0.0
    requires !(a == b == c == 0.0)
    ensures var odd := Xor(Xor(CrossedIf(a > 0.0, b > 0.0, w * d), CrossedIf(b > 0.0, c > 0.0, u * d)),
                           CrossedIf(c > 0.0, a > 0.0, v * d));
            (u > 0.0 && v > 0.0 && w > 0.0 ==> odd) && (u < 0.0 || v < 0.0 || w < 0.0 ==> !odd)
  {
    SignOfProduct(u, a);
    SignOfProduct(v, b);
    SignOfProduct(w, c);
    SignOfProduct(d, u);
    SignOfProduct(d, v);
    SignOfProduct(d, w);
  }

  lemma LevelHasNoArea(p: XYZCoord, q: XYZCoord, r: XYZCoord)
    requires p.y == q.y == r.y
    ensures Turn(p, q, r) == 0.0
  {
  }

  lemma SameTurn(p: XYZCoord, q: XYZCoord, r: XYZCoord)
    ensures Turn(p, q, r) == Turn(q, r, p) == Turn(r, p, q)
  {
  }

  lemma Balanced(p: real, q: real, r: real, u: real, v: real, w: real, y: real)
    requires u + v + w == 1.0 && y == u * p + v * q + w * r
    ensures u * (p - y) + v * (q - y) + w * (r - y) == 0.0
  {
    assert u * y + v * y + w * y == (u + v + w) * y == y;
  }

  /** What lies within a triangle is inside, what lies off it is outside. */
  lemma TriangleInside(p: XYZCoord, q: XYZCoord, r: XYZCoord, u: real, v: real, w: real, point: XYZCoord)
    requires Turn(p, q, r) != 0.0 && Weighted(p, q, r, u, v, w, point)
    ensures u > 0.0 && v > 0.0 && w > 0.0 ==> Inside([p, q, r], point)
    ensures u < 0.0 || v < 0.0 || w < 0.0 ==> !Inside([p, q, r], point)
  {
    var d := Turn(p, q, r);
    var a, b, c := p.y - point.y, q.y - point.y, r.y - point.y;
    SameTurn(p, q, r);
    WeightIsShare(p, q, r, u, v, w, point);
    WeightIsShare(q, r, p, v, w, u, point);
    WeightIsShare(r, p, q, w, u, v, point);
    Balanced(p.y, q.y, r.y, u, v, w, point.y);
    if a == b == c == 0.0 { LevelHasNoArea(p, q, r); }
    Around(a, b, c, u, v, w, d);
    CrossesBySide(p, q, point);
    CrossesBySide(q, r, point);
    CrossesBySide(r, p, point);
    TriangleParity(p, q, r, point);
  }

  lemma TriangleParity(p: XYZCoord, q: XYZCoord, r: XYZCoord, point: XYZCoord)
    ensures Inside([p, q, r], point) ==
            Xor(Xor(Crosses(p, q, point), Crosses(q, r, point)), Crosses(r, p, point))
  {
    hide Crosses;
    var s := [p, q, r];
    assert s[1..] == [q, r] && s[1..][1..] == [r];
    assert ChainParity([r], point) == false;
    assert ChainParity([q, r], point) == Crosses(q, r, point) by { assert [q, r][1..] == [r]; }
    assert ChainParity(s, point) == Xor(Crosses(p, q, point), ChainParity([q, r], point));
  }

  /** Every point of the plane has its weights. */
  lemma Weights(p: XYZCoord, q: XYZCoord, r: XYZCoord, point: XYZCoord) returns (u: real, v: real, w: real)
    requires Turn(p, q, r) != 0.0
    ensures Weighted(p, q, r, u, v, w, point)
  {
    var d := Turn(p, q, r);
    u, v, w := Turn(point, q, r) / d, Turn(point, r, p) / d, Turn(point, p, q) / d;
    assert u * d == Turn(point, q, r) && v * d == Turn(point, r, p) && w * d == Turn(point, p, q);
    TurnsAddUp(p, q, r, point);
    assert (u + v + w) * d == u * d + v * d + w * d;
    Cancel(u + v + w, 1.0, d);
    Cancel3(u, v, w, p.x, q.x, r.x, point.x, d);
    Cancel3(u, v, w, p.y, q.y, r.y, point.y, d);
  }

  lemma TurnsAddUp(p: XYZCoord, q: XYZCoord, r: XYZCoord, point: XYZCoord)
    ensures var d, u, v, w := Turn(p, q, r), Turn(point, q, r), Turn(point, r, p), Turn(point, p, q);
            && u + v + w == d
            && u * p.x + v * q.x + w * r.x == d * point.x
            && u * p.y + v * q.y + w * r.y == d * point.y
  {
  }

  lemma Cancel3(u: real, v: real, w: real, a: real, b: real, c: real, z: real, d: real)
    requires d != 0.0 && (u * d) * a + (v * d) * b + (w * d) * c == d * z
    ensures z == u * a + v * b + w * c
  {
    assert (u * d) * a == (u * a) * d && (v * d) * b == (v * b) * d && (w * d) * c == (w * c) * d;
    assert (u * a + v * b + w * c) * d == (u * a) * d + (v * b) * d + (w * c) * d;
    Cancel(u * a + v * b + w * c, z, d);
  }

  method IsPointInPolygon(polygon: Polygon, point: XYZCoord) returns (isInside: bool)
    ensures isInside == Inside(polygon, point)
  {
    isInside := false;
    var i, j := 0, |polygon| - 1;
    while i < |polygon|
      invariant 0 <= i <= |polygon|
      invariant j == if i == 0 then |polygon| - 1 else i - 1
      invariant i == 0 ==> !isInside
      invariant i > 0 ==>
        isInside == Xor(ChainParity(polygon[..i], point), Crosses(polygon[|polygon| - 1], polygon[0], point))
    {
      if Crosses(polygon[i], polygon[j], point) {
        isInside := !isInside;
      }
      CrossesSymmetric(polygon[i], polygon[j], point);
      if i > 0 {
        Glue(polygon[..i], [polygon[i]], point);
        assert polygon[..i] + [polygon[i]] == polygon[..i + 1];
      }
      j := i;
      i := i + 1;
    }
    assert polygon[..|polygon|] == polygon;
  }
}

module Environments {
  import opened Points
  import opened RayCast

  /** How many points the path check steps over. */
  const ENV_PATH_VALIDATION_STEP_SIZE := 5

  datatype Environment = Environment(validRegion: Polygon, goals: seq<XYZCoord>, obstacles: seq<Polygon>)
  {
    ghost predicate PointInBounds(point: XYZCoord) {
      Inside(validRegion, point) && forall o | o in obstacles :: !Inside(o, point)
    }

    /** The points of a path of `size` points that the check looks at: the centre one and those
        whose distance from it is not a multiple of the step. */
    static predicate Sampled(size: nat, k: int) {
      0 <= k < size &&
      (k == size / 2 || (k - size / 2) % ENV_PATH_VALIDATION_STEP_SIZE != 0)
    }

    ghost predicate PathInBounds(path: seq<XYZCoord>) {
      forall k | 0 <= k < |path| && Sampled(|path|, k) :: PointInBounds(path[k])
    }

    /** Stepped over are exactly the points five, ten, fifteen, ... away from the centre, on either side. */
    static lemma SteppedOver(size: nat, k: nat)
      requires k < size
      ensures !Sampled(size, k) <==> exists j: nat :: j > 0 && (k == size / 2 + 5 * j || k == size / 2 - 5 * j)
    {
      if !Sampled(size, k) {
        var j := if k > size / 2 then (k - size / 2) / 5 else (size / 2 - k) / 5;
        assert j > 0 && (k == size / 2 + 5 * j || k == size / 2 - 5 * j);
      }
    }

    /** One more obstacle takes away exactly what is in it; without any, the region counts. */
    lemma ObstacleAdded(o: Polygon, point: XYZCoord)
      ensures this.(obstacles := obstacles + [o]).PointInBounds(point) <==> PointInBounds(point) && !Inside(o, point)
      ensures this.(obstacles := []).PointInBounds(point) <==> Inside(validRegion, point)
    {
      hide Inside;
      var more := obstacles + [o];
      assert o in more && forall x | x in obstacles :: x in more;
      assert forall x | x in more :: x in obstacles || x == o;
    }

    /** A stretch of two points out of bounds is always seen. */
    lemma ConsecutiveSeen(path: seq<XYZCoord>, k: nat)
      requires k + 1 < |path| && !PointInBounds(path[k]) && !PointInBounds(path[k + 1])
      ensures !PathInBounds(path)
    {
      hide PointInBounds;
      assert Sampled(|path|, k) || Sampled(|path|, k + 1);
    }

    /** A single one is seen exactly when it is looked at. */
    lemma LonePointSeen(path: seq<XYZCoord>, k: nat)
      requires k < |path| && forall j | 0 <= j < |path| :: PointInBounds(path[j]) <==> j != k
      ensures PathInBounds(path) <==> !Sampled(|path|, k)
    {
      hide PointInBounds;
    }

    method IsPointInBounds(point: XYZCoord) returns (ok: bool)
      ensures ok == PointInBounds(point)
    {
      var inside := IsPointInPolygon(validRegion, point);
      if !inside {
        return false;
      }
      for i := 0 to |obstacles|
        invariant forall o | o in obstacles[..i] :: !Inside(o, point)
      {
        var hit := IsPointInPolygon(obstacles[i], point);
        if hit {
          return false;
        }
        assert obstacles[..i + 1] == obstacles[..i] + [obstacles[i]];
      }
      return true;
    }

    method IsPathInBounds(path: seq<XYZCoord>) returns (ok: bool)
      requires |path| > 0
      ensures ok == PathInBounds(path)
    {
      hide PointInBounds;
      var center := |path| / 2;
      var interval := ENV_PATH_VALIDATION_STEP_SIZE;
      ghost var clear := seq(|path|, k requires 0 <= k < |path| => PointInBounds(path[k]));
      ok := IsPointInBounds(path[center]);
      if !ok {
        assert Sampled(|path|, center);
        return false;
      }
      var i := 1;
      while i < interval
        invariant 1 <= i <= interval
        invariant forall j | 0 < j < i :: AheadClear(clear, center, |path|, j) && BehindClear(clear, center, -1, j)
      {
        var count := center + i;
        while count < |path|
          invariant center < count && (count - center) % interval == i
          invariant AheadClear(clear, center, count, i)
        {
          ok := IsPointInBounds(path[count]);
          if !ok {
            assert Sampled(|path|, count);
            return false;
          }
          AheadStep(clear, center, count, i);
          count := count + interval;
        }
        count := center - i;
        while count >= 0
          invariant count < center && (center - count) % interval == i
          invariant BehindClear(clear, center, count, i)
        {
          ok := IsPointInBounds(path[count]);
          if !ok {
            OppositeResidue(center - count);
            assert Sampled(|path|, count);
            return false;
          }
          BehindStep(clear, center, count, i);
          count := count - interval;
        }
        i := i + 1;
      }
      ResiduesCover(clear, center);
      assert forall k | 0 <= k < |path| :: clear[k] == PointInBounds(path[k]);
      return true;
    }
  }

  /** The points ahead of the centre at distances `j`, `j + 5`, ..., short of `stop`. */
  ghost predicate AheadClear(clear: seq<bool>, center: nat, stop: int, j: nat) {
    forall k | center < k < |clear| && k < stop && (k - center) % ENV_PATH_VALIDATION_STEP_SIZE == j :: clear[k]
  }

  /** The points behind the centre at distances `j`, `j + 5`, ..., down to past `stop`. */
  ghost predicate BehindClear(clear: seq<bool>, center: nat, stop: int, j: nat) {
    forall k | 0 <= k < center && k < |clear| && stop < k && (center - k) % ENV_PATH_VALIDATION_STEP_SIZE == j ::
      clear[k]
  }

  lemma AheadStep(clear: seq<bool>, center: nat, count: int, j: nat)
    requires center < count < |clear| && clear[count] && AheadClear(clear, center, count, j)
    requires (count - center) % ENV_PATH_VALIDATION_STEP_SIZE == j
    ensures AheadClear(clear, center, count + ENV_PATH_VALIDATION_STEP_SIZE, j)
    ensures (count + ENV_PATH_VALIDATION_STEP_SIZE - center) % ENV_PATH_VALIDATION_STEP_SIZE == j
  {
  }

  lemma BehindStep(clear: seq<bool>, center: nat, count: int, j: nat)
    requires 0 <= count < center < |clear| && clear[count] && BehindClear(clear, center, count, j)
    requires (center - count) % ENV_PATH_VALIDATION_STEP_SIZE == j
    ensures BehindClear(clear, center, count - ENV_PATH_VALIDATION_STEP_SIZE, j)
    ensures (center - (count - ENV_PATH_VALIDATION_STEP_SIZE)) % ENV_PATH_VALIDATION_STEP_SIZE == j
  {
  }

  lemma OppositeResidue(d: int)
    ensures d % ENV_PATH_VALIDATION_STEP_SIZE != 0 <==> (-d) % ENV_PATH_VALIDATION_STEP_SIZE != 0
  {
    var q, r := d / 5, d % 5;
    var p, s := (-d) / 5, (-d) % 5;
    assert d == 5 * q + r && -d == 5 * p + s;
    assert r + s == -5 * (p + q);
  }

  lemma ResiduesCover(clear: seq<bool>, center: nat)
    requires center == |clear| / 2 && |clear| > 0 && clear[center]
    requires forall j | 0 < j < ENV_PATH_VALIDATION_STEP_SIZE ::
               AheadClear(clear, center, |clear|, j) && BehindClear(clear, center, -1, j)
    ensures forall k | 0 <= k < |clear| && Environment.Sampled(|clear|, k) :: clear[k]
  {
    forall k | 0 <= k < |clear| && Environment.Sampled(|clear|, k)
      ensures clear[k]
    {
      if k > center {
        assert AheadClear(clear, center, |clear|, (k - center) % ENV_PATH_VALIDATION_STEP_SIZE);
      } else if k < center {
        OppositeResidue(center - k);
        assert BehindClear(clear, center, -1, (center - k) % ENV_PATH_VALIDATION_STEP_SIZE);
      }
    }
  }
}
