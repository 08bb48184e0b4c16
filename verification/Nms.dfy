/** Non-maximum suppression: of boxes of one class that overlap too much, only the best survives. */
module Nms {
  import opened Reals
  import opened Sorting

  datatype ClassId = ClassId(id: int)

  datatype Detection = Detection(x1: real, y1: real, x2: real, y2: real, confidence: real, classId: ClassId)

  // ----- overlap

  /** An inverted box has no area. */
  function Area(d: Detection): real {
    Max(0.0, d.x2 - d.x1) * Max(0.0, d.y2 - d.y1)
  }

  /** How much of two intervals is common. */
  function Common(a1: real, a2: real, b1: real, b2: real): real {
    Max(0.0, Min(a2, b2) - Max(a1, b1))
  }

  function Intersection(a: Detection, b: Detection): real {
    Common(a.x1, a.x2, b.x1, b.x2) * Common(a.y1, a.y2, b.y1, b.y2)
  }

  function ComputeIoU(a: Detection, b: Detection): real {
    var inter := Intersection(a, b);
    var uni := Area(a) + Area(b) - inter;
    if uni <= 0.0 then 0.0 else inter / uni
  }

  lemma ProductMonotone(a: real, b: real, c: real, d: real)
    requires 0.0 <= a <= c && 0.0 <= b <= d
    ensures 0.0 <= a * b <= c * d
  {
    assert (c - a) * b >= 0.0 && c * (d - b) >= 0.0;
  }

  lemma IntersectionWithin(a: Detection, b: Detection)
    ensures 0.0 <= Intersection(a, b) <= Area(a)
    ensures Intersection(a, b) == Intersection(b, a)
  {
    hide Max, Common;
    CommonWithin(a.x1, a.x2, b.x1, b.x2);
    CommonWithin(a.y1, a.y2, b.y1, b.y2);
    ProductMonotone(Common(a.x1, a.x2, b.x1, b.x2), Common(a.y1, a.y2, b.y1, b.y2),
                    Max(0.0, a.x2 - a.x1), Max(0.0, a.y2 - a.y1));
  }

  lemma CommonWithin(a1: real, a2: real, b1: real, b2: real)
    ensures 0.0 <= Common(a1, a2, b1, b2) <= Max(0.0, a2 - a1)
    ensures Common(a1, a2, b1, b2) == Common(b1, b2, a1, a2)
    ensures Common(a1, a2, a1, a2) == Max(0.0, a2 - a1)
  {
  }

  /** For any two boxes, inverted ones included. */
  lemma IoUBounds(a: Detection, b: Detection)
    ensures 0.0 <= ComputeIoU(a, b) <= 1.0
    ensures ComputeIoU(a, b) == ComputeIoU(b, a)
  {
    hide Area, Intersection;
    IntersectionWithin(a, b);
    IntersectionWithin(b, a);
    Ratio(Intersection(a, b), Area(a) + Area(b) - Intersection(a, b));
  }

  lemma Ratio(n: real, d: real)
    ensures 0.0 <= n <= d && d > 0.0 ==> 0.0 <= n / d <= 1.0
    ensures d > 0.0 ==> (n / d == 1.0 <==> n == d)
  {
  }

  /** A box overlaps itself fully, unless it has no area. */
  lemma IoUWithItself(d: Detection)
    ensures ComputeIoU(d, d) == if Area(d) > 0.0 then 1.0 else 0.0
  {
    hide Area, Intersection;
    SelfIntersection(d);
    Ratio(Area(d), Area(d));
  }

  lemma SelfIntersection(d: Detection)
    ensures Intersection(d, d) == Area(d) >= 0.0
  {
    hide Max, Common;
    IntersectionWithin(d, d);
    CommonWithin(d.x1, d.x2, d.x1, d.x2);
    CommonWithin(d.y1, d.y2, d.y1, d.y2);
  }

  predicate Between(a: real, x: real, b: real) {
    a < x < b
  }

  /** A point in the interior of a box. */
  predicate Interior(d: Detection, x: real, y: real) {
    Between(d.x1, x, d.x2) && Between(d.y1, y, d.y2)
  }

  lemma CommonPoint(a1: real, a2: real, b1: real, b2: real, x: real)
    ensures Between(a1, x, a2) && Between(b1, x, b2) ==> Common(a1, a2, b1, b2) > 0.0
    ensures Common(a1, a2, b1, b2) > 0.0 ==>
              var m := (Max(a1, b1) + Min(a2, b2)) / 2.0; Between(a1, m, a2) && Between(b1, m, b2)
  {
  }

  lemma ProductPositive(a: real, b: real)
    requires a >= 0.0 && b >= 0.0
    ensures a * b >= 0.0 && (a * b > 0.0 <==> a > 0.0 && b > 0.0)
  {
  }

  lemma IntersectionPositive(a: Detection, b: Detection)
    ensures Intersection(a, b) > 0.0 <==> exists x: real, y: real :: Interior(a, x, y) && Interior(b, x, y)
  {
    hide Common, Between;
    CommonWithin(a.x1, a.x2, b.x1, b.x2);
    CommonWithin(a.y1, a.y2, b.y1, b.y2);
    ProductPositive(Common(a.x1, a.x2, b.x1, b.x2), Common(a.y1, a.y2, b.y1, b.y2));
    if Intersection(a, b) > 0.0 {
      CommonPoint(a.x1, a.x2, b.x1, b.x2, 0.0);
      CommonPoint(a.y1, a.y2, b.y1, b.y2, 0.0);
      var x, y := (Max(a.x1, b.x1) + Min(a.x2, b.x2)) / 2.0, (Max(a.y1, b.y1) + Min(a.y2, b.y2)) / 2.0;
      assert Interior(a, x, y) && Interior(b, x, y);
    }
    forall x: real, y: real | Interior(a, x, y) && Interior(b, x, y) ensures Intersection(a, b) > 0.0 {
      SharedInterior(a, b, x, y);
    }
  }

  lemma SharedInterior(a: Detection, b: Detection, x: real, y: real)
    requires Interior(a, x, y) && Interior(b, x, y)
    ensures Intersection(a, b) > 0.0
  {
    hide Common, Between;
    CommonPoint(a.x1, a.x2, b.x1, b.x2, x);
    CommonPoint(a.y1, a.y2, b.y1, b.y2, y);
    assert Common(a.x1, a.x2, b.x1, b.x2) > 0.0 && Common(a.y1, a.y2, b.y1, b.y2) > 0.0;
    ProductPositive(Common(a.x1, a.x2, b.x1, b.x2), Common(a.y1, a.y2, b.y1, b.y2));
  }

  lemma RatioPositive(n: real, d: real)
    requires d > 0.0
    ensures n / d > 0.0 <==> n > 0.0
  {
  }

  /** Two boxes overlap at all exactly when their interiors have a point in common. */
  lemma IoUPositive(a: Detection, b: Detection)
    ensures ComputeIoU(a, b) > 0.0 <==> exists x: real, y: real :: Interior(a, x, y) && Interior(b, x, y)
  {
    hide Area, Intersection, Interior;
    IntersectionWithin(a, b);
    IntersectionWithin(b, a);
    IntersectionPositive(a, b);
    if Area(a) + Area(b) - Intersection(a, b) > 0.0 {
      RatioPositive(Intersection(a, b), Area(a) + Area(b) - Intersection(a, b));
    }
  }

  // ----- what the overlap measures

  /** The interior of `c` is what the interiors of `a` and `b` have in common. */
  ghost predicate IsCommon(a: Detection, b: Detection, c: Detection) {
    forall x: real, y: real :: Interior(c, x, y) <==> Interior(a, x, y) && Interior(b, x, y)
  }

  /** Two open intervals, the first not empty, are the same only if their ends are. */
  lemma SameInterval(c1: real, c2: real, d1: real, d2: real)
    requires c1 < c2 && forall x: real :: Between(c1, x, c2) <==> Between(d1, x, d2)
    ensures c1 == d1 && c2 == d2
  {
    var m := (c1 + c2) / 2.0;
    assert Between(c1, m, c2);
    assert Between(c1, (c1 + m) / 2.0, c2) && Between(c1, (m + c2) / 2.0, c2);
    assert (Between(c1, c1, c2) <==> Between(d1, c1, d2)) && (Between(c1, c2, c2) <==> Between(d1, c2, d2));
    assert (Between(c1, d1, c2) <==> Between(d1, d1, d2)) && (Between(c1, d2, c2) <==> Between(d1, d2, d2));
  }

  /** The part of the plane that two boxes share is a box. */
  function Shared(a: Detection, b: Detection): Detection {
    a.(x1 := Max(a.x1, b.x1), y1 := Max(a.y1, b.y1), x2 := Min(a.x2, b.x2), y2 := Min(a.y2, b.y2))
  }

  lemma SharedIsCommon(a: Detection, b: Detection)
    ensures IsCommon(a, b, Shared(a, b)) && Area(Shared(a, b)) == Intersection(a, b)
  {
  }

  /** Only boxes with the same ends have the same interior, unless it is empty. */
  lemma SameInterior(c: Detection, d: Detection)
    requires forall x: real, y: real :: Interior(c, x, y) <==> Interior(d, x, y)
    ensures Area(c) == Area(d)
  {
    hide Between;
    if c.x1 < c.x2 && c.y1 < c.y2 {
      NonEmpty(c, d);
    } else if d.x1 < d.x2 && d.y1 < d.y2 {
      NonEmpty(d, c);
    } else {
      NoArea(c);
      NoArea(d);
    }
  }

  lemma NoArea(d: Detection)
    requires d.x1 >= d.x2 || d.y1 >= d.y2
    ensures Area(d) == 0.0
  {
  }

  lemma NonEmpty(c: Detection, d: Detection)
    requires c.x1 < c.x2 && c.y1 < c.y2
    requires forall x: real, y: real :: Interior(c, x, y) <==> Interior(d, x, y)
    ensures Area(c) == Area(d)
  {
    var mx, my := (c.x1 + c.x2) / 2.0, (c.y1 + c.y2) / 2.0;
    assert Between(c.x1, mx, c.x2) && Between(c.y1, my, c.y2);
    assert Interior(c, mx, my) && Interior(d, mx, my);
    hide Between;
    forall x: real ensures Between(c.x1, x, c.x2) <==> Between(d.x1, x, d.x2) {
      assert Interior(c, x, my) <==> Interior(d, x, my);
    }
    forall y: real ensures Between(c.y1, y, c.y2) <==> Between(d.y1, y, d.y2) {
      assert Interior(c, mx, y) <==> Interior(d, mx, y);
    }
    SameInterval(c.x1, c.x2, d.x1, d.x2);
    SameInterval(c.y1, c.y2, d.y1, d.y2);
  }

  /** The overlap is the area of the common part, measured by the area of all that the two boxes cover. */
  lemma OverlapOfUnion(a: Detection, b: Detection, c: Detection)
    requires IsCommon(a, b, c)
    ensures ComputeIoU(a, b) * (Area(a) + Area(b) - Area(c)) == Area(c)
  {
    hide Area, Intersection, Interior, Shared;
    SharedIsCommon(a, b);
    SameInterior(c, Shared(a, b));
    IntersectionWithin(a, b);
    IntersectionWithin(b, a);
  }

  /** A box inside another overlaps it by the ratio of their areas. */
  lemma OverlapOfContained(a: Detection, b: Detection)
    requires forall x: real, y: real :: Interior(a, x, y) ==> Interior(b, x, y)
    ensures ComputeIoU(a, b) * Area(b) == Area(a)
  {
    hide Area, Intersection, Interior;
    OverlapOfUnion(a, b, a);
  }

  /** Areas: a box cut in two has the area of both parts, the unit square has area one, and moving a box
      does not change it. */
  lemma AreaSplits(d: Detection, x: real, y: real)
    ensures d.x1 <= x <= d.x2 ==> Area(d) == Area(d.(x2 := x)) + Area(d.(x1 := x))
    ensures d.y1 <= y <= d.y2 ==> Area(d) == Area(d.(y2 := y)) + Area(d.(y1 := y))
  {
    if d.x1 <= x <= d.x2 {
      Distributes(x - d.x1, d.x2 - x, Max(0.0, d.y2 - d.y1));
    }
    if d.y1 <= y <= d.y2 {
      Distributes(y - d.y1, d.y2 - y, Max(0.0, d.x2 - d.x1));
    }
  }

  lemma Distributes(a: real, b: real, h: real)
    ensures (a + b) * h == a * h + b * h && h * (a + b) == h * a + h * b
  {
  }

  lemma AreaMoves(d: Detection, dx: real, dy: real)
    ensures Area(Detection(d.x1 + dx, d.y1 + dy, d.x2 + dx, d.y2 + dy, d.confidence, d.classId)) == Area(d)
    ensures d.x2 == d.x1 + 1.0 && d.y2 == d.y1 + 1.0 ==> Area(d) == 1.0
    ensures Area(d) > 0.0 <==> d.x1 < d.x2 && d.y1 < d.y2
  {
    assert (d.x2 + dx) - (d.x1 + dx) == d.x2 - d.x1 && (d.y2 + dy) - (d.y1 + dy) == d.y2 - d.y1;
    ProductPositive(Max(0.0, d.x2 - d.x1), Max(0.0, d.y2 - d.y1));
  }

  lemma WholeProduct(a: real, b: real, c: real, d: real)
    requires 0.0 <= a <= c && 0.0 <= b <= d && a * b == c * d > 0.0
    ensures a == c > 0.0 && b == d > 0.0
  {
    ProductPositive(a, b);
    ProductPositive(c, d);
    Slack(c - a, b);
    Slack(d - b, c);
    assert a * b == c * b - (c - a) * b;
    assert c * b == c * d - (d - b) * c;
  }

  lemma Slack(s: real, h: real)
    requires s >= 0.0 && h > 0.0
    ensures s * h >= 0.0 && (s * h == 0.0 ==> s == 0.0)
  {
  }

  lemma CommonWhole(a1: real, a2: real, b1: real, b2: real)
    requires Common(a1, a2, b1, b2) == Max(0.0, a2 - a1) == Max(0.0, b2 - b1) > 0.0
    ensures a1 == b1 && a2 == b2
  {
  }

  predicate SameBox(a: Detection, b: Detection) {
    a.x1 == b.x1 && a.y1 == b.y1 && a.x2 == b.x2 && a.y2 == b.y2
  }

  lemma SameBoxSameOverlap(a: Detection, b: Detection)
    requires SameBox(a, b)
    ensures ComputeIoU(a, b) == ComputeIoU(a, a)
  {
    hide Area, Intersection;
    SameBoxSameArea(a, b);
  }

  lemma SameBoxSameArea(a: Detection, b: Detection)
    requires SameBox(a, b)
    ensures Area(b) == Area(a) && Intersection(a, b) == Intersection(a, a)
  {
    hide Common;
    var w, h := Max(0.0, a.x2 - a.x1), Max(0.0, a.y2 - a.y1);
    assert Max(0.0, b.x2 - b.x1) == w && Max(0.0, b.y2 - b.y1) == h;
    assert Area(b) == w * h == Area(a);
    assert Common(a.x1, a.x2, b.x1, b.x2) == Common(a.x1, a.x2, a.x1, a.x2);
    assert Common(a.y1, a.y2, b.y1, b.y2) == Common(a.y1, a.y2, a.y1, a.y2);
  }

  lemma FullOverlap(a: Detection, b: Detection)
    requires ComputeIoU(a, b) == 1.0
    ensures Intersection(a, b) == Area(a) == Area(b) > 0.0
  {
    hide Area, Intersection;
    IntersectionWithin(a, b);
    IntersectionWithin(b, a);
    Ratio(Intersection(a, b), Area(a) + Area(b) - Intersection(a, b));
  }

  /** They overlap fully exactly when they are the same box, and it has an area. */
  lemma IoUOne(a: Detection, b: Detection)
    ensures ComputeIoU(a, b) == 1.0 <==> Area(a) > 0.0 && SameBox(a, b)
  {
    hide Area, ComputeIoU;
    IoUWithItself(a);
    if SameBox(a, b) { SameBoxSameOverlap(a, b); }
    if ComputeIoU(a, b) == 1.0 {
      FullOverlap(a, b);
      SameArea(a, b);
    }
  }

  lemma SameArea(a: Detection, b: Detection)
    requires Intersection(a, b) == Area(a) == Area(b) > 0.0
    ensures SameBox(a, b)
  {
    hide Max, Common;
    CommonWithin(a.x1, a.x2, b.x1, b.x2);
    CommonWithin(a.y1, a.y2, b.y1, b.y2);
    CommonWithin(b.x1, b.x2, a.x1, a.x2);
    CommonWithin(b.y1, b.y2, a.y1, a.y2);
    var w, h := Common(a.x1, a.x2, b.x1, b.x2), Common(a.y1, a.y2, b.y1, b.y2);
    WholeProduct(w, h, Max(0.0, a.x2 - a.x1), Max(0.0, a.y2 - a.y1));
    WholeProduct(w, h, Max(0.0, b.x2 - b.x1), Max(0.0, b.y2 - b.y1));
    CommonWhole(a.x1, a.x2, b.x1, b.x2);
    CommonWhole(a.y1, a.y2, b.y1, b.y2);
  }

  // ----- what suppression promises

  predicate Suppresses(k: Detection, d: Detection, threshold: real) {
    k.classId == d.classId && ComputeIoU(k, d) > threshold
  }

  /** No kept box overlaps another one of its class too much. */
  predicate Apart(kept: seq<Detection>, threshold: real) {
    forall i, j | 0 <= i < j < |kept| :: !Suppresses(kept[i], kept[j], threshold)
  }

  /** Some kept box, at least as good, stands for `d`. */
  ghost predicate Represented(d: Detection, kept: seq<Detection>, threshold: real) {
    exists k :: k in kept && k.confidence >= d.confidence && Suppresses(k, d, threshold)
  }

  /** The kept boxes come from the input, each no more often than there; none of them is in the way of
      another; and whatever was left out is represented. */
  ghost predicate Suppressed(detections: seq<Detection>, kept: seq<Detection>, threshold: real) {
    && multiset(kept) <= multiset(detections)
    && Apart(kept, threshold)
    && (forall d | multiset(kept)[d] < multiset(detections)[d] :: Represented(d, kept, threshold))
  }

  // ----- one class, sorted

  ghost predicate Descending(s: seq<Detection>) {
    forall i, j | 0 <= i < j < |s| :: s[i].confidence >= s[j].confidence
  }

  function Spared(d: Detection, s: seq<Detection>, threshold: real): seq<Detection> {
    if s == [] then []
    else (if ComputeIoU(d, s[0]) > threshold then [] else [s[0]]) + Spared(d, s[1..], threshold)
  }

  lemma {:induction false} SparedFewer(d: Detection, s: seq<Detection>, threshold: real)
    ensures |Spared(d, s, threshold)| <= |s|
  {
    if s != [] { SparedFewer(d, s[1..], threshold); }
  }

  /** Keep the first, drop what it suppresses, go on with the rest. */
  function Greedy(s: seq<Detection>, threshold: real): seq<Detection>
    decreases |s|
  {
    if s == [] then []
    else
      SparedFewer(s[0], s[1..], threshold);
      [s[0]] + Greedy(Spared(s[0], s[1..], threshold), threshold)
  }

  lemma {:induction false} SparedMember(x: Detection, s: seq<Detection>, threshold: real, d: Detection)
    requires d in Spared(x, s, threshold)
    ensures d in s && ComputeIoU(x, d) <= threshold
  {
    if d in Spared(x, s[1..], threshold) { SparedMember(x, s[1..], threshold, d); }
  }

  function Count(s: seq<Detection>, d: Detection): nat {
    multiset(s)[d]
  }

  lemma CountJoin(s: seq<Detection>, t: seq<Detection>, d: Detection)
    ensures Count(s + t, d) == Count(s, d) + Count(t, d)
  {
  }

  lemma CountFirst(s: seq<Detection>, d: Detection)
    requires s != []
    ensures Count(s, d) == (if s[0] == d then 1 else 0) + Count(s[1..], d)
  {
    assert s == [s[0]] + s[1..];
  }

  lemma CountOne(x: Detection, d: Detection)
    ensures Count([x], d) == if x == d then 1 else 0
  {
  }

  lemma CountMember(s: seq<Detection>, d: Detection)
    ensures d in s <==> Count(s, d) > 0
  {
    assert d in s <==> d in multiset(s);
  }

  /** All occurrences of `d` are spared, or none. */
  lemma {:induction false} SparedCount(x: Detection, s: seq<Detection>, threshold: real, d: Detection)
    ensures Count(Spared(x, s, threshold), d) == if ComputeIoU(x, d) > threshold then 0 else Count(s, d)
  {
    hide Count, ComputeIoU;
    if s != [] {
      SparedCount(x, s[1..], threshold, d);
      CountFirst(s, d);
      CountOne(s[0], d);
      CountJoin([s[0]], Spared(x, s[1..], threshold), d);
      assert [] + Spared(x, s[1..], threshold) == Spared(x, s[1..], threshold);
    } else {
      NoneCounted(d);
    }
  }

  lemma NoneCounted(d: Detection)
    ensures Count([], d) == 0
  {
  }

  lemma GreedyUnfold(s: seq<Detection>, threshold: real, d: Detection)
    requires s != []
    ensures Count(Greedy(s, threshold), d) ==
            (if s[0] == d then 1 else 0) + Count(Greedy(Spared(s[0], s[1..], threshold), threshold), d)
  {
    hide Count, Spared;
    CountJoin([s[0]], Greedy(Spared(s[0], s[1..], threshold), threshold), d);
    CountOne(s[0], d);
  }

  lemma {:induction false} GreedyCount(s: seq<Detection>, threshold: real, d: Detection)
    ensures Count(Greedy(s, threshold), d) <= Count(s, d)
    decreases |s|
  {
    hide Count, Spared, ComputeIoU;
    if s != [] {
      SparedFewer(s[0], s[1..], threshold);
      GreedyCount(Spared(s[0], s[1..], threshold), threshold, d);
      SparedCount(s[0], s[1..], threshold, d);
      GreedyUnfold(s, threshold, d);
      CountFirst(s, d);
    }
  }

  lemma GreedyMember(s: seq<Detection>, threshold: real, d: Detection)
    requires d in Greedy(s, threshold)
    ensures d in s
  {
    hide Count, Greedy;
    GreedyCount(s, threshold, d);
    CountMember(s, d);
    CountMember(Greedy(s, threshold), d);
  }

  lemma {:induction false} GreedyApart(s: seq<Detection>, threshold: real)
    ensures Apart(Greedy(s, threshold), threshold)
    decreases |s|
  {
    hide ComputeIoU, Spared;
    if s != [] {
      var rest := Spared(s[0], s[1..], threshold);
      SparedFewer(s[0], s[1..], threshold);
      GreedyApart(rest, threshold);
      forall j | 0 <= j < |Greedy(rest, threshold)| ensures !Suppresses(s[0], Greedy(rest, threshold)[j], threshold) {
        GreedyMember(rest, threshold, Greedy(rest, threshold)[j]);
        SparedMember(s[0], s[1..], threshold, Greedy(rest, threshold)[j]);
      }
    }
  }

  lemma {:induction false} SparedDescending(x: Detection, s: seq<Detection>, threshold: real)
    requires Descending(s)
    ensures Descending(Spared(x, s, threshold))
  {
    hide ComputeIoU;
    if s != [] {
      SparedDescending(x, s[1..], threshold);
      var rest := Spared(x, s[1..], threshold);
      forall j | 0 <= j < |rest| ensures s[0].confidence >= rest[j].confidence {
        SparedMember(x, s[1..], threshold, rest[j]);
      }
    }
  }

  predicate AllOf(s: seq<Detection>, c: ClassId) {
    forall d | d in s :: d.classId == c
  }

  lemma {:induction false} GreedyRepresents(s: seq<Detection>, c: ClassId, threshold: real, d: Detection)
    requires Descending(s) && AllOf(s, c) && Count(Greedy(s, threshold), d) < Count(s, d)
    ensures Represented(d, Greedy(s, threshold), threshold)
    decreases |s|
  {
    hide ComputeIoU, Spared, Count;
    CountMember(s, d);
    var rest := Spared(s[0], s[1..], threshold);
    SparedCount(s[0], s[1..], threshold, d);
    GreedyUnfold(s, threshold, d);
    CountFirst(s, d);
    if ComputeIoU(s[0], d) > threshold {
      assert s[0] in Greedy(s, threshold);
    } else {
      SparedDescending(s[0], s[1..], threshold);
      SparedFewer(s[0], s[1..], threshold);
      forall e | e in rest ensures e.classId == c { SparedMember(s[0], s[1..], threshold, e); }
      GreedyRepresents(rest, c, threshold, d);
    }
  }

  // ----- the marks

  /** From `from` on, the boxes that are not marked. */
  function Alive(dets: seq<Detection>, marks: seq<bool>, from: nat): seq<Detection>
    requires |marks| == |dets|
    decreases |dets| - from
  {
    if from >= |dets| then []
    else (if marks[from] then [] else [dets[from]]) + Alive(dets, marks, from + 1)
  }

  lemma {:induction false} NothingMarked(dets: seq<Detection>, marks: seq<bool>, from: nat)
    requires |marks| == |dets| && from <= |dets| && forall k | 0 <= k < |marks| :: !marks[k]
    ensures Alive(dets, marks, from) == dets[from..]
    decreases |dets| - from
  {
    if from < |dets| {
      NothingMarked(dets, marks, from + 1);
      assert dets[from..] == [dets[from]] + dets[from + 1..];
    }
  }

  /** Beyond `from`, `now` marks what `was` marked, and what `x` suppresses. */
  predicate MarkedBy(x: Detection, dets: seq<Detection>, was: seq<bool>, now: seq<bool>, from: nat, to: nat,
                     threshold: real)
    requires |was| == |now| == |dets|
  {
    forall k | from <= k < to && k < |dets| :: now[k] == (was[k] || ComputeIoU(x, dets[k]) > threshold)
  }

  lemma {:induction false} MarkingSpares(x: Detection, dets: seq<Detection>, was: seq<bool>, now: seq<bool>, from: nat,
                                         threshold: real)
    requires |was| == |now| == |dets| && MarkedBy(x, dets, was, now, from, |dets|, threshold)
    ensures Alive(dets, now, from) == Spared(x, Alive(dets, was, from), threshold)
    decreases |dets| - from
  {
    hide ComputeIoU, Spared;
    if from < |dets| {
      MarkingSpares(x, dets, was, now, from + 1, threshold);
      SparedSplit(x, if was[from] then [] else [dets[from]], Alive(dets, was, from + 1), threshold);
    } else {
      SparedSplit(x, [], [], threshold);
    }
  }

  lemma SparedSplit(x: Detection, first: seq<Detection>, rest: seq<Detection>, threshold: real)
    requires |first| <= 1
    ensures Spared(x, first + rest, threshold) ==
            (if first != [] && ComputeIoU(x, first[0]) <= threshold then first else []) + Spared(x, rest, threshold)
    ensures Spared(x, [], threshold) == []
  {
    if first == [] { assert first + rest == rest; } else { assert (first + rest)[1..] == rest; }
  }

  /** Mark every later box that `dets[i]` suppresses. */
  method MarkSuppressed(dets: seq<Detection>, suppressed: array<bool>, i: nat, threshold: real)
    requires suppressed.Length == |dets| && i < |dets|
    modifies suppressed
    ensures Alive(dets, suppressed[..], i + 1) == Spared(dets[i], Alive(dets, old(suppressed[..]), i + 1), threshold)
  {
    hide Alive, Spared, ComputeIoU;
    ghost var was := suppressed[..];
    var j := i + 1;
    while j < |dets|
      invariant i < j <= |dets|
      invariant MarkedBy(dets[i], dets, was, suppressed[..], i + 1, j, threshold)
      invariant forall k | j <= k < |dets| :: suppressed[k] == was[k]
    {
      if !suppressed[j] {
        if ComputeIoU(dets[i], dets[j]) > threshold {
          suppressed[j] := true;
        }
      }
      j := j + 1;
    }
    MarkingSpares(dets[i], dets, was, suppressed[..], i + 1, threshold);
  }

  lemma AliveStep(dets: seq<Detection>, marks: seq<bool>, i: nat, threshold: real)
    requires |marks| == |dets| && i < |dets|
    ensures marks[i] ==> Alive(dets, marks, i) == Alive(dets, marks, i + 1)
    ensures !marks[i] ==> Greedy(Alive(dets, marks, i), threshold) ==
                          [dets[i]] + Greedy(Spared(dets[i], Alive(dets, marks, i + 1), threshold), threshold)
  {
    if !marks[i] { assert Alive(dets, marks, i)[1..] == Alive(dets, marks, i + 1); }
  }

  method SuppressClass(dets: seq<Detection>, threshold: real) returns (kept: seq<Detection>)
    ensures kept == Greedy(dets, threshold)
  {
    hide Alive, Spared, Greedy;
    kept := [];
    var suppressed := new bool[|dets|](_ => false);
    NothingMarked(dets, suppressed[..], 0);
    assert dets[0..] == dets;
    for i := 0 to |dets|
      invariant kept + Greedy(Alive(dets, suppressed[..], i), threshold) == Greedy(dets, threshold)
    {
      AliveStep(dets, suppressed[..], i, threshold);
      if !suppressed[i] {
        kept := kept + [dets[i]];
        MarkSuppressed(dets, suppressed, i, threshold);
      }
    }
    NoneLeft(dets, suppressed[..], threshold);
  }

  lemma NoneLeft(dets: seq<Detection>, marks: seq<bool>, threshold: real)
    requires |marks| == |dets|
    ensures Greedy(Alive(dets, marks, |dets|), threshold) == []
  {
  }

  method SortByConfidence(dets: seq<Detection>) returns (sorted: seq<Detection>)
    ensures Descending(sorted) && multiset(sorted) == multiset(dets)
  {
    var keyed := seq(|dets|, i requires 0 <= i < |dets| => (-dets[i].confidence, dets[i]));
    var ordered := SortKeyed(keyed);
    sorted := Values(ordered);
    ValuesRearranged(keyed, ordered);
    assert Values(keyed) == dets;
    forall i | 0 <= i < |ordered| ensures ordered[i].0 == -sorted[i].confidence {
      assert ordered[i] in keyed;
    }
  }

  // ----- all classes

  function OfClass(dets: seq<Detection>, c: ClassId): seq<Detection> {
    if dets == [] then []
    else OfClass(dets[..|dets| - 1], c) +
         if dets[|dets| - 1].classId == c then [dets[|dets| - 1]] else []
  }

  lemma {:induction false} OfClassCount(dets: seq<Detection>, c: ClassId, d: Detection)
    ensures Count(OfClass(dets, c), d) == if d.classId == c then Count(dets, d) else 0
  {
    hide Count;
    if dets == [] {
      NoneCounted(d);
    } else {
      var last := |dets| - 1;
      OfClassCount(dets[..last], c, d);
      assert dets == dets[..last] + [dets[last]];
      CountJoin(dets[..last], [dets[last]], d);
      CountOne(dets[last], d);
      CountJoin(OfClass(dets[..last], c), if dets[last].classId == c then [dets[last]] else [], d);
      NoneCounted(d);
    }
  }

  lemma {:induction false} OfClassJoin(s: seq<Detection>, t: seq<Detection>, c: ClassId)
    ensures OfClass(s + t, c) == OfClass(s, c) + OfClass(t, c)
  {
    if t == [] {
      assert s + t == s;
    } else {
      assert (s + t)[..|s + t| - 1] == s + t[..|t| - 1];
      OfClassJoin(s, t[..|t| - 1], c);
    }
  }

  lemma {:induction false} OfOneClass(s: seq<Detection>, a: ClassId, c: ClassId)
    requires AllOf(s, a)
    ensures OfClass(s, c) == if a == c then s else []
  {
    if s != [] { OfOneClass(s[..|s| - 1], a, c); }
  }

  lemma OfClassAll(dets: seq<Detection>, c: ClassId)
    ensures AllOf(OfClass(dets, c), c)
  {
    hide Count, OfClass;
    forall d | d in OfClass(dets, c) ensures d.classId == c {
      OfClassCount(dets, c, d);
      CountMember(OfClass(dets, c), d);
    }
  }

  ghost predicate ClassDone(detections: seq<Detection>, kept: seq<Detection>, c: ClassId, threshold: real) {
    Suppressed(OfClass(detections, c), OfClass(kept, c), threshold)
  }

  lemma GreedySuppresses(dets: seq<Detection>, s: seq<Detection>, c: ClassId, threshold: real)
    requires AllOf(dets, c) && Descending(s) && multiset(s) == multiset(dets)
    ensures Suppressed(dets, Greedy(s, threshold), threshold) && AllOf(Greedy(s, threshold), c)
  {
    hide Greedy, Represented, Apart;
    var kept := Greedy(s, threshold);
    forall d | d in s ensures d.classId == c { assert d in multiset(s); }
    forall d ensures multiset(kept)[d] <= multiset(dets)[d] { GreedyCount(s, threshold, d); }
    GreedyApart(s, threshold);
    forall d | multiset(kept)[d] < multiset(dets)[d] ensures Represented(d, kept, threshold) {
      GreedyRepresents(s, c, threshold, d);
    }
    forall d | d in kept ensures d.classId == c { GreedyMember(s, threshold, d); }
  }

  lemma {:induction false} ApartInClass(kept: seq<Detection>, c: ClassId, threshold: real, i: nat, j: nat)
    requires Apart(OfClass(kept, c), threshold) && i < j < |kept| && kept[i].classId == kept[j].classId == c
    ensures !Suppresses(kept[i], kept[j], threshold)
  {
    hide Suppresses, Count;
    var last := |kept| - 1;
    var front := OfClass(kept[..last], c);
    if j < last {
      assert forall k | 0 <= k < |front| :: OfClass(kept, c)[k] == front[k];
      ApartInClass(kept[..last], c, threshold, i, j);
    } else {
      OfClassCount(kept[..last], c, kept[i]);
      CountMember(kept[..last], kept[i]);
      CountMember(front, kept[i]);
      assert kept[..last][i] == kept[i];
      var k :| 0 <= k < |front| && front[k] == kept[i];
      assert OfClass(kept, c)[k] == kept[i] && OfClass(kept, c)[|front|] == kept[j];
    }
  }

  lemma ClassesMakeAll(detections: seq<Detection>, kept: seq<Detection>, threshold: real)
    requires forall c :: ClassDone(detections, kept, c, threshold)
    ensures Suppressed(detections, kept, threshold)
  {
    hide OfClass, Suppresses;
    forall d ensures multiset(kept)[d] <= multiset(detections)[d] {
      assert ClassDone(detections, kept, d.classId, threshold);
      OfClassCount(detections, d.classId, d);
      OfClassCount(kept, d.classId, d);
    }
    forall i, j | 0 <= i < j < |kept| ensures !Suppresses(kept[i], kept[j], threshold) {
      if kept[i].classId == kept[j].classId {
        assert ClassDone(detections, kept, kept[i].classId, threshold);
        ApartInClass(kept, kept[i].classId, threshold, i, j);
      } else {
        OtherClass(kept[i], kept[j], threshold);
      }
    }
    forall d | multiset(kept)[d] < multiset(detections)[d] ensures Represented(d, kept, threshold) {
      RepresentedInAll(detections, kept, threshold, d);
    }
  }

  lemma OtherClass(a: Detection, b: Detection, threshold: real)
    requires a.classId != b.classId
    ensures !Suppresses(a, b, threshold)
  {
  }

  lemma RepresentedInAll(detections: seq<Detection>, kept: seq<Detection>, threshold: real, d: Detection)
    requires ClassDone(detections, kept, d.classId, threshold)
    requires multiset(kept)[d] < multiset(detections)[d]
    ensures Represented(d, kept, threshold)
  {
    hide OfClass, Suppresses, Apart;
    OfClassCount(detections, d.classId, d);
    OfClassCount(kept, d.classId, d);
    assert Represented(d, OfClass(kept, d.classId), threshold);
    var k :| k in OfClass(kept, d.classId) && k.confidence >= d.confidence && Suppresses(k, d, threshold);
    OfClassCount(kept, d.classId, k);
    CountMember(OfClass(kept, d.classId), k);
    CountMember(kept, k);
  }

  /** `byClass` holds the boxes of every class that has any. */
  ghost predicate Grouped(byClass: map<ClassId, seq<Detection>>, dets: seq<Detection>) {
    && (forall c :: c in byClass <==> OfClass(dets, c) != [])
    && (forall c | c in byClass :: byClass[c] == OfClass(dets, c))
  }

  method GroupByClass(detections: seq<Detection>) returns (byClass: map<ClassId, seq<Detection>>)
    ensures Grouped(byClass, detections)
  {
    byClass := map[];
    for i := 0 to |detections|
      invariant Grouped(byClass, detections[..i])
    {
      var d := detections[i];
      assert detections[..i + 1][..i] == detections[..i];
      byClass := byClass[d.classId := (if d.classId in byClass then byClass[d.classId] else []) + [d]];
    }
    assert detections[..|detections|] == detections;
  }

  lemma EmptyClass(threshold: real)
    ensures Suppressed([], [], threshold)
  {
  }

  /** The classes come in any order, and boxes of equal confidence may be sorted either way. */
  method NmsPerClass(detections: seq<Detection>, threshold: real) returns (kept: seq<Detection>)
    ensures Suppressed(detections, kept, threshold)
  {
    hide OfClass, Suppressed, Greedy, Count, AllOf;
    kept := [];
    if detections == [] {
      EmptyClass(threshold);
      return;
    }
    var byClass := GroupByClass(detections);
    var remaining := byClass.Keys;
    forall c ensures OfClass([], c) == [] { OfNothing(c); }
    forall c | c !in remaining ensures ClassDone(detections, kept, c, threshold) { EmptyClass(threshold); }
    while remaining != {}
      invariant remaining <= byClass.Keys
      invariant forall c | c in remaining :: OfClass(kept, c) == []
      invariant forall c | c !in remaining :: ClassDone(detections, kept, c, threshold)
    {
      SomeLeft(remaining);
      var c :| c in remaining;
      remaining := remaining - {c};
      ghost var before := kept;
      kept := SuppressNext(detections, byClass[c], kept, c, threshold);
      forall a | a != c && a !in remaining ensures ClassDone(detections, kept, a, threshold) {
        assert ClassDone(detections, before, a, threshold);
      }
    }
    ClassesMakeAll(detections, kept, threshold);
  }

  lemma SomeLeft(s: set<ClassId>)
    requires s != {}
    ensures exists c :: c in s
  {
  }

  method SuppressNext(ghost detections: seq<Detection>, dets: seq<Detection>, kept: seq<Detection>, c: ClassId,
                      threshold: real) returns (r: seq<Detection>)
    requires dets == OfClass(detections, c) && OfClass(kept, c) == []
    ensures ClassDone(detections, r, c, threshold)
    ensures forall a | a != c :: OfClass(r, a) == OfClass(kept, a)
  {
    hide OfClass, Suppressed, Greedy, AllOf;
    var sorted := SortByConfidence(dets);
    var best := SuppressClass(sorted, threshold);
    OfClassAll(detections, c);
    GreedySuppresses(dets, sorted, c, threshold);
    r := kept + best;
    forall a ensures OfClass(r, a) == OfClass(kept, a) + if a == c then best else [] {
      OfClassJoin(kept, best, a);
      OfOneClass(best, c, a);
    }
    assert OfClass(r, c) == best;
  }

  lemma OfNothing(c: ClassId)
    ensures OfClass([], c) == []
  {
  }

  // ----- what follows from the promise

  lemma {:induction false} TwoPlaces(s: seq<Detection>, k: Detection, d: Detection)
    requires k in s && d in s && (k == d ==> Count(s, d) >= 2)
    ensures exists i, j :: 0 <= i < |s| && 0 <= j < |s| && i != j && s[i] == k && s[j] == d
  {
    var i :| 0 <= i < |s| && s[i] == k;
    if k == d {
      assert s == s[..i] + [s[i]] + s[i + 1..];
      CountOne(k, d);
      CountMember(s[..i], d);
      CountMember(s[i + 1..], d);
      if d in s[..i] {
        var j :| 0 <= j < i && s[j] == d;
      } else {
        assert d in s[i + 1..];
        var j :| 0 <= j < |s[i + 1..]| && s[i + 1..][j] == d;
        assert s[i + 1 + j] == d;
      }
    }
  }

  /** Boxes none of which is in the way of another all stay. */
  lemma NothingLeftToDo(detections: seq<Detection>, kept: seq<Detection>, threshold: real)
    requires Apart(detections, threshold) && Suppressed(detections, kept, threshold)
    ensures multiset(kept) == multiset(detections)
  {
    hide ComputeIoU;
    forall d ensures multiset(kept)[d] == multiset(detections)[d] {
      if multiset(kept)[d] < multiset(detections)[d] {
        assert Represented(d, kept, threshold);
        var k :| k in kept && k.confidence >= d.confidence && Suppresses(k, d, threshold);
        CountMember(kept, k);
        CountMember(detections, k);
        CountMember(detections, d);
        TwoPlaces(detections, k, d);
        var i, j :| 0 <= i < |detections| && 0 <= j < |detections| && i != j &&
          detections[i] == k && detections[j] == d;
        IoUBounds(k, d);
        assert false;
      }
    }
  }

  /** Suppressing again changes nothing but, perhaps, the order. */
  lemma Idempotent(detections: seq<Detection>, once: seq<Detection>, twice: seq<Detection>, threshold: real)
    requires Suppressed(detections, once, threshold) && Suppressed(once, twice, threshold)
    ensures multiset(twice) == multiset(once)
  {
    NothingLeftToDo(once, twice, threshold);
  }

  /** Within a class, no two boxes have the same confidence. */
  predicate Ranked(detections: seq<Detection>) {
    forall i, j | 0 <= i < j < |detections| && detections[i].classId == detections[j].classId ::
      detections[i].confidence != detections[j].confidence
  }

  function Better(detections: seq<Detection>, d: Detection): set<Detection> {
    set e | e in detections && e.confidence > d.confidence
  }

  lemma KeptIsApart(kept: seq<Detection>, k: Detection, d: Detection, threshold: real)
    requires Apart(kept, threshold) && k in kept && d in kept && k != d
    ensures !Suppresses(k, d, threshold)
  {
    hide ComputeIoU;
    var i :| 0 <= i < |kept| && kept[i] == k;
    var j :| 0 <= j < |kept| && kept[j] == d;
    IoUBounds(k, d);
  }

  lemma KeptIsGiven(detections: seq<Detection>, kept: seq<Detection>, k: Detection, threshold: real)
    requires Suppressed(detections, kept, threshold) && k in kept
    ensures k in detections
  {
    CountMember(kept, k);
    CountMember(detections, k);
  }

  /** The best box on which two outcomes could differ does not exist. */
  lemma {:induction false} SameVerdict(detections: seq<Detection>, one: seq<Detection>, other: seq<Detection>,
                                       threshold: real, d: Detection)
    requires Ranked(detections) && d in detections && d in one
    requires Suppressed(detections, one, threshold) && Suppressed(detections, other, threshold)
    ensures d in other
    decreases Better(detections, d)
  {
    hide ComputeIoU, Suppresses, Apart, Count;
    CountMember(detections, d);
    CountMember(other, d);
    if d !in other {
      var k := Rival(detections, other, threshold, d);
      BetterShrinks(detections, k, d);
      SameVerdict(detections, other, one, threshold, k);
      KeptIsApart(one, k, d, threshold);
      assert false;
    }
  }

  lemma Rival(detections: seq<Detection>, other: seq<Detection>, threshold: real, d: Detection) returns (k: Detection)
    requires Ranked(detections) && d in detections && d !in other && Suppressed(detections, other, threshold)
    ensures k in other && k in detections && k != d && k.confidence > d.confidence && Suppresses(k, d, threshold)
  {
    hide ComputeIoU, Apart;
    CountMember(detections, d);
    CountMember(other, d);
    assert Represented(d, other, threshold);
    k :| k in other && k.confidence >= d.confidence && Suppresses(k, d, threshold);
    KeptIsGiven(detections, other, k, threshold);
    var i :| 0 <= i < |detections| && detections[i] == k;
    var j :| 0 <= j < |detections| && detections[j] == d;
  }

  lemma BetterShrinks(detections: seq<Detection>, k: Detection, d: Detection)
    requires k in detections && k.confidence > d.confidence
    ensures Better(detections, k) < Better(detections, d)
  {
    assert k in Better(detections, d) && k !in Better(detections, k);
  }

  lemma {:induction false} RankedOnce(detections: seq<Detection>, d: Detection)
    requires Ranked(detections)
    ensures Count(detections, d) <= 1
  {
    hide Count;
    if detections != [] {
      RankedOnce(detections[1..], d);
      CountFirst(detections, d);
      CountMember(detections[1..], d);
    } else {
      NoneCounted(d);
    }
  }

  /** When confidences differ within each class, the outcome does not depend on the order of the classes
      or on the sorting: the promise has exactly one outcome. */
  lemma OneOutcome(detections: seq<Detection>, one: seq<Detection>, other: seq<Detection>, threshold: real)
    requires Ranked(detections)
    requires Suppressed(detections, one, threshold) && Suppressed(detections, other, threshold)
    ensures multiset(one) == multiset(other)
  {
    hide Ranked, Apart, Represented;
    forall d ensures multiset(one)[d] == multiset(other)[d] {
      RankedOnce(detections, d);
      CountMember(one, d);
      CountMember(other, d);
      CountMember(detections, d);
      if d in one { SameVerdict(detections, one, other, threshold, d); }
      if d in other { SameVerdict(detections, other, one, threshold, d); }
    }
  }
}
