/** The hover pattern over the drop zone: a serpentine grid, filtered by the enlarged zone. */
module Hover {
  import opened Options
  import opened Points
  import opened RayCast
  import opened Reals

  datatype Result<T> = Success(value: T) | Fatal(size: nat)

  datatype Config = Config(cameraVision: real, altitude: real)

  // ----- scaling

  function SumX(polygon: Polygon): real {
    if polygon == [] then 0.0 else SumX(polygon[..|polygon| - 1]) + polygon[|polygon| - 1].x
  }

  function SumY(polygon: Polygon): real {
    if polygon == [] then 0.0 else SumY(polygon[..|polygon| - 1]) + polygon[|polygon| - 1].y
  }

  function Center(polygon: Polygon): XYZCoord
    requires polygon != []
  {
    XYZCoord(SumX(polygon) / |polygon| as real, SumY(polygon) / |polygon| as real, 0.0)
  }

  function ToOrigin(p: XYZCoord, center: XYZCoord): XYZCoord {
    p.(x := p.x - center.x, y := p.y - center.y)
  }

  function Stretched(p: XYZCoord, scale: real): XYZCoord {
    p.(x := p.x * scale, y := p.y * scale)
  }

  function FromOrigin(p: XYZCoord, center: XYZCoord): XYZCoord {
    p.(x := p.x + center.x, y := p.y + center.y)
  }

  /** Away from the center by the factor `scale`; the altitude stays. */
  function ScaledPoint(center: XYZCoord, scale: real, p: XYZCoord): XYZCoord {
    XYZCoord((p.x - center.x) * scale + center.x, (p.y - center.y) * scale + center.y, p.z)
  }

  lemma ScaledInSteps(center: XYZCoord, scale: real, p: XYZCoord)
    ensures FromOrigin(Stretched(ToOrigin(p, center), scale), center) == ScaledPoint(center, scale, p)
  {
    var x, y := p.x - center.x, p.y - center.y;
    assert ToOrigin(p, center) == XYZCoord(x, y, p.z);
    assert Stretched(XYZCoord(x, y, p.z), scale) == XYZCoord(x * scale, y * scale, p.z);
  }

  function Scaled(polygon: Polygon, scale: real): Polygon {
    seq(|polygon|, i requires 0 <= i < |polygon| => ScaledPoint(Center(polygon), scale, polygon[i]))
  }

  /** No number for a polygon without corners. */
  method CalculateCenter(polygon: Polygon) returns (center: Option<XYZCoord>)
    ensures center == if polygon == [] then None else Some(Center(polygon))
  {
    var x, y := 0.0, 0.0;
    for i := 0 to |polygon|
      invariant x == SumX(polygon[..i]) && y == SumY(polygon[..i])
    {
      assert polygon[..i + 1][..i] == polygon[..i];
      x := x + polygon[i].x;
      y := y + polygon[i].y;
    }
    assert polygon[..|polygon|] == polygon;
    if |polygon| == 0 {
      return None;
    }
    center := Some(XYZCoord(x / |polygon| as real, y / |polygon| as real, 0.0));
  }

  method ScalePolygon(polygon: array<XYZCoord>, scale: real)
    modifies polygon
    ensures polygon[..] == Scaled(old(polygon[..]), scale)
  {
    hide Center, ToOrigin, Stretched, FromOrigin, ScaledPoint;
    ghost var was := polygon[..];
    var found := CalculateCenter(polygon[..]);
    if found.None? {
      return;
    }
    var center := found.value;
    for i := 0 to polygon.Length
      invariant forall k | 0 <= k < i :: polygon[k] == ToOrigin(was[k], center)
      invariant forall k | i <= k < polygon.Length :: polygon[k] == was[k]
    {
      polygon[i] := ToOrigin(polygon[i], center);
    }
    ghost var atOrigin := polygon[..];
    for i := 0 to polygon.Length
      invariant forall k | 0 <= k < i :: polygon[k] == Stretched(atOrigin[k], scale)
      invariant forall k | i <= k < polygon.Length :: polygon[k] == atOrigin[k]
    {
      polygon[i] := Stretched(polygon[i], scale);
    }
    ghost var stretched := polygon[..];
    for i := 0 to polygon.Length
      invariant forall k | 0 <= k < i :: polygon[k] == FromOrigin(stretched[k], center)
      invariant forall k | i <= k < polygon.Length :: polygon[k] == stretched[k]
    {
      polygon[i] := FromOrigin(polygon[i], center);
    }
    forall k | 0 <= k < |was| ensures polygon[k] == ScaledPoint(center, scale, was[k]) {
      ScaledInSteps(center, scale, was[k]);
    }
  }

  /** Seen from the center the corners balance. */
  lemma CenterBalances(polygon: Polygon)
    requires polygon != []
    ensures SumX(Shifted(polygon, Center(polygon))) == 0.0 && SumY(Shifted(polygon, Center(polygon))) == 0.0
  {
    hide Shifted;
    MeanTimes(SumX(polygon), |polygon|);
    MeanTimes(SumY(polygon), |polygon|);
    SumShifted(polygon, Center(polygon));
  }

  lemma MeanTimes(sum: real, n: nat)
    requires n > 0
    ensures n as real * (sum / n as real) == sum
  {
  }

  /** Scaling moves each corner away from the center by the factor. */
  lemma ScaledAway(polygon: Polygon, scale: real, k: nat)
    requires k < |polygon|
    ensures |Scaled(polygon, scale)| == |polygon|
    ensures var c, p, q := Center(polygon), polygon[k], Scaled(polygon, scale)[k];
            q.x - c.x == scale * (p.x - c.x) && q.y - c.y == scale * (p.y - c.y) && q.z == p.z
  {
    hide Center;
  }

  function Shifted(polygon: Polygon, c: XYZCoord): Polygon {
    seq(|polygon|, i requires 0 <= i < |polygon| => ToOrigin(polygon[i], c))
  }

  lemma {:induction false} SumShifted(polygon: Polygon, c: XYZCoord)
    ensures SumX(Shifted(polygon, c)) == SumX(polygon) - |polygon| as real * c.x
    ensures SumY(Shifted(polygon, c)) == SumY(polygon) - |polygon| as real * c.y
  {
    if polygon != [] {
      var n := |polygon| - 1;
      SumShifted(polygon[..n], c);
      assert Shifted(polygon, c)[..n] == Shifted(polygon[..n], c);
      assert |polygon| as real * c.x == n as real * c.x + c.x && |polygon| as real * c.y == n as real * c.y + c.y;
    }
  }

  // ----- the pattern

  /** What the loops run over: the first point, the step, how far each axis goes, and the filter. */
  datatype Grid = Grid(startX: real, startY: real, stopX: real, stopY: real, vision: real, altitude: real,
                       filter: Polygon)
  {
    function At(n: nat, m: nat): XYZCoord {
      XYZCoord(startX + m as real * vision, startY - n as real * vision, altitude)
    }

    predicate InColumn(m: nat) { startX + m as real * vision < stopX }

    predicate InRow(n: nat) { startY - n as real * vision > stopY }

    /** `p` is `m` steps to the right of the first point and `n` steps below it, and not past the end. */
    predicate OnGrid(n: nat, m: nat, p: XYZCoord) {
      && p.x - startX == m as real * vision && p.x < stopX
      && startY - p.y == n as real * vision && p.y > stopY
    }

    /** The rows come to an end, if there are any at all. */
    predicate Ends() { vision > 0.0 || !InRow(0) }

    /** Row `n` up to its column `m`, from left to right. */
    ghost function Row(n: nat, m: nat): seq<XYZCoord> {
      if m == 0 then []
      else Row(n, m - 1) + if Inside(filter, At(n, m - 1)) then [At(n, m - 1)] else []
    }

    /** The first `n` rows of `columns` columns, every other one backwards. */
    ghost function Serpentine(n: nat, columns: nat): seq<XYZCoord> {
      if n == 0 then []
      else Serpentine(n - 1, columns) + if n % 2 == 1 then Row(n - 1, columns) else Reversed(Row(n - 1, columns))
    }

    function Columns(): nat
      requires vision > 0.0
    {
      StepsWithin(stopX - startX, vision)
    }

    function Rows(): nat
      requires vision > 0.0
    {
      StepsWithin(startY - stopY, vision)
    }

    lemma Size(k: nat)
      requires vision > 0.0
      ensures InColumn(k) <==> k < Columns()
      ensures InRow(k) <==> k < Rows()
    {
      StepsCounted(stopX - startX, vision, k);
      StepsCounted(startY - stopY, vision, k);
    }

    /** Every point the loops add. */
    ghost function Pattern(): seq<XYZCoord>
      requires vision > 0.0
    {
      Serpentine(Rows(), Columns())
    }
  }

  /** The least whole number that is not below `q`. */
  function Ceiling(q: real): int {
    if q == q.Floor as real then q.Floor else q.Floor + 1
  }

  lemma BelowCeiling(k: int, q: real)
    ensures k as real < q <==> k < Ceiling(q)
  {
  }

  /** How many of 0, v, 2v, ... lie before `length`. */
  function StepsWithin(length: real, v: real): nat
    requires v > 0.0
  {
    if length <= 0.0 then 0
    else
      Ordered(0.0, length / v, v);
      BelowCeiling(0, length / v);
      Ceiling(length / v)
  }

  lemma StepsCounted(length: real, v: real, k: nat)
    requires v > 0.0
    ensures k as real * v < length <==> k < StepsWithin(length, v)
  {
    hide Ceiling;
    var q := length / v;
    assert q * v == length;
    Ordered(k as real, q, v);
    Ordered(0.0, k as real, v);
    Ordered(k as real, 0.0, v);
    BelowCeiling(k, q);
  }

  lemma Ordered(a: real, b: real, v: real)
    requires v > 0.0
    ensures a < b <==> a * v < b * v
    ensures 0.0 * v == 0.0
  {
    var d := b - a;
    assert d * v == b * v - a * v;
    assert d > 0.0 ==> d * v > 0.0;
    assert d <= 0.0 ==> d * v <= 0.0;
  }

  function GridOf(zone: Polygon, config: Config): Grid
    requires |zone| == 4
  {
    var v := config.cameraVision;
    Grid(Min(zone[3].x, zone[0].x) + v / 2.0, Max(zone[3].y, zone[2].y) - v / 2.0,
         Max(zone[2].x, zone[1].x) + v / 2.0, Min(zone[0].y, zone[1].y) - v / 2.0,
         v, config.altitude, Scaled(zone, 1.2))
  }

  /** For any four corners, the grid starts half the vision within the outermost left and upper corner, and
      stops half the vision past the outermost right and lower one. */
  lemma GridSpans(zone: Polygon, config: Config)
    requires |zone| == 4
    ensures var g := GridOf(zone, config); var half := config.cameraVision / 2.0;
            && Outermost(half - g.startX, -zone[3].x, -zone[0].x) && Outermost(g.startY + half, zone[3].y, zone[2].y)
            && Outermost(g.stopX - half, zone[2].x, zone[1].x) && Outermost(-g.stopY - half, -zone[0].y, -zone[1].y)
            && g.vision == config.cameraVision && g.altitude == config.altitude
  {
  }

  /** `v` is the one of the two that is not exceeded by the other. */
  predicate Outermost(v: real, a: real, b: real) {
    a <= v && b <= v && (v == a || v == b)
  }

  lemma {:induction false} InRowExactly(g: Grid, n: nat, m: nat, p: XYZCoord)
    ensures p in g.Row(n, m) <==> Inside(g.filter, p) && exists k: nat :: k < m && p == g.At(n, k)
  {
    hide Inside, g.At;
    if m > 0 {
      InRowExactly(g, n, m - 1, p);
    }
  }

  lemma {:induction false} InSerpentineExactly(g: Grid, n: nat, columns: nat, p: XYZCoord)
    ensures p in g.Serpentine(n, columns) <==>
              Inside(g.filter, p) && exists i: nat, k: nat :: i < n && k < columns && p == g.At(i, k)
  {
    hide Inside, g.At, g.Row;
    if n > 0 {
      InSerpentineExactly(g, n - 1, columns, p);
      InRowExactly(g, n - 1, columns, p);
      ReversedMembers(g.Row(n - 1, columns), p);
    }
  }

  lemma {:induction false} ReversedMembers(s: seq<XYZCoord>, p: XYZCoord)
    ensures p in Reversed(s) <==> p in s
  {
    if s != [] { ReversedMembers(s[1..], p); }
  }

  /** For any four corners, the hover points are exactly the grid points within the enlarged zone, all at
      the configured altitude. */
  lemma HoverPointsExactly(zone: Polygon, config: Config, p: XYZCoord)
    requires |zone| == 4 && config.cameraVision > 0.0
    ensures var g := GridOf(zone, config);
            p in g.Pattern() <==>
              && Inside(Scaled(zone, 1.2), p) && p.z == config.altitude
              && exists n: nat, m: nat :: g.OnGrid(n, m, p)
  {
    hide Inside, Grid.Rows, Grid.Columns, Grid.Serpentine, Scaled, Grid.OnGrid, Grid.At, Grid.InRow, Grid.InColumn;
    var g := GridOf(zone, config);
    InSerpentineExactly(g, g.Rows(), g.Columns(), p);
    forall n: nat, m: nat
      ensures n < g.Rows() && m < g.Columns() && p == g.At(n, m) <==> p.z == g.altitude && g.OnGrid(n, m, p)
    {
      g.Size(n);
      g.Size(m);
      OnGridIsAt(g, n, m, p);
    }
  }

  lemma OnGridIsAt(g: Grid, n: nat, m: nat, p: XYZCoord)
    ensures p == g.At(n, m) && g.InRow(n) && g.InColumn(m) <==> p.z == g.altitude && g.OnGrid(n, m, p)
  {
  }

  method ReverseRow(row: seq<XYZCoord>) returns (r: seq<XYZCoord>)
    ensures r == Reversed(row)
  {
    r := [];
    for i := 0 to |row|
      invariant r == Reversed(row[..i])
    {
      ReversedAppend(row[..i], row[i]);
      assert row[..i + 1] == row[..i] + [row[i]];
      r := [row[i]] + r;
    }
    assert row[..|row|] == row;
  }

  lemma {:induction false} ReversedAppend(s: seq<XYZCoord>, x: XYZCoord)
    ensures Reversed(s + [x]) == [x] + Reversed(s)
  {
    if s == [] {
      assert [x][1..] == [];
    } else {
      assert (s + [x])[1..] == s[1..] + [x];
      ReversedAppend(s[1..], x);
    }
  }

  method RunRow(g: Grid, ghost n: nat, y: real) returns (row: seq<XYZCoord>)
    requires g.vision > 0.0 && y == g.startY - n as real * g.vision
    ensures row == g.Row(n, g.Columns())
  {
    hide Inside, g.Columns;
    row := [];
    var x := g.startX;
    ghost var m: nat := 0;
    while x < g.stopX
      invariant x == g.startX + m as real * g.vision
      invariant m <= g.Columns() && row == g.Row(n, m)
      decreases g.Columns() - m
    {
      g.Size(m);
      var pt := XYZCoord(x, y, g.altitude);
      assert pt == g.At(n, m);
      var keep := IsPointInPolygon(g.filter, pt);
      assert g.Row(n, m + 1) == row + if keep then [pt] else [];
      if keep {
        row := row + [pt];
      }
      x := x + g.vision;
      m := m + 1;
    }
    g.Size(m);
  }

  /** The loop over the rows comes to an end. */
  lemma RowsEnd(g: Grid)
    ensures (exists n: nat :: !g.InRow(n)) <==> g.Ends()
  {
    if g.vision > 0.0 {
      g.Size(g.Rows());
    } else if !g.InRow(0) {
    } else {
      forall n: nat ensures g.InRow(n) { assert n as real * -g.vision >= 0.0; }
    }
  }

  method Run(zone: Polygon, config: Config) returns (r: Result<seq<XYZCoord>>)
    requires |zone| == 4 ==> GridOf(zone, config).Ends()
    ensures |zone| != 4 ==> r == Fatal(|zone|)
    ensures |zone| == 4 ==> r == Success(if config.cameraVision > 0.0 then GridOf(zone, config).Pattern() else [])
  {
    if |zone| != 4 {
      return Fatal(|zone|);
    }
    var bottomLeft, bottomRight, topRight, topLeft := zone[0], zone[1], zone[2], zone[3];
    var vision := config.cameraVision;
    var startY := Max(topLeft.y, topRight.y) - vision / 2.0;
    var stopY := Min(bottomLeft.y, bottomRight.y) - vision / 2.0;
    var startX := Min(topLeft.x, bottomLeft.x) + vision / 2.0;
    var stopX := Max(topRight.x, bottomRight.x) + vision / 2.0;
    var scaledZone := new XYZCoord[4](i requires 0 <= i < 4 => zone[i]);
    assert scaledZone[..] == zone;
    ScalePolygon(scaledZone, 1.2);
    var g := Grid(startX, startY, stopX, stopY, vision, config.altitude, scaledZone[..]);
    assert g == GridOf(zone, config);
    var hoverPoints := RunRows(g);
    return Success(hoverPoints);
  }

  method RunRows(g: Grid) returns (hoverPoints: seq<XYZCoord>)
    requires g.Ends()
    ensures hoverPoints == if g.vision > 0.0 then g.Pattern() else []
  {
    hide g.Rows, g.Columns, g.Row;
    hoverPoints := [];
    var right := true;
    var y := g.startY;
    ghost var n: nat := 0;
    while y > g.stopY
      invariant y == g.startY - n as real * g.vision
      invariant n == 0 || g.vision > 0.0
      invariant if g.vision > 0.0 then n <= g.Rows() && hoverPoints == g.Serpentine(n, g.Columns())
                else hoverPoints == []
      invariant right <==> n % 2 == 0
      decreases if g.vision > 0.0 then g.Rows() - n else 0
    {
      assert g.vision > 0.0;
      g.Size(n);
      var row := RunRow(g, n, y);
      if !right {
        row := ReverseRow(row);
      }
      right := !right;
      hoverPoints := hoverPoints + row;
      y := y - g.vision;
      n := n + 1;
    }
    if g.vision > 0.0 { g.Size(n); }
  }

  // ----- rectangular zones

  /** An axis-aligned rectangle, listed as the mission planner demands it: bottom left, bottom right,
      top right, top left. */
  predicate Rectangle(zone: Polygon) {
    && |zone| == 4
    && zone[0].x == zone[3].x < zone[1].x == zone[2].x
    && zone[0].y == zone[1].y < zone[2].y == zone[3].y
  }

  function Width(zone: Polygon): real
    requires |zone| == 4
  {
    zone[1].x - zone[0].x
  }

  function Height(zone: Polygon): real
    requires |zone| == 4
  {
    zone[2].y - zone[1].y
  }

  /** The camera sees at most a fifth of each side. */
  predicate FineVision(zone: Polygon, v: real) {
    Rectangle(zone) && 0.0 < v <= 0.2 * Width(zone) && v <= 0.2 * Height(zone)
  }

  /** Ray casting counts the left and the bottom side in, the right and the top side out. */
  lemma InsideRectangle(zone: Polygon, p: XYZCoord)
    requires Rectangle(zone)
    ensures Inside(zone, p) <==> zone[0].x <= p.x < zone[1].x && zone[0].y <= p.y < zone[2].y
  {
    assert zone[1..][1..] == zone[2..] && zone[2..][1..] == zone[3..];
    hide Crosses;
    HorizontalCrossing(zone[0], zone[1], p);
    HorizontalCrossing(zone[2], zone[3], p);
    assert !ChainParity(zone[3..], p);
    assert !ChainParity(zone[2..], p);
    assert ChainParity(zone[1..], p) == Crosses(zone[1], zone[2], p);
    assert ChainParity(zone, p) == Crosses(zone[1], zone[2], p);
    VerticalCrossing(zone[1], zone[2], p);
    VerticalCrossing(zone[3], zone[0], p);
  }

  lemma HorizontalCrossing(a: XYZCoord, b: XYZCoord, p: XYZCoord)
    requires a.y == b.y
    ensures !Crosses(a, b, p)
  {
  }

  lemma VerticalCrossing(a: XYZCoord, b: XYZCoord, p: XYZCoord)
    requires a.x == b.x
    ensures Crosses(a, b, p) <==> (a.y > p.y) != (b.y > p.y) && p.x < a.x
  {
  }

  lemma RectangleCenter(zone: Polygon)
    requires Rectangle(zone)
    ensures Center(zone).x == (zone[0].x + zone[1].x) / 2.0 && Center(zone).y == (zone[0].y + zone[2].y) / 2.0
  {
    assert zone[..3][..2] == zone[..2] && zone[..2][..1] == zone[..1] && zone[..1][..0] == [];
    assert SumX(zone[..1]) == zone[0].x && SumY(zone[..1]) == zone[0].y;
    assert SumX(zone[..2]) == zone[0].x + zone[1].x && SumY(zone[..2]) == zone[0].y + zone[1].y;
    assert SumX(zone[..3]) == zone[0].x + 2.0 * zone[1].x && SumY(zone[..3]) == 2.0 * zone[0].y + zone[2].y;
  }

  /** The filter reaches a tenth of each side past the zone. */
  lemma ScaledRectangle(zone: Polygon)
    requires Rectangle(zone)
    ensures var s := Scaled(zone, 1.2);
            && Rectangle(s)
            && s[0].x == zone[0].x - 0.1 * Width(zone) && s[1].x == zone[1].x + 0.1 * Width(zone)
            && s[0].y == zone[0].y - 0.1 * Height(zone) && s[2].y == zone[2].y + 0.1 * Height(zone)
  {
    hide Center;
    RectangleCenter(zone);
  }

  ghost predicate Unfiltered(g: Grid)
    requires g.vision > 0.0
  {
    forall n: nat, m: nat :: n < g.Rows() && m < g.Columns() ==> Inside(g.filter, g.At(n, m))
  }

  /** The last column and the last row of the grid are still within the filter. */
  predicate LastKept(zone: Polygon, config: Config)
    requires Rectangle(zone) && config.cameraVision > 0.0
  {
    var g := GridOf(zone, config);
    && g.startX + (g.Columns() - 1) as real * g.vision < zone[1].x + 0.1 * Width(zone)
    && g.startY - (g.Rows() - 1) as real * g.vision >= zone[0].y - 0.1 * Height(zone)
  }

  lemma InFilter(zone: Polygon, config: Config, n: nat, m: nat)
    requires Rectangle(zone) && config.cameraVision > 0.0
    ensures var g := GridOf(zone, config);
            n < g.Rows() && m < g.Columns() ==>
              (Inside(g.filter, g.At(n, m)) <==>
                 g.startX + m as real * g.vision < zone[1].x + 0.1 * Width(zone) &&
                 g.startY - n as real * g.vision >= zone[0].y - 0.1 * Height(zone))
  {
    hide Scaled, Grid.Rows, Grid.Columns, Inside;
    var g := GridOf(zone, config);
    ScaledRectangle(zone);
    Grows(0, m, g.vision);
    Grows(0, n, g.vision);
    InsideRectangle(g.filter, g.At(n, m));
  }

  lemma Grows(k: int, m: int, v: real)
    requires v > 0.0
    ensures k <= m ==> k as real * v <= m as real * v
  {
    if k <= m { assert (m - k) as real * v >= 0.0; }
  }

  /** Then, and only then, the filter removes nothing. */
  lemma NothingFiltered(zone: Polygon, config: Config)
    requires Rectangle(zone) && config.cameraVision > 0.0
    ensures Unfiltered(GridOf(zone, config)) <==> LastKept(zone, config)
  {
    hide GridOf, Grid.Rows, Grid.Columns, Grid.At, Inside, Width, Height;
    var g := GridOf(zone, config);
    GridEdges(zone, config);
    g.Size(0);
    InFilter(zone, config, g.Rows() - 1, g.Columns() - 1);
    if LastKept(zone, config) {
      forall n: nat, m: nat | n < g.Rows() && m < g.Columns() ensures Inside(g.filter, g.At(n, m)) {
        Grows(m, g.Columns() - 1, g.vision);
        Grows(n, g.Rows() - 1, g.vision);
        InFilter(zone, config, n, m);
      }
    }
  }

  /** So it is when the camera sees at most a fifth of each side. */
  lemma FineVisionKeepsAll(zone: Polygon, config: Config)
    requires FineVision(zone, config.cameraVision)
    ensures LastKept(zone, config)
  {
    hide Scaled, Grid.Rows, Grid.Columns;
    var g := GridOf(zone, config);
    GridEdges(zone, config);
    g.Size(0);
    g.Size(g.Rows() - 1);
    g.Size(g.Columns() - 1);
  }

  /** Exactly the first `rows` rows and `columns` columns of the grid are within the filter. */
  ghost predicate Kept(g: Grid, rows: nat, columns: nat)
    requires g.vision > 0.0
  {
    && rows <= g.Rows() && columns <= g.Columns()
    && forall n: nat, m: nat | n < g.Rows() && m < g.Columns() ::
         Inside(g.filter, g.At(n, m)) <==> n < rows && m < columns
  }

  function Less(a: nat, b: nat): nat {
    if a < b then a else b
  }

  /** Over a rectangle the filter cuts off at most the last column and the last row. */
  lemma KeptPart(zone: Polygon, config: Config) returns (rows: nat, columns: nat)
    requires Rectangle(zone) && config.cameraVision > 0.0
    ensures var g := GridOf(zone, config);
            Kept(g, rows, columns) && rows + 1 >= g.Rows() && columns + 1 >= g.Columns() &&
            (LastKept(zone, config) <==> rows == g.Rows() && columns == g.Columns())
  {
    hide GridOf, Grid.Rows, Grid.Columns, Grid.At, Inside, Width, Height;
    var g := GridOf(zone, config);
    GridEdges(zone, config);
    g.Size(0);
    var lastX := g.startX + (g.Columns() - 1) as real * g.vision;
    var lastY := g.startY - (g.Rows() - 1) as real * g.vision;
    columns := if lastX < zone[1].x + 0.1 * Width(zone) then g.Columns() else g.Columns() - 1;
    rows := if lastY >= zone[0].y - 0.1 * Height(zone) then g.Rows() else g.Rows() - 1;
    forall n: nat, m: nat | n < g.Rows() && m < g.Columns()
      ensures Inside(g.filter, g.At(n, m)) <==> n < rows && m < columns
    {
      InFilter(zone, config, n, m);
      OnlyLastCutOff(zone, config, n, m);
    }
  }

  lemma OnlyLastCutOff(zone: Polygon, config: Config, n: nat, m: nat)
    requires Rectangle(zone) && config.cameraVision > 0.0
    ensures var g := GridOf(zone, config);
            && (m + 1 < g.Columns() ==> g.startX + m as real * g.vision < zone[1].x + 0.1 * Width(zone))
            && (n + 1 < g.Rows() ==> g.startY - n as real * g.vision >= zone[0].y - 0.1 * Height(zone))
  {
    hide GridOf, Grid.Rows, Grid.Columns, Inside;
    var g := GridOf(zone, config);
    GridEdges(zone, config);
    g.Size(m + 1);
    g.Size(n + 1);
    var across, down := m as real * g.vision, n as real * g.vision;
    OneFurther(m, g.vision);
    OneFurther(n, g.vision);
    if m + 1 < g.Columns() { assert g.startX + (across + g.vision) < g.stopX; }
    if n + 1 < g.Rows() { assert g.startY - (down + g.vision) > g.stopY; }
  }

  lemma OneFurther(k: nat, v: real)
    ensures (k + 1) as real * v == k as real * v + v
  {
  }

  lemma {:induction false} RowAt(g: Grid, n: nat, m: nat, columns: nat)
    requires forall j: nat :: j < m ==> (Inside(g.filter, g.At(n, j)) <==> j < columns)
    ensures |g.Row(n, m)| == Less(m, columns)
    ensures forall j | 0 <= j < Less(m, columns) :: g.Row(n, m)[j] == g.At(n, j)
  {
    hide Inside;
    if m > 0 { RowAt(g, n, m - 1, columns); }
  }

  lemma {:induction false} ReversedAt(s: seq<XYZCoord>, j: nat)
    requires j < |s|
    ensures Reversed(s)[j] == s[|s| - 1 - j]
  {
    if j < |s| - 1 { ReversedAt(s[1..], j); }
  }

  /** Where the pattern is in its `j`-th place of row `i`. */
  function Place(g: Grid, columns: nat, i: nat, j: nat): XYZCoord
    requires j < columns
  {
    g.At(i, if i % 2 == 0 then j else columns - 1 - j)
  }

  lemma KeptRow(g: Grid, n: nat, rows: nat, columns: nat)
    requires g.vision > 0.0 && Kept(g, rows, columns) && n < g.Rows()
    ensures |g.Row(n, g.Columns())| == if n < rows then columns else 0
    ensures n < rows ==> forall j | 0 <= j < columns :: g.Row(n, g.Columns())[j] == g.At(n, j)
  {
    hide Grid.Row, Grid.Columns, Grid.Rows, Inside, Grid.At;
    RowAt(g, n, g.Columns(), if n < rows then columns else 0);
  }

  lemma {:induction false} SerpentineLength(g: Grid, n: nat, rows: nat, columns: nat)
    requires g.vision > 0.0 && Kept(g, rows, columns) && n <= g.Rows()
    ensures |g.Serpentine(n, g.Columns())| == Less(n, rows) * columns
  {
    hide Grid.Row, Grid.Columns, Grid.Rows, Kept;
    if n > 0 {
      SerpentineLength(g, n - 1, rows, columns);
      KeptRow(g, n - 1, rows, columns);
      assert n * columns == (n - 1) * columns + columns;
    }
  }

  lemma {:induction false} SerpentineExtends(g: Grid, i: nat, n: nat, columns: nat)
    requires i <= n
    ensures g.Serpentine(i, columns) <= g.Serpentine(n, columns)
  {
    hide Grid.Row;
    if i < n { SerpentineExtends(g, i, n - 1, columns); }
  }

  /** The serpentine's `k`-th point, when that is the `j`-th one of row `i`. */
  lemma SerpentineAt(g: Grid, n: nat, rows: nat, columns: nat, i: nat, j: nat, k: nat)
    requires g.vision > 0.0 && Kept(g, rows, columns) && n <= g.Rows()
    requires i < n && i < rows && j < columns && k == i * columns + j
    ensures k < |g.Serpentine(n, g.Columns())| && g.Serpentine(n, g.Columns())[k] == Place(g, columns, i, j)
  {
    hide Grid.Columns, Grid.Rows, Kept, Grid.At, Grid.Serpentine, Less, Place;
    LengthBefore(g, i, rows, columns);
    NextRowAt(g, rows, columns, i, j);
    SerpentineExtends(g, i + 1, n, g.Columns());
  }

  lemma LengthBefore(g: Grid, i: nat, rows: nat, columns: nat)
    requires g.vision > 0.0 && Kept(g, rows, columns) && i < rows
    ensures i < g.Rows() && |g.Serpentine(i, g.Columns())| == i * columns
  {
    hide Grid.Serpentine, Grid.Columns, Grid.Rows, Inside;
    SerpentineLength(g, i, rows, columns);
  }

  lemma NextRowAt(g: Grid, rows: nat, columns: nat, i: nat, j: nat)
    requires g.vision > 0.0 && Kept(g, rows, columns) && i < rows && j < columns && i < g.Rows()
    ensures var start := |g.Serpentine(i, g.Columns())|;
            start + j < |g.Serpentine(i + 1, g.Columns())| &&
            g.Serpentine(i + 1, g.Columns())[start + j] == Place(g, columns, i, j)
  {
    hide Grid.Row, Grid.Columns, Grid.Rows, Kept, Grid.At, Reversed;
    KeptRow(g, i, rows, columns);
    if i % 2 == 1 { ReversedAt(g.Row(i, g.Columns()), j); }
  }

  lemma PlaceOf(k: nat, rows: nat, columns: nat) returns (i: nat, j: nat)
    requires k < rows * columns
    ensures i < rows && j < columns && k == i * columns + j
  {
    TimesGrows(columns, 0, rows);
    i, j := k / columns, k % columns;
    TimesGrows(rows, i, columns);
  }

  lemma TimesGrows(a: nat, b: nat, c: nat)
    ensures a <= b ==> a * c <= b * c && c * a <= c * b
  {
    if a <= b { assert (b - a) * c >= 0; }
  }

  /** Every point of the zone is within half the camera's vision of some hover point, on both axes. */
  lemma ZoneCovered(zone: Polygon, config: Config, p: XYZCoord)
    requires Rectangle(zone) && config.cameraVision > 0.0 && LastKept(zone, config) && InZone(zone, p)
    ensures Seen(GridOf(zone, config).Pattern(), p, config.cameraVision)
  {
    hide Kept, GridOf, Grid.Pattern, Grid.Columns, Grid.Rows, Grid.At, Sees, LastKept;
    GridEdges(zone, config);
    var rows, columns := KeptPart(zone, config);
    var n, m := NearestCell(zone, config, p);
    InPattern(GridOf(zone, config), rows, columns, n, m);
  }

  lemma NearestCell(zone: Polygon, config: Config, p: XYZCoord) returns (n: nat, m: nat)
    requires Rectangle(zone) && config.cameraVision > 0.0 && InZone(zone, p)
    ensures var g := GridOf(zone, config);
            n < g.Rows() && m < g.Columns() && Sees(g.At(n, m), p, config.cameraVision)
  {
    hide GridOf, Grid.Columns, Grid.Rows, Grid.At, Sees;
    var g := GridOf(zone, config);
    GridEdges(zone, config);
    m := Cell(g.stopX - g.startX, g.vision, p.x - zone[0].x);
    n := Cell(g.startY - g.stopY, g.vision, zone[2].y - p.y);
    g.Size(m);
    g.Size(n);
    CellSees(g, n, m, p);
  }

  /** Every point kept is in the pattern. */
  lemma InPattern(g: Grid, rows: nat, columns: nat, n: nat, m: nat)
    requires g.vision > 0.0 && Kept(g, rows, columns) && n < rows && m < columns
    ensures exists k :: 0 <= k < |g.Pattern()| && g.Pattern()[k] == g.At(n, m)
  {
    hide Inside, Grid.Serpentine, Grid.Columns, Grid.Rows, Grid.At;
    var j := if n % 2 == 0 then m else columns - 1 - m;
    var k := n * columns + j;
    SerpentineAt(g, g.Rows(), rows, columns, n, j, k);
    assert g.Pattern()[k] == g.At(n, m);
  }

  lemma CellSees(g: Grid, n: nat, m: nat, p: XYZCoord)
    requires m as real * g.vision <= p.x - (g.startX - g.vision / 2.0) <= m as real * g.vision + g.vision
    requires n as real * g.vision <= (g.startY + g.vision / 2.0) - p.y <= n as real * g.vision + g.vision
    ensures Sees(g.At(n, m), p, g.vision)
  {
  }

  lemma GridEdges(zone: Polygon, config: Config)
    requires Rectangle(zone) && config.cameraVision > 0.0
    ensures var g, v := GridOf(zone, config), config.cameraVision;
            && g.vision == v
            && g.startX == zone[0].x + v / 2.0 && g.stopX - g.startX == zone[1].x - zone[0].x > 0.0
            && g.startY == zone[2].y - v / 2.0 && g.startY - g.stopY == zone[2].y - zone[0].y > 0.0
  {
    hide Scaled;
  }

  predicate Sees(hover: XYZCoord, p: XYZCoord, v: real) {
    -(v / 2.0) <= p.x - hover.x <= v / 2.0 && -(v / 2.0) <= p.y - hover.y <= v / 2.0
  }

  ghost predicate Seen(points: seq<XYZCoord>, p: XYZCoord, v: real) {
    exists k :: 0 <= k < |points| && Sees(points[k], p, v)
  }

  predicate InZone(zone: Polygon, p: XYZCoord)
    requires |zone| == 4
  {
    zone[0].x <= p.x <= zone[1].x && zone[0].y <= p.y <= zone[2].y
  }

  /** The cell of width `v` that holds the distance `d`; at a border, the nearer one. */
  lemma Cell(length: real, v: real, d: real) returns (m: nat)
    requires v > 0.0 && 0.0 <= d <= length && length > 0.0
    ensures m as real * v <= d <= m as real * v + v && m as real * v < length
  {
    m := StepsWithin(d, v);
    if m > 0 {
      StepsCounted(d, v, m);
      m := m - 1;
      StepsCounted(d, v, m);
    } else {
      StepsCounted(d, v, 0);
    }
  }

  /** Whatever the filter cuts off a rectangle's grid, from each hover point to the next it is exactly the
      camera's vision, along exactly one axis. */
  lemma OneStepAtATime(zone: Polygon, config: Config, k: nat)
    requires Rectangle(zone) && config.cameraVision > 0.0
    requires k + 1 < |GridOf(zone, config).Pattern()|
    ensures var points := GridOf(zone, config).Pattern();
            Neighbours(points[k], points[k + 1], config.cameraVision)
  {
    hide Inside, Scaled, Grid.Serpentine, Grid.Columns, Grid.Rows, GridOf;
    var g := GridOf(zone, config);
    GridEdges(zone, config);
    var rows, columns := KeptPart(zone, config);
    SerpentineLength(g, g.Rows(), rows, columns);
    var i, j := PlaceOf(k, rows, columns);
    SerpentineAt(g, g.Rows(), rows, columns, i, j, k);
    if j + 1 < columns {
      SerpentineAt(g, g.Rows(), rows, columns, i, j + 1, k + 1);
      NextColumn(g, columns, i, j);
    } else {
      assert (i + 1) * columns == k + 1;
      var i', j' := PlaceOf(k + 1, rows, columns);
      SerpentineAt(g, g.Rows(), rows, columns, i', j', k + 1);
      SamePlace(i', j', i + 1, 0, columns);
      NextRow(g, columns, i);
    }
  }

  predicate Neighbours(a: XYZCoord, b: XYZCoord, v: real) {
    && a.z == b.z
    && ((a.y == b.y && (b.x - a.x == v || a.x - b.x == v)) || (a.x == b.x && a.y - b.y == v))
  }

  lemma SamePlace(i: nat, j: nat, n: nat, m: nat, columns: nat)
    requires j < columns && m < columns && i * columns + j == n * columns + m
    ensures i == n && j == m
  {
    TimesGrows(i + 1, n, columns);
    TimesGrows(n + 1, i, columns);
    assert (i + 1) * columns == i * columns + columns;
    assert (n + 1) * columns == n * columns + columns;
  }

  lemma NextColumn(g: Grid, columns: nat, i: nat, j: nat)
    requires j + 1 < columns
    ensures Neighbours(Place(g, columns, i, j), Place(g, columns, i, j + 1), g.vision)
  {
    var m := if i % 2 == 0 then j else columns - 2 - j;
    assert (m + 1) as real * g.vision == m as real * g.vision + g.vision;
  }

  lemma NextRow(g: Grid, columns: nat, i: nat)
    requires 0 < columns
    ensures Neighbours(Place(g, columns, i, columns - 1), Place(g, columns, i + 1, 0), g.vision)
  {
    assert (i + 1) as real * g.vision == i as real * g.vision + g.vision;
  }

  // ----- when the zone is not covered

  /** If the last column is cut off, the right border is out of sight; if the last row is, the lower one. */
  lemma CornerUnseen(zone: Polygon, config: Config)
    requires Rectangle(zone) && config.cameraVision > 0.0 && !LastKept(zone, config)
    ensures InZone(zone, zone[1]) && !Seen(GridOf(zone, config).Pattern(), zone[1], config.cameraVision)
  {
    hide GridOf, Grid.Rows, Grid.Columns, Grid.At, Grid.Serpentine, Inside, Sees, LastKept;
    var g := GridOf(zone, config);
    GridEdges(zone, config);
    forall k | 0 <= k < |g.Pattern()| ensures !Sees(g.Pattern()[k], zone[1], g.vision) {
      InSerpentineExactly(g, g.Rows(), g.Columns(), g.Pattern()[k]);
      var n: nat, m: nat :| n < g.Rows() && m < g.Columns() && g.Pattern()[k] == g.At(n, m);
      PointMissesCorner(zone, config, n, m);
    }
  }

  lemma PointMissesCorner(zone: Polygon, config: Config, n: nat, m: nat)
    requires Rectangle(zone) && config.cameraVision > 0.0 && !LastKept(zone, config)
    requires var g := GridOf(zone, config);
             n < g.Rows() && m < g.Columns() && Inside(g.filter, g.At(n, m))
    ensures !Sees(GridOf(zone, config).At(n, m), zone[1], config.cameraVision)
  {
    hide GridOf, Grid.Rows, Grid.Columns, Inside;
    var g := GridOf(zone, config);
    var v := config.cameraVision;
    GridEdges(zone, config);
    InFilter(zone, config, n, m);
    if g.startX + (g.Columns() - 1) as real * v >= zone[1].x + 0.1 * Width(zone) {
      Grows(g.Columns() - 1, m, v);
      assert m <= g.Columns() - 2;
      g.Size(m + 1);
      assert (m + 1) as real * v == m as real * v + v;
    } else {
      Grows(g.Rows() - 1, n, v);
      assert n <= g.Rows() - 2;
      g.Size(n + 1);
      assert (n + 1) as real * v == n as real * v + v;
    }
  }

  /** A rectangular zone is seen everywhere exactly when the enlarged zone still holds the last column
      and the last row of the grid. */
  lemma CoveredExactly(zone: Polygon, config: Config)
    requires Rectangle(zone) && config.cameraVision > 0.0
    ensures (forall p | InZone(zone, p) :: Seen(GridOf(zone, config).Pattern(), p, config.cameraVision)) <==>
            LastKept(zone, config)
  {
    hide GridOf, Seen, LastKept, InZone;
    GridEdges(zone, config);
    if LastKept(zone, config) {
      forall p | InZone(zone, p) ensures Seen(GridOf(zone, config).Pattern(), p, config.cameraVision) {
        ZoneCovered(zone, config, p);
      }
    } else {
      CornerUnseen(zone, config);
    }
  }
}
