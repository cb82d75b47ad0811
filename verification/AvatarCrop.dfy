/**
 The avatar crop square (src/store/avatar_crop.rs, `CropState`). Fractions are
 reals; conversions to pixels truncate, saturate and round as the casts do.
 */
module AvatarCrop {

  const U32_MAX: int := 0xFFFF_FFFF

  newtype u32 = n: int | 0 <= n <= 0xFFFF_FFFF

  function Clamp(x: real, lo: real, hi: real): real {
    if x < lo then lo else if x > hi then hi else x
  }

  /** `as u32`: truncation toward zero that saturates at both ends. */
  function AsU32(x: real): u32 {
    if x < 0.0 then 0 else if x.Floor > U32_MAX then U32_MAX as u32 else x.Floor as u32
  }

  /** `round`: half away from zero. */
  function Round(x: real): int {
    if x < 0.0 then -((0.5 - x).Floor) else (x + 0.5).Floor
  }

  function MinU32(a: u32, b: u32): u32 { if a <= b then a else b }

  function SaturatingSub(a: u32, b: u32): u32 { if a <= b then 0 else a - b }

  function Max(x: real, y: real): real { if x >= y then x else y }

  datatype Crop = Crop(width: u32, height: u32, centerX: real, centerY: real, radius: real, zoom: real)

  function New(width: u32, height: u32): Crop {
    Crop(width, height, 0.5, 0.5, 0.4, 1.0)
  }

  datatype Op = Pan(dx: real, dy: real) | SetZoom(zoom: real) | SetRadius(radius: real)

  function Apply(c: Crop, op: Op): Crop {
    match op
    case Pan(dx, dy) =>
      c.(centerX := Clamp(c.centerX + dx, 0.0, 1.0), centerY := Clamp(c.centerY + dy, 0.0, 1.0))
    case SetZoom(zoom) => c.(zoom := Clamp(zoom, 1.0, 4.0))
    case SetRadius(radius) => c.(radius := Clamp(radius, 0.1, 0.5))
  }

  class CropState {
    const originalWidth: u32
    const originalHeight: u32
    var centerX: real
    var centerY: real
    var radius: real
    var zoom: real

    function View(): Crop
      reads this
    {
      Crop(originalWidth, originalHeight, centerX, centerY, radius, zoom)
    }

    constructor (width: u32, height: u32)
      ensures View() == New(width, height)
    {
      originalWidth, originalHeight := width, height;
      centerX, centerY, radius, zoom := 0.5, 0.5, 0.4, 1.0;
    }

    /** `(left, top, side)` of the square to cut out. */
    function CropRect(): (u32, u32, u32)
      reads this
    {
      RectOf(View())
    }

    method Pan(dx: real, dy: real)
      modifies this
      ensures View() == Apply(old(View()), Op.Pan(dx, dy))
    {
      centerX := Clamp(centerX + dx, 0.0, 1.0);
      centerY := Clamp(centerY + dy, 0.0, 1.0);
    }

    method SetZoom(z: real)
      modifies this
      ensures View() == Apply(old(View()), Op.SetZoom(z))
    {
      zoom := Clamp(z, 1.0, 4.0);
    }

    method SetRadius(r: real)
      modifies this
      ensures View() == Apply(old(View()), Op.SetRadius(r))
    {
      radius := Clamp(r, 0.1, 0.5);
    }
  }

  // ---------------------------------------------------------------------
  // The square
  // ---------------------------------------------------------------------

  function MinDim(c: Crop): u32 { MinU32(c.width, c.height) }

  function ShortEdge(c: Crop): (r: real)
    ensures r >= 0.0
  {
    MinDim(c) as real
  }

  function Scaled(x: real, factor: real): real { x * factor }

  function RadiusPx(c: Crop): real { Scaled(Scaled(ShortEdge(c), c.radius), c.zoom) }

  function CenterPx(center: real, size: u32): real { center * (size as real) }

  function Side(c: Crop): u32 {
    AsU32(Round(RadiusPx(c) * 2.0) as real)
  }

  /** Where the square starts on an axis of `size` pixels whose requested centre is at `center`. */
  function Start(center: real, radiusPx: real, size: u32, side: u32): u32 {
    MinU32(AsU32(Max(center - radiusPx, 0.0)), SaturatingSub(size, side))
  }

  /** `(left, top, side)`. */
  function RectOf(c: Crop): (u32, u32, u32) {
    var side := Side(c);
    ( Start(CenterPx(c.centerX, c.width), RadiusPx(c), c.width, side),
      Start(CenterPx(c.centerY, c.height), RadiusPx(c), c.height, side),
      side )
  }

  // ---------------------------------------------------------------------
  // Reachable states
  // ---------------------------------------------------------------------

  function Run(width: u32, height: u32, ops: seq<Op>): Crop {
    if ops == [] then New(width, height)
    else Apply(Run(width, height, ops[..|ops| - 1]), ops[|ops| - 1])
  }

  predicate InRange(c: Crop) {
    && 0.0 <= c.centerX <= 1.0 && 0.0 <= c.centerY <= 1.0
    && 0.1 <= c.radius <= 0.5 && 1.0 <= c.zoom <= 4.0
  }

  lemma {:induction false} RunInRange(width: u32, height: u32, ops: seq<Op>)
    ensures var c := Run(width, height, ops); InRange(c) && c.width == width && c.height == height
  {
    if ops != [] {
      RunInRange(width, height, ops[..|ops| - 1]);
    }
  }

  /** A move that stays on the image, or crosses all of it from one edge to beyond the other. */
  predicate IsReversible(x: real, d: real) {
    0.0 <= x + d <= 1.0 || (x == 0.0 && d > 1.0) || (x == 1.0 && d < -1.0)
  }

  /** Moving there and back returns to the start exactly if the move is reversible on both axes. */
  lemma {:induction false} PanUndoneIff(width: u32, height: u32, ops: seq<Op>, dx: real, dy: real)
    ensures var c := Run(width, height, ops);
      Run(width, height, ops + [Op.Pan(dx, dy), Op.Pan(-dx, -dy)]) == c <==>
        IsReversible(c.centerX, dx) && IsReversible(c.centerY, dy)
  {
    RunInRange(width, height, ops);
    var there := ops + [Op.Pan(dx, dy)];
    assert there + [Op.Pan(-dx, -dy)] == ops + [Op.Pan(dx, dy), Op.Pan(-dx, -dy)];
    RunSnoc(width, height, ops, Op.Pan(dx, dy));
    RunSnoc(width, height, there, Op.Pan(-dx, -dy));
    hide Run;
  }

  lemma RunSnoc(width: u32, height: u32, ops: seq<Op>, op: Op)
    ensures Run(width, height, ops + [op]) == Apply(Run(width, height, ops), op)
  {
    assert (ops + [op])[..|ops|] == ops;
  }

  /** The last of `values`, kept between `lo` and `hi`, or the default if there is none. */
  predicate IsLast(x: real, values: seq<real>, lo: real, hi: real, default: real) {
    if values == [] then x == default
    else
      var last := values[|values| - 1];
      (last < lo ==> x == lo) && (last > hi ==> x == hi) && (lo <= last <= hi ==> x == last)
  }

  function Zooms(ops: seq<Op>): seq<real> {
    if ops == [] then []
    else Zooms(ops[..|ops| - 1]) + match ops[|ops| - 1] case SetZoom(z) => [z] case _ => []
  }

  function Radii(ops: seq<Op>): seq<real> {
    if ops == [] then []
    else Radii(ops[..|ops| - 1]) + match ops[|ops| - 1] case SetRadius(r) => [r] case _ => []
  }

  /** Zoom and radius are the last ones set, clamped, whatever was set or moved in between. */
  lemma {:induction false} SettingsAreLast(width: u32, height: u32, ops: seq<Op>)
    ensures var c := Run(width, height, ops);
      IsLast(c.zoom, Zooms(ops), 1.0, 4.0, 1.0) && IsLast(c.radius, Radii(ops), 0.1, 0.5, 0.4)
  {
    if ops != [] {
      SettingsAreLast(width, height, ops[..|ops| - 1]);
    }
  }

  /** The centre starts in the middle and moves by the sum of the moves, as long as no edge stops it. */
  lemma {:induction false} CenterIsSumOfMoves(width: u32, height: u32, ops: seq<Op>)
    requires forall n | 0 <= n <= |ops| :: OnImage(ops[..n])
    ensures var c := Run(width, height, ops); (c.centerX, c.centerY) == Moved(ops)
  {
    if ops != [] {
      var n := |ops| - 1;
      assert ops[..|ops|] == ops;
      assert forall k | 0 <= k <= n :: ops[..n][..k] == ops[..k];
      CenterIsSumOfMoves(width, height, ops[..n]);
      assert OnImage(ops[..n + 1]);
    }
  }

  /** The middle of the image and all the moves added up. */
  function Moved(ops: seq<Op>): (real, real) {
    if ops == [] then (0.5, 0.5)
    else
      var (x, y) := Moved(ops[..|ops| - 1]);
      match ops[|ops| - 1] case Pan(dx, dy) => (x + dx, y + dy) case _ => (x, y)
  }

  predicate OnImage(ops: seq<Op>) {
    0.0 <= Moved(ops).0 <= 1.0 && 0.0 <= Moved(ops).1 <= 1.0
  }

  lemma RadiusScales(edge: real, radius: real)
    requires edge >= 0.0 && 0.1 <= radius <= 0.5
    ensures 0.1 * edge <= Scaled(edge, radius) <= 0.5 * edge
  {}

  lemma ZoomScales(unzoomed: real, zoom: real)
    requires unzoomed >= 0.0 && 1.0 <= zoom <= 4.0
    ensures unzoomed <= Scaled(unzoomed, zoom) <= 4.0 * unzoomed
  {}

  lemma RadiusPxBounds(c: Crop)
    requires InRange(c)
    ensures 0.1 * ShortEdge(c) <= RadiusPx(c) <= 2.0 * ShortEdge(c)
  {
    hide Scaled, ShortEdge;
    RadiusScales(ShortEdge(c), c.radius);
    ZoomScales(Scaled(ShortEdge(c), c.radius), c.zoom);
  }

  /** The side is the diameter rounded to the nearest pixel, unless the cast saturates. */
  lemma SideIsRounded(c: Crop)
    requires InRange(c)
    ensures var d := 2.0 * RadiusPx(c);
      if d + 0.5 < 4294967296.0 then d - 0.5 < Side(c) as real <= d + 0.5 else Side(c) as int == U32_MAX
  {
    RadiusPxBounds(c);
  }

  // ---------------------------------------------------------------------
  // Accuracy
  // ---------------------------------------------------------------------

  /** Neither edge of an axis moves the square: its start is the truncated `center - radius`. */
  predicate Unclamped(center: real, radiusPx: real, size: u32, side: u32) {
    0.0 <= center - radiusPx && (center - radiusPx).Floor <= SaturatingSub(size, side) as int
  }

  /** How far the middle of a square is from the requested centre, in pixels. */
  function MiddleError(start: u32, side: u32, center: real): real {
    start as real + (side as real) / 2.0 - center
  }

  /** The middle is more than -1.25 and at most 0.25 pixels off. */
  predicate IsAccurate(start: u32, side: u32, center: real) {
    -1.25 < MiddleError(start, side, center) <= 0.25
  }

  /** The diameter, rounded, is a pixel count that the type can hold. */
  predicate DiameterFits(radiusPx: real) { 2.0 * radiusPx + 0.5 < 4294967296.0 }

  lemma AxisAccurateIff(center: real, radiusPx: real, size: u32, side: u32)
    requires if DiameterFits(radiusPx) then 2.0 * radiusPx - 0.5 < side as real <= 2.0 * radiusPx + 0.5
             else side as int == U32_MAX
    ensures Unclamped(center, radiusPx, size, side) ==>
              (IsAccurate(Start(center, radiusPx, size, side), side, center) <==>
                 DiameterFits(radiusPx) || center < 2147483648.75)
  {}

  /**
   On each axis of every reachable crop on which no edge acts, the square is
   accurate, except exactly when the diameter saturates the pixel type and the
   centre is past its half.
   */
  lemma {:induction false} CropAccurateIff(width: u32, height: u32, ops: seq<Op>)
    ensures var c := Run(width, height, ops);
      var (left, top, side) := RectOf(c);
      var r, x, y := RadiusPx(c), CenterPx(c.centerX, width), CenterPx(c.centerY, height);
      && (Unclamped(x, r, width, side) ==> (IsAccurate(left, side, x) <==> DiameterFits(r) || x < 2147483648.75))
      && (Unclamped(y, r, height, side) ==> (IsAccurate(top, side, y) <==> DiameterFits(r) || y < 2147483648.75))
  {
    RunInRange(width, height, ops);
    hide IsAccurate, Unclamped, RadiusPx, Side, Run, CenterPx, Start;
    var c := Run(width, height, ops);
    SideIsRounded(c);
    AxisAccurateIff(CenterPx(c.centerX, width), RadiusPx(c), width, Side(c));
    AxisAccurateIff(CenterPx(c.centerY, height), RadiusPx(c), height, Side(c));
  }

  /** An image with an edge below 2^30 pixels is always cropped accurately. */
  lemma {:induction false} SmallImagesAccurate(width: u32, height: u32, ops: seq<Op>)
    requires width < 0x4000_0000 || height < 0x4000_0000
    ensures var c := Run(width, height, ops);
      var (left, top, side) := RectOf(c);
      var r, x, y := RadiusPx(c), CenterPx(c.centerX, width), CenterPx(c.centerY, height);
      && (Unclamped(x, r, width, side) ==> IsAccurate(left, side, x))
      && (Unclamped(y, r, height, side) ==> IsAccurate(top, side, y))
  {
    RunInRange(width, height, ops);
    RadiusPxBounds(Run(width, height, ops));
    hide IsAccurate, RadiusPx, Run, CenterPx, RectOf, Unclamped;
    CropAccurateIff(width, height, ops);
  }

  /** The saturation is reachable: the middle is then more than a billion pixels off. */
  lemma SaturatedCropInaccurate()
    ensures var max := U32_MAX as u32;
      var c := Run(max, max, [SetZoom(2.0), SetRadius(0.45), Pan(0.4, 0.4)]);
      && Unclamped(CenterPx(c.centerX, max), RadiusPx(c), max, Side(c))
      && MiddleError(RectOf(c).0, Side(c), CenterPx(c.centerX, max)) < -1000000000.0
  {
    var max := U32_MAX as u32;
    var ops := [SetZoom(2.0), SetRadius(0.45), Pan(0.4, 0.4)];
    assert ops[..2][..1] == ops[..1] && ops[..1][..0] == [];
    assert Run(max, max, ops[..1]) == Crop(max, max, 0.5, 0.5, 0.4, 2.0);
    assert Run(max, max, ops[..2]) == Crop(max, max, 0.5, 0.5, 0.45, 2.0);
    var c := Run(max, max, ops);
    assert c == Crop(max, max, 0.9, 0.9, 0.45, 2.0);
    assert RadiusPx(c) == 3865470565.5 && CenterPx(c.centerX, max) == 3865470565.5;
  }

  /** A run on a 100 by 10 image that puts the centre at pixel `x` of the longer axis. */
  function Placed(radius: real, x: real): seq<Op> {
    [SetRadius(radius), Pan(x / 100.0 - 0.5, 0.0)]
  }

  lemma PlacedIs(radius: real, x: real)
    requires 0.1 <= radius <= 0.5 && 0.0 <= x <= 100.0
    ensures var c := Run(100, 10, Placed(radius, x));
      RadiusPx(c) == 10.0 * radius && CenterPx(c.centerX, 100) == x
  {
    var ops := Placed(radius, x);
    assert ops[..1][..0] == [];
    assert Run(100, 10, ops[..1]) == Crop(100, 10, 0.5, 0.5, radius, 1.0);
    assert Run(100, 10, ops) == Crop(100, 10, x / 100.0, 0.5, radius, 1.0);
  }

  /** Both bounds are the best possible: reachable crops attain the one and come as near to the other as wanted. */
  lemma AccuracyIsTight(eps: real)
    requires 0.0 < eps <= 1.0
    ensures var c := Run(100, 10, Placed(0.225, 10.25));
      && Unclamped(CenterPx(c.centerX, 100), RadiusPx(c), 100, Side(c))
      && MiddleError(RectOf(c).0, Side(c), CenterPx(c.centerX, 100)) == 0.25
    ensures var c := Run(100, 10, Placed(0.225 - eps / 40.0, 10.25 - eps * 0.75));
      && Unclamped(CenterPx(c.centerX, 100), RadiusPx(c), 100, Side(c))
      && MiddleError(RectOf(c).0, Side(c), CenterPx(c.centerX, 100)) < -1.25 + eps
  {
    RunInRange(100, 10, Placed(0.225, 10.25));
    RunInRange(100, 10, Placed(0.225 - eps / 40.0, 10.25 - eps * 0.75));
    PlacedIs(0.225, 10.25);
    PlacedIs(0.225 - eps / 40.0, 10.25 - eps * 0.75);
    hide Run, RadiusPx, CenterPx, Placed;
  }

  // ---------------------------------------------------------------------
  // Containment
  // ---------------------------------------------------------------------

  /** In every reachable crop, the start leaves room for the square, or for the whole axis if it is shorter. */
  lemma {:induction false} CropStartsInside(width: u32, height: u32, ops: seq<Op>)
    ensures var (left, top, side) := RectOf(Run(width, height, ops));
      && left as int + MinU32(side, width) as int <= width as int
      && top as int + MinU32(side, height) as int <= height as int
  {
    RunInRange(width, height, ops);
  }

  /** The whole square: a side, and on each axis a start. */
  predicate IsRounded(side: u32, diameter: real) {
    if diameter + 0.5 < 4294967296.0 then diameter - 0.5 < side as real <= diameter + 0.5
    else side as int == 0xFFFF_FFFF
  }

  /**
   Of all positions from which the square fits on the axis (or of 0 alone, if it does
   not fit from anywhere), the start is the nearest to the truncated wish.
   */
  ghost predicate IsNearest(start: u32, wish: real, size: u32, side: u32) {
    && IsAllowed(start as int, size, side)
    && forall s: int | IsAllowed(s, size, side) :: Distance(start as int, wish.Floor) <= Distance(s, wish.Floor)
  }

  predicate IsAllowed(s: int, size: u32, side: u32) {
    0 <= s && (s == 0 || s + side as int <= size as int)
  }

  function Distance(a: int, b: int): int { if a <= b then b - a else a - b }

  /** The side is the rounded diameter; the start is as near as it can be to where the centre is in the middle. */
  ghost predicate IsBestSquare(c: Crop, left: u32, top: u32, side: u32) {
    && IsRounded(side, 2.0 * ZoomedRadius(c))
    && IsNearest(left, Wish(c.centerX, c.width, ZoomedRadius(c)), c.width, side)
    && IsNearest(top, Wish(c.centerY, c.height, ZoomedRadius(c)), c.height, side)
  }

  /** The radius is a fraction of the shorter edge. */
  function ZoomedRadius(c: Crop): real {
    ((if c.width <= c.height then c.width else c.height) as real) * c.radius * c.zoom
  }

  /** Where the square would start on an axis without edges; the centre is a fraction of the axis. */
  function Wish(center: real, size: u32, radius: real): real { center * (size as real) - radius }

  /** In every reachable state the computed square is the best one. */
  lemma {:induction false} CropIsBest(width: u32, height: u32, ops: seq<Op>)
    ensures var c := Run(width, height, ops); var rect := RectOf(c); IsBestSquare(c, rect.0, rect.1, rect.2)
  {
    RunInRange(width, height, ops);
    var c := Run(width, height, ops);
    hide Run, Side, RadiusPx, IsNearest, Start, CenterPx, Wish, ZoomedRadius;
    SideIsRounded(c);
    RadiusPxIs(c);
    RadiusPxBounds(c);
    AxisIsNearest(c.centerX, RadiusPx(c), c.width, Side(c));
    AxisIsNearest(c.centerY, RadiusPx(c), c.height, Side(c));
  }

  lemma RadiusPxIs(c: Crop)
    ensures RadiusPx(c) == ZoomedRadius(c)
  {}

  lemma AxisIsNearest(center: real, radiusPx: real, size: u32, side: u32)
    requires 0.0 <= center <= 1.0 && radiusPx >= 0.0
    ensures IsNearest(Start(CenterPx(center, size), radiusPx, size, side), Wish(center, size, radiusPx), size, side)
  {
    CenterOnAxis(center, size);
    hide Start, CenterPx, IsNearest;
    StartIsNearest(CenterPx(center, size), radiusPx, size, side);
  }

  lemma CenterOnAxis(center: real, size: u32)
    requires 0.0 <= center <= 1.0
    ensures CenterPx(center, size) == center * (size as real) && 0.0 <= CenterPx(center, size) <= size as real
  {}

  lemma StartIsNearest(center: real, radiusPx: real, size: u32, side: u32)
    requires 0.0 <= center <= size as real && radiusPx >= 0.0
    ensures IsNearest(Start(center, radiusPx, size, side), center - radiusPx, size, side)
  {}

  /** Where an edge acts, the square touches it: the left one, and the right one if the square fits. */
  lemma {:induction false} CropTouchesEdges(width: u32, height: u32, ops: seq<Op>)
    ensures var c := Run(width, height, ops); var (left, top, side) := RectOf(c);
      && Touches(left, Wish(c.centerX, c.width, ZoomedRadius(c)), c.width, side)
      && Touches(top, Wish(c.centerY, c.height, ZoomedRadius(c)), c.height, side)
  {
    RunInRange(width, height, ops);
    var c := Run(width, height, ops);
    hide Run, Side, RadiusPx, Touches, Start, CenterPx, Wish, ZoomedRadius;
    RadiusPxIs(c);
    RadiusPxBounds(c);
    AxisTouches(c.centerX, RadiusPx(c), c.width, Side(c));
    AxisTouches(c.centerY, RadiusPx(c), c.height, Side(c));
  }

  lemma AxisTouches(center: real, radiusPx: real, size: u32, side: u32)
    requires 0.0 <= center <= 1.0 && radiusPx >= 0.0
    ensures Touches(Start(CenterPx(center, size), radiusPx, size, side), Wish(center, size, radiusPx), size, side)
  {
    CenterOnAxis(center, size);
    hide Start, CenterPx, Touches;
    StartTouches(CenterPx(center, size), radiusPx, size, side);
  }

  predicate Touches(start: u32, wish: real, size: u32, side: u32) {
    && (wish < 1.0 ==> start == 0)
    && (wish + side as real >= size as real && side <= size ==> start as int + side as int == size as int)
  }

  lemma StartTouches(center: real, radiusPx: real, size: u32, side: u32)
    requires 0.0 <= center <= size as real && radiusPx >= 0.0
    ensures Touches(Start(center, radiusPx, size, side), center - radiusPx, size, side)
  {}

  predicate SquareInside(c: Crop) {
    var (left, top, side) := RectOf(c);
    left as int + side as int <= c.width as int && top as int + side as int <= c.height as int
  }

  /**
   The comment that the square stays inside the image holds exactly when the
   diameter rounds to at most the shorter edge (or that edge is the largest
   number there is); in particular whenever twice the radius, zoomed, is at most 1.
   */
  lemma {:induction false} SquareInsideIff(width: u32, height: u32, ops: seq<Op>)
    ensures var c := Run(width, height, ops);
      SquareInside(c) <==> 2.0 * RadiusPx(c) < ShortEdge(c) + 0.5 || MinDim(c) as int == U32_MAX
    ensures var c := Run(width, height, ops); 2.0 * c.radius * c.zoom <= 1.0 ==> SquareInside(c)
  {
    var c := Run(width, height, ops);
    RunInRange(width, height, ops);
    hide RadiusPx, Side, Run, SquareInside, InRange;
    SideIsRounded(c);
    InsideIffSideFits(c);
    DiameterAtMostEdge(c);
  }

  lemma InsideIffSideFits(c: Crop)
    ensures SquareInside(c) <==> Side(c) <= MinDim(c)
  {
    hide Side, RadiusPx;
  }

  lemma DiameterAtMostEdge(c: Crop)
    ensures 2.0 * c.radius * c.zoom <= 1.0 ==> 2.0 * RadiusPx(c) <= ShortEdge(c)
  {
    hide Scaled, ShortEdge;
    DiameterScales(ShortEdge(c), c.radius, c.zoom);
  }

  lemma DiameterScales(edge: real, radius: real, zoom: real)
    requires edge >= 0.0
    ensures 2.0 * radius * zoom <= 1.0 ==> 2.0 * Scaled(Scaled(edge, radius), zoom) <= edge
  {
    var factor := 2.0 * radius * zoom;
    assert 2.0 * Scaled(Scaled(edge, radius), zoom) == edge * factor;
    if factor <= 1.0 {
      AtMostItself(edge, factor);
    }
  }

  lemma AtMostItself(x: real, factor: real)
    requires x >= 0.0 && factor <= 1.0
    ensures x * factor <= x
  {}

  /** Zooming in fully on a square image makes the crop more than three times as wide as the image. */
  lemma SquareCanStickOut()
    ensures var c := Run(100, 100, [Op.SetZoom(4.0)]); RectOf(c) == (0, 0, 320) && !SquareInside(c)
  {
    assert [Op.SetZoom(4.0)][..0] == [];
    assert Run(100, 100, [Op.SetZoom(4.0)]) == Crop(100, 100, 0.5, 0.5, 0.4, 4.0);
  }

  /** The crop is never empty for images of at least 3 by 3 pixels; a 2 by 2 image can make it empty. */
  lemma CropNotEmpty(width: u32, height: u32, ops: seq<Op>)
    ensures var c := Run(width, height, ops); Side(c) > 0 <==> 2.0 * RadiusPx(c) >= 0.5
    ensures width >= 3 && height >= 3 ==> Side(Run(width, height, ops)) > 0
    ensures Side(Run(2, 2, [Op.SetRadius(0.1)])) == 0
  {
    var c := Run(width, height, ops);
    RunInRange(width, height, ops);
    SideIsRounded(c);
    RadiusPxBounds(c);
    SmallestCropOfTwoPixels();
  }

  lemma SmallestCropOfTwoPixels()
    ensures Side(Run(2, 2, [Op.SetRadius(0.1)])) == 0
  {
    assert [Op.SetRadius(0.1)][..0] == [];
    var c := Run(2, 2, [Op.SetRadius(0.1)]);
    assert c == Crop(2, 2, 0.5, 0.5, 0.1, 1.0);
    assert RadiusPx(c) == 0.2;
  }
}
