/** The detector's search windows over the reals: the motion model's predicted bounds, the armor window above a
    light, and the region of interest that has to contain them. */
module SearchWindows {
  import opened Geometry

  function Ceiling(x: real): int { -((-x).Floor) }

  /** Rounding half away from zero. */
  function Round(x: real): int {
    if x >= 0.0 then (x + 0.5).Floor else -((-x + 0.5).Floor)
  }

  function ClampInt(x: int, lo: int, hi: int): (r: int)
    requires lo <= hi
    ensures lo <= r <= hi && (lo <= x <= hi ==> r == x)
  {
    if x < lo then lo else if x > hi then hi else x
  }

  function RealMax(a: real, b: real): real { if a >= b then a else b }

  function RealMin(a: real, b: real): real { if a <= b then a else b }

  // ---- prediction ---------------------------------------------------------------------------------

  /** The last bounds moved by the predicted shift, cut and pushed into the frame. */
  function PredictBounds(last: Rect, dx: real, dy: real, width: nat, height: nat): (r: Rect)
    ensures r.Inside(width, height)
    ensures r.width == Min(last.width, width) && r.height == Min(last.height, height)
  {
    var w, h := Min(last.width, width), Min(last.height, height);
    Rect(ClampInt(Round(last.x as real + dx), 0, width - w), ClampInt(Round(last.y as real + dy), 0, height - h), w, h)
  }

  /** A target that fits the frame and does not move is predicted where it was. */
  lemma PredictionRests(last: Rect, width: nat, height: nat)
    requires last.Inside(width, height)
    ensures PredictBounds(last, 0.0, 0.0, width, height) == last
  {
    RoundWhole(last.x);
    RoundWhole(last.y);
  }

  lemma RoundWhole(n: nat)
    ensures Round(n as real + 0.0) == n
  {
    assert (n as real + 0.5).Floor == n;
  }

  // ---- the armor's window -------------------------------------------------------------------------

  datatype ArmorConfig = ArmorConfig(minSide: real, widthK: real, heightK: real, gapK: real)

  datatype Light = Light(x: real, y: real, radius: real, bounds: Rect)

  /** Above the light, cut at the frame's edges. */
  function ArmorWindow(c: ArmorConfig, light: Light, width: nat, height: nat): (r: Rect)
    ensures r.Inside(width, height)
  {
    if light.radius <= 0.0 then Rect(0, 0, 0, 0)
    else
      var scale := 2.0 * light.radius;
      var w, h := RealMax(c.minSide, c.widthK * scale), RealMax(c.minSide, c.heightK * scale);
      var x, y := light.x - w * 0.5, light.y - light.radius - c.gapK * scale - h;
      var x0, y0 := ClampInt(x.Floor, 0, width), ClampInt(y.Floor, 0, height);
      var x1, y1 := ClampInt(Ceiling(x + w), x0, width), ClampInt(Ceiling(y + h), y0, height);
      Rect(x0, y0, x1 - x0, y1 - y0)
  }

  // ---- the region of interest ---------------------------------------------------------------------

  datatype RoiConfig = RoiConfig(
    minWidth: nat, minHeight: nat, sizeK: real, margin: real, growPerMiss: real, fullAreaFraction: real,
    resetAfterMisses: nat, fullScanInterval: nat)

  predicate ValidRoi(c: RoiConfig) {
    && c.minWidth > 0 && c.minHeight > 0 && c.sizeK >= 1.0 && c.margin >= 0.0 && c.growPerMiss >= 0.0
    && 0.0 < c.fullAreaFraction <= 1.0 && c.resetAfterMisses > 0
  }

  /** The envelope's side with its margins, grown with every miss. */
  function Wanted(side: real, sizeK: real, margin: real, grow: real): real {
    Product(Product(side, sizeK) + 2.0 * margin, grow)
  }

  function Product(x: real, k: real): real { x * k }

  /** One side of the window: the envelope's side enlarged, never beyond the frame, rounded up. */
  function Side(minimum: nat, side: nat, c: RoiConfig, grow: real, limit: nat): int {
    Ceiling(RealMin(limit as real, RealMax(minimum as real, Wanted(side as real, c.sizeK, c.margin, grow))))
  }

  /** Where the window starts: centred on the envelope, then translated into the frame. */
  function Start(at: nat, side: nat, size: nat, limit: nat): nat
    requires size <= limit
  {
    ClampInt((at as real + side as real * 0.5 - size as real * 0.5).Floor, 0, limit - size)
  }

  lemma SideFits(minimum: nat, side: nat, c: RoiConfig, grow: real, limit: nat)
    requires ValidRoi(c) && grow >= 1.0 && side <= limit
    ensures side <= Side(minimum, side, c, grow, limit) <= limit
  {
    Stretch(side as real, c.sizeK);
    Stretch(Product(side as real, c.sizeK) + 2.0 * c.margin, grow);
    Enough(minimum as real, side as real, Wanted(side as real, c.sizeK, c.margin, grow), limit as real, side, limit);
  }

  lemma Enough(minimum: real, least: real, wanted: real, most: real, side: nat, limit: nat)
    requires least == side as real && most == limit as real && least <= most && least <= wanted
    ensures side <= Ceiling(RealMin(most, RealMax(minimum, wanted))) <= limit
  {
    CeilingBounds(RealMin(most, RealMax(minimum, wanted)), side, limit);
  }

  lemma Stretch(x: real, k: real)
    requires x >= 0.0 && k >= 1.0
    ensures Product(x, k) >= x
  {
    assert x * (k - 1.0) >= 0.0;
  }

  lemma CeilingBounds(r: real, lo: int, hi: int)
    requires lo as real <= r <= hi as real
    ensures lo <= Ceiling(r) <= hi
  {
  }

  /** Translating the window into the frame never loses the envelope, for odd and even margins alike. */
  lemma StartCovers(at: nat, side: nat, size: nat, limit: nat)
    requires side <= size <= limit && at + side <= limit
    ensures var s := Start(at, side, size, limit);
            s <= at && at + side <= s + size <= limit
  {
    var slack := size - side;
    var x := at as real + side as real * 0.5 - size as real * 0.5;
    assert x == at as real - slack as real * 0.5;
    assert at - slack <= x.Floor <= at by {
      assert (at - slack) as real <= x <= at as real;
    }
  }

  /** What the window has to contain: the predicted light, joined with the predicted armor or, when the target
      is due for validation, with the window an armor would be looked for in. */
  function Envelope(light: Rect, armor: Rect, hasArmor: bool, validate: bool, armorWindow: Rect): Rect {
    if hasArmor then UniteWindows(light, armor)
    else if validate then UniteWindows(light, armorWindow)
    else light
  }

  /** Full frame without a light to follow, after too many misses or when a full scan is due. */
  function NextWindow(
      c: RoiConfig, width: nat, height: nat, hasLight: bool, envelope: Rect, misses: nat, framesSinceFull: nat): Rect
    requires ValidRoi(c) && (hasLight ==> envelope.Inside(width, height))
  {
    if !hasLight || misses >= c.resetAfterMisses
       || (c.fullScanInterval > 0 && framesSinceFull >= c.fullScanInterval) then FullWindow(width, height)
    else
      var grow := Grow(c, misses);
      SideFits(c.minWidth, envelope.width, c, grow, width);
      SideFits(c.minHeight, envelope.height, c, grow, height);
      var w: nat, h: nat := Side(c.minWidth, envelope.width, c, grow, width),
                            Side(c.minHeight, envelope.height, c, grow, height);
      if (w * h) as real >= (width * height) as real * c.fullAreaFraction then FullWindow(width, height)
      else Rect(Start(envelope.x, envelope.width, w, width), Start(envelope.y, envelope.height, h, height), w, h)
  }

  function Grow(c: RoiConfig, misses: nat): (g: real)
    requires ValidRoi(c)
    ensures g >= 1.0
  {
    GrowthIsPositive(c.growPerMiss, misses);
    1.0 + c.growPerMiss * misses as real
  }

  lemma GrowthIsPositive(k: real, n: nat)
    requires k >= 0.0
    ensures k * n as real >= 0.0
  {
  }

  /** Every window lies in the frame and contains the whole envelope. */
  lemma WindowCoversEnvelope(
      c: RoiConfig, width: nat, height: nat, hasLight: bool, envelope: Rect, misses: nat, framesSinceFull: nat)
    requires ValidRoi(c) && (hasLight ==> envelope.Inside(width, height))
    ensures var window := NextWindow(c, width, height, hasLight, envelope, misses, framesSinceFull);
            window.Inside(width, height) && (hasLight ==> window.Contains(envelope))
  {
    if hasLight {
      var grow := Grow(c, misses);
      SideFits(c.minWidth, envelope.width, c, grow, width);
      SideFits(c.minHeight, envelope.height, c, grow, height);
      StartCovers(envelope.x, envelope.width, Side(c.minWidth, envelope.width, c, grow, width), width);
      StartCovers(envelope.y, envelope.height, Side(c.minHeight, envelope.height, c, grow, height), height);
    }
  }

  /** The window the detector scans next, from the last measurements and the predicted motion: inside the frame,
      around the predicted light and around the predicted armor or the whole armor window. */
  lemma NextWindowCovers(
      c: RoiConfig, a: ArmorConfig, width: nat, height: nat, lastLight: Rect, lastArmor: Rect, hasArmor: bool,
      validate: bool, dx: real, dy: real, ax: real, ay: real, light: Light, misses: nat, framesSinceFull: nat)
    requires ValidRoi(c) && width > 0 && height > 0 && !lastLight.Empty() && (hasArmor ==> !lastArmor.Empty())
    requires light.bounds == PredictBounds(lastLight, dx, dy, width, height)
    ensures var armor, above := PredictBounds(lastArmor, ax, ay, width, height), ArmorWindow(a, light, width, height);
            var envelope := Envelope(light.bounds, armor, hasArmor, validate, above);
            && envelope.Inside(width, height)
            && var window := NextWindow(c, width, height, true, envelope, misses, framesSinceFull);
            && window.Inside(width, height) && window.Contains(light.bounds)
            && (hasArmor ==> window.Contains(armor))
            && (!hasArmor && validate && !above.Empty() ==> window.Contains(above))
  {
    var armor, above := PredictBounds(lastArmor, ax, ay, width, height), ArmorWindow(a, light, width, height);
    var envelope := Envelope(light.bounds, armor, hasArmor, validate, above);
    if hasArmor {
      UniteIsLeast(light.bounds, armor, width, height);
    } else if validate && !above.Empty() {
      UniteIsLeast(light.bounds, above, width, height);
    }
    WindowCoversEnvelope(c, width, height, true, envelope, misses, framesSinceFull);
  }
}
