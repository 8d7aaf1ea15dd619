/** A followed target: whether a measurement can be it, and where it is expected next. */
module TargetMotion {
  import opened Bytes
  import opened Geometry
  import Windows = SearchWindows

  datatype Target = Target(
    x: real, y: real, radius: real, bounds: Rect, area: nat, contrast: real, clipped: bool)

  datatype Gates = Gates(
    minSizeRatio: real, minContrastRatio: real, associationK: real, associationMin: real, jumpK: real, jumpMin: real,
    alpha: real, horizonMs: nat)

  function Absolute(x: real): real { if x >= 0.0 then x else -x }

  function Larger(a: real, b: real): real { if a >= b then a else b }

  function ClampReal(x: real, lo: real, hi: real): real { if x < lo then lo else if x > hi then hi else x }

  function Reach(t: Target): real { Max(t.bounds.width, t.bounds.height) as real }

  predicate ValidGates(g: Gates) {
    && 0.0 < g.minSizeRatio <= 1.0 && 0.0 <= g.minContrastRatio <= 1.0
    && g.associationK > 0.0 && g.associationMin > 0.0 && g.jumpK > 0.0 && g.jumpMin > 0.0
    && 0.0 < g.alpha <= 1.0 && 0 < g.horizonMs <= 1000
  }

  // ---- association --------------------------------------------------------------------------------

  /** Neither side has grown or shrunk by more than the ratio. */
  predicate Similar(r: real, now: nat, before: nat)
    requires r > 0.0 && before > 0
  {
    r <= now as real / before as real <= 1.0 / r
  }

  function Tolerance(g: Gates, t: Target): real { Larger(g.associationMin, g.associationK * Reach(t)) }

  /** Is the match cost of `value`, expected where `last` was, finite? */
  predicate Associates(g: Gates, value: Target, last: Target)
    requires ValidGates(g)
  {
    && !value.bounds.Empty() && !last.bounds.Empty()
    && Similar(g.minSizeRatio, value.bounds.width, last.bounds.width)
    && Similar(g.minSizeRatio, value.bounds.height, last.bounds.height)
    && (var lo, hi := if value.contrast < last.contrast then value.contrast else last.contrast,
                      Larger(value.contrast, last.contrast);
        hi > 0.0 ==> lo >= g.minContrastRatio * hi)
    && (var tolerance := Tolerance(g, last);
        var dx, dy := value.x - last.x, value.y - last.y;
        dx * dx + dy * dy <= tolerance * tolerance)
  }

  /** Did a far target move too far in one frame? */
  predicate Jumps(g: Gates, value: Target, last: Target) {
    var jump := Larger(g.jumpMin, g.jumpK * Reach(last));
    Absolute(value.x - last.x) > jump || Absolute(value.y - last.y) > jump
  }

  // ---- motion -------------------------------------------------------------------------------------

  /** The last measurement, when it was taken, and a velocity in pixels a second once there is one. */
  datatype Motion = Motion(last: Option<Target>, received: int, vx: real, vy: real, moving: bool)

  const RESTING: Motion := Motion(None, 0, 0.0, 0.0, false)

  function Seconds(us: int): real { us as real * 0.000001 }

  function Way(velocity: real, seconds: real): real { velocity * seconds }

  /** The velocity after another measurement: the first one measured, then a weighted mean with the ones before. */
  function Blend(before: real, moving: bool, alpha: real, moved: real, seconds: real): real
    requires seconds > 0.0
  {
    before + (if moving then alpha else 1.0) * (moved / seconds - before)
  }

  function Observed(g: Gates, m: Motion, value: Target, now: int): Motion {
    if m.last.Some? && now > m.received then
      var dt := Seconds(now - m.received);
      Motion(Some(value), now, Blend(m.vx, m.moving, g.alpha, value.x - m.last.value.x, dt),
             Blend(m.vy, m.moving, g.alpha, value.y - m.last.value.y, dt), true)
    else m.(last := Some(value), received := now)
  }

  /** How far the target has gone by `now`: not back in time, not beyond the horizon, and not beyond reason. */
  function Shift(g: Gates, m: Motion, velocity: real, now: int): real
    requires m.last.Some?
  {
    var limit := 4.0 * Tolerance(g, m.last.value);
    ClampReal(Way(velocity, Seconds(Windows.ClampInt(now - m.received, 0, g.horizonMs * 1000))), -limit, limit)
  }

  /** Where the target is expected in a frame. */
  function Predicted(g: Gates, m: Motion, now: int, width: nat, height: nat): (t: Option<Target>)
    ensures t.Some? <==> m.last.Some? && width > 0 && height > 0
    ensures t.Some? ==> t.value.bounds.Inside(width, height)
  {
    if m.last.None? || width == 0 || height == 0 then None
    else
      var last := m.last.value;
      var dx, dy := Shift(g, m, m.vx, now), Shift(g, m, m.vy, now);
      Some(last.(x := ClampReal(last.x + dx, 0.0, (width - 1) as real),
                 y := ClampReal(last.y + dy, 0.0, (height - 1) as real),
                 bounds := Windows.PredictBounds(last.bounds, dx, dy, width, height)))
  }

  class TargetTracker {
    const g: Gates
    var last: Option<Target>
    var received: int
    var vx: real
    var vy: real
    var moving: bool

    function Now(): Motion
      reads this
    {
      Motion(last, received, vx, vy, moving)
    }

    constructor (gates: Gates)
      ensures g == gates && Now() == RESTING
    {
      g := gates;
      last, received, vx, vy, moving := None, 0, 0.0, 0.0, false;
    }

    method Observe(value: Target, now: int)
      modifies this
      ensures Now() == Observed(g, old(Now()), value, now) && last == Some(value)
    {
      if last.Some? && now > received {
        var dt := Seconds(now - received);
        vx := Blend(vx, moving, g.alpha, value.x - last.value.x, dt);
        vy := Blend(vy, moving, g.alpha, value.y - last.value.y, dt);
        moving := true;
      }
      last, received := Some(value), now;
    }

    method Reset()
      modifies this
      ensures Now() == RESTING
    {
      last, received, vx, vy, moving := None, 0, 0.0, 0.0, false;
    }

    method Predict(now: int, width: nat, height: nat) returns (t: Option<Target>)
      ensures t == Predicted(g, Now(), now, width, height)
    {
      t := Predicted(g, Now(), now, width, height);
    }
  }

  // ---- uniform motion -----------------------------------------------------------------------------

  datatype Sighting = Sighting(target: Target, at: int)

  /** A target that moves on a straight line at a constant speed, seen at rising times. */
  predicate Uniform(s: seq<Sighting>, vx: real, vy: real) {
    forall i :: 0 < i < |s| ==> Moves(s[i - 1], s[i], vx, vy)
  }

  predicate Moves(before: Sighting, next: Sighting, vx: real, vy: real) {
    && before.at < next.at
    && next.target.x == before.target.x + Way(vx, Seconds(next.at - before.at))
    && next.target.y == before.target.y + Way(vy, Seconds(next.at - before.at))
  }

  function ObservedAll(g: Gates, s: seq<Sighting>): Motion {
    if s == [] then RESTING
    else Observed(g, ObservedAll(g, s[..|s| - 1]), s[|s| - 1].target, s[|s| - 1].at)
  }

  /** The last sighting is remembered, with the true velocity once there are two. */
  predicate Remembers(m: Motion, last: Sighting, known: bool, vx: real, vy: real) {
    m.last == Some(last.target) && m.received == last.at && m.moving == known && (known ==> m.vx == vx && m.vy == vy)
  }

  /** Two sightings give the velocity, and further ones confirm it, whatever the weight of the mean is. */
  lemma {:induction false} VelocityIsFound(g: Gates, s: seq<Sighting>, vx: real, vy: real)
    requires s != [] && Uniform(s, vx, vy)
    ensures Remembers(ObservedAll(g, s), s[|s| - 1], |s| >= 2, vx, vy)
    decreases |s|
  {
    var n := |s| - 1;
    var front := s[..n];
    if n > 0 {
      UniformFront(s, vx, vy);
      VelocityIsFound(g, front, vx, vy);
      OneMoreSighting(g, ObservedAll(g, front), s[n - 1], n > 1, s[n], vx, vy);
    } else {
      assert front == [];
    }
  }

  lemma UniformFront(s: seq<Sighting>, vx: real, vy: real)
    requires |s| >= 2 && Uniform(s, vx, vy)
    ensures Uniform(s[..|s| - 1], vx, vy) && Moves(s[|s| - 2], s[|s| - 1], vx, vy)
  {
  }

  lemma OneMoreSighting(g: Gates, m: Motion, before: Sighting, known: bool, next: Sighting, vx: real, vy: real)
    requires Remembers(m, before, known, vx, vy) && Moves(before, next, vx, vy)
    ensures Remembers(Observed(g, m, next.target, next.at), next, true, vx, vy)
  {
    var dt := Seconds(next.at - before.at);
    BlendKeeps(m.vx, m.moving, g.alpha, Way(vx, dt), dt, vx);
    BlendKeeps(m.vy, m.moving, g.alpha, Way(vy, dt), dt, vy);
  }

  lemma BlendKeeps(before: real, moving: bool, alpha: real, moved: real, seconds: real, v: real)
    requires seconds > 0.0 && moved == Way(v, seconds) && (moving ==> before == v)
    ensures Blend(before, moving, alpha, moved, seconds) == v
  {
    assert moved / seconds == v;
  }

  /** From the second sighting on, a uniformly moving target is expected exactly where it will be, as long as that is
      inside the frame, within the horizon, and no farther off than four times the tolerance. */
  lemma UniformMotionIsPredicted(
      g: Gates, s: seq<Sighting>, vx: real, vy: real, now: int, width: nat, height: nat)
    requires |s| >= 2 && Uniform(s, vx, vy) && width > 0 && height > 0
    requires var before := s[|s| - 1];
             var limit, dt := 4.0 * Tolerance(g, before.target), Seconds(now - before.at);
             && before.at <= now <= before.at + g.horizonMs * 1000
             && -limit <= Way(vx, dt) <= limit && -limit <= Way(vy, dt) <= limit
             && 0.0 <= before.target.x + Way(vx, dt) <= (width - 1) as real
             && 0.0 <= before.target.y + Way(vy, dt) <= (height - 1) as real
    ensures var before, t := s[|s| - 1], Predicted(g, ObservedAll(g, s), now, width, height);
            && t.Some?
            && t.value.x == before.target.x + Way(vx, Seconds(now - before.at))
            && t.value.y == before.target.y + Way(vy, Seconds(now - before.at))
  {
    VelocityIsFound(g, s, vx, vy);
    var m := ObservedAll(g, s);
    ShiftIsWay(g, m, vx, now);
    ShiftIsWay(g, m, vy, now);
  }

  lemma ShiftIsWay(g: Gates, m: Motion, velocity: real, now: int)
    requires m.last.Some? && m.received <= now <= m.received + g.horizonMs * 1000
    requires var limit := 4.0 * Tolerance(g, m.last.value);
             -limit <= Way(velocity, Seconds(now - m.received)) <= limit
    ensures Shift(g, m, velocity, now) == Way(velocity, Seconds(now - m.received))
  {
  }
}
