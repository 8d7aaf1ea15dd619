/** The inertial estimator over the reals: what it accepts, when it integrates, and how far its velocity and
    rotation can have gone since they were last set to zero. */
module InertialEstimator {
  import opened Rotations

  const GRAVITY: real := 9.80665
  const MAX_GENERATION: nat := 0xFFFF_FFFF_FFFF_FFFF
  const NANO: real := 0.000000001

  /** `finite` tells whether every measured value is a number. */
  datatype Sample = Sample(timestamp: nat, acceleration: Vec, rate: Vec, flags: nat, finite: bool)

  datatype Config = Config(
    maxInterval: nat, maxAcceleration: real, maxRate: real, maxAccelerationStep: real, maxRateStep: real,
    seedTolerance: real, seedMaxRate: real)

  datatype Event =
    | SampleFlagged | NonFinite | AccelerationThreshold | RateThreshold | AccelerationStep | RateStep
    | NonMonotonic | Gap | NotSeeded | NotStationary | InvalidReference

  function Norm(m: Maths, a: Vec): real { m.sqrt(Dot(a, a)) }

  /** What is wrong with a sample on its own, and next to the one before it. */
  function Assess(m: Maths, c: Config, s: Sample, hasPrevious: bool, previous: Sample): set<Event> {
    (if s.flags != 0 then {SampleFlagged} else {})
    + (if !s.finite then {NonFinite} else {})
    + (if s.finite && Norm(m, s.acceleration) > c.maxAcceleration then {AccelerationThreshold} else {})
    + (if s.finite && Norm(m, s.rate) > c.maxRate then {RateThreshold} else {})
    + (if hasPrevious && s.finite && Norm(m, Subtract(s.acceleration, previous.acceleration)) > c.maxAccelerationStep
       then {AccelerationStep} else {})
    + (if hasPrevious && s.finite && Norm(m, Subtract(s.rate, previous.rate)) > c.maxRateStep then {RateStep} else {})
  }

  /** A sample whose lengths are within the configured bounds. */
  predicate Bounded(c: Config, s: Sample) {
    Within(s.acceleration, c.maxAcceleration) && Within(s.rate, c.maxRate)
  }

  lemma AcceptedIsBounded(m: Maths, c: Config, s: Sample, hasPrevious: bool, previous: Sample)
    requires Lawful(m) && Assess(m, c, s, hasPrevious, previous) == {}
    ensures Bounded(c, s) && s.flags == 0 && s.finite
  {
    var e := Assess(m, c, s, hasPrevious, previous);
    assert SampleFlagged !in e && NonFinite !in e && AccelerationThreshold !in e && RateThreshold !in e;
    NormWithin(m, s.acceleration, c.maxAcceleration);
    NormWithin(m, s.rate, c.maxRate);
  }

  // ---- one integration step -----------------------------------------------------------------------

  /** What is integrated. */
  datatype Motion = Motion(attitude: Quat, velocity: Vec, rotation: Vec, linear: Vec)

  function MeanRate(a: Sample, b: Sample): Vec { Scale(Add(a.rate, b.rate), 0.5) }

  function LinearAcceleration(attitude: Quat, gravity: Vec, s: Sample): Vec {
    Subtract(Rotate(attitude, s.acceleration), gravity)
  }

  /** The time between two samples in seconds. */
  function Between(before: Sample, s: Sample): real { (s.timestamp - before.timestamp) as real * NANO }

  /** Midpoint rule for the rotation, trapezoidal rule for the velocity. */
  function Integrated(m: Maths, k: Motion, gravity: Vec, before: Sample, s: Sample, dt: real): Motion {
    var omega := MeanRate(before, s);
    var midpoint := Multiply(k.attitude, RotationDelta(m, omega, dt * 0.5));
    var attitude := Normalize(m, Multiply(k.attitude, RotationDelta(m, omega, dt)));
    var linear := LinearAcceleration(attitude, gravity, s);
    Motion(attitude, Add(k.velocity, Scale(Scale(Add(k.linear, linear), 0.5), dt)),
           Add(k.rotation, Scale(Rotate(midpoint, omega), dt)), linear)
  }

  /** How strong the gravity reference can be, and any acceleration without it. */
  function GravityLimit(c: Config): real { GRAVITY + c.seedTolerance }

  function LinearLimit(c: Config): real { c.maxAcceleration + GravityLimit(c) }

  /** How far something bounded by `limit` gets in the given time. */
  function Reach(limit: real, time: real): real { limit * time }

  /** Unit attitude; speed and turn bounded by the time integrated so far. */
  ghost predicate Sound(c: Config, k: Motion, gravity: Vec, elapsed: real) {
    && Unit(k.attitude) && elapsed >= 0.0
    && Within(gravity, GravityLimit(c)) && Within(k.linear, LinearLimit(c))
    && Within(k.velocity, Reach(LinearLimit(c), elapsed)) && Within(k.rotation, Reach(c.maxRate, elapsed))
  }

  lemma MeanWithin(a: Vec, b: Vec, r: real)
    requires Within(a, r) && Within(b, r)
    ensures Within(Scale(Add(a, b), 0.5), r)
  {
    AddWithin(a, b, r, r);
    ScaleWithin(Add(a, b), r + r, 0.5);
    assert (r + r) * 0.5 == r;
  }

  lemma ProductIsUnit(a: Quat, b: Quat)
    requires Unit(a) && Unit(b)
    ensures Unit(Multiply(a, b))
  {
    NormOfProduct(a, b);
  }

  lemma LinearWithin(q: Quat, gravity: Vec, s: Sample, a: real, g: real)
    requires Unit(q) && Within(s.acceleration, a) && Within(gravity, g)
    ensures Within(LinearAcceleration(q, gravity, s), a + g)
  {
    RotateWithin(q, s.acceleration, a);
    SubtractWithin(Rotate(q, s.acceleration), gravity, a, g);
  }

  /** One more step of length `dt` keeps the bounds, with `dt` more time. */
  lemma Accumulate(total: Vec, step: Vec, limit: real, elapsed: real, dt: real)
    requires Within(total, Reach(limit, elapsed)) && Within(step, limit) && dt >= 0.0
    ensures Within(Add(total, Scale(step, dt)), Reach(limit, elapsed + dt))
  {
    ScaleWithin(step, limit, dt);
    AddWithin(total, Scale(step, dt), Reach(limit, elapsed), Reach(limit, dt));
    assert Reach(limit, elapsed) + Reach(limit, dt) == Reach(limit, elapsed + dt);
  }

  lemma AttitudeStays(m: Maths, k: Motion, gravity: Vec, before: Sample, s: Sample, dt: real)
    requires Lawful(m) && Unit(k.attitude)
    ensures Unit(Integrated(m, k, gravity, before, s, dt).attitude)
    ensures Unit(Multiply(k.attitude, RotationDelta(m, MeanRate(before, s), dt * 0.5)))
  {
    var omega := MeanRate(before, s);
    DeltaIsUnit(m, omega, dt * 0.5);
    DeltaIsUnit(m, omega, dt);
    ProductIsUnit(k.attitude, RotationDelta(m, omega, dt * 0.5));
    ProductIsUnit(k.attitude, RotationDelta(m, omega, dt));
    NormalizeMakesUnit(m, Multiply(k.attitude, RotationDelta(m, omega, dt)));
  }

  lemma IntegrationIsSound(
      m: Maths, c: Config, k: Motion, gravity: Vec, before: Sample, s: Sample, elapsed: real, dt: real)
    requires Lawful(m) && Sound(c, k, gravity, elapsed) && Bounded(c, before) && Bounded(c, s) && dt >= 0.0
    ensures Sound(c, Integrated(m, k, gravity, before, s, dt), gravity, elapsed + dt)
  {
    var next, omega := Integrated(m, k, gravity, before, s, dt), MeanRate(before, s);
    var midpoint := Multiply(k.attitude, RotationDelta(m, omega, dt * 0.5));
    AttitudeStays(m, k, gravity, before, s, dt);
    MeanWithin(before.rate, s.rate, c.maxRate);
    RotateWithin(midpoint, omega, c.maxRate);
    Accumulate(k.rotation, Rotate(midpoint, omega), c.maxRate, elapsed, dt);
    LinearWithin(next.attitude, gravity, s, c.maxAcceleration, GravityLimit(c));
    MeanWithin(k.linear, next.linear, LinearLimit(c));
    Accumulate(k.velocity, Scale(Add(k.linear, next.linear), 0.5), LinearLimit(c), elapsed, dt);
  }

  // ---- the estimator ------------------------------------------------------------------------------

  const AT_REST: Motion := Motion(IDENTITY, ZERO, ZERO, ZERO)

  class Estimator {
    const m: Maths
    const c: Config
    var motion: Motion
    var gravity: Vec
    var previous: Sample
    var generation: nat
    var hasSample: bool
    var hasReference: bool
    // Integrated time since the velocity was last set to zero, and how often it was.
    ghost var elapsed: real
    ghost var renewals: nat

    ghost predicate Valid()
      reads this
    {
      && Lawful(m) && Unit(motion.attitude) && elapsed >= 0.0
      && generation == (if renewals < MAX_GENERATION then renewals else MAX_GENERATION)
      && (hasSample ==> Bounded(c, previous))
      && (if hasReference then hasSample && Sound(c, motion, gravity, elapsed) else motion == AT_REST && elapsed == 0.0)
    }

    constructor (maths: Maths, config: Config)
      requires Lawful(maths)
      ensures Valid() && m == maths && c == config && !hasReference && !hasSample && generation == 0
    {
      m, c := maths, config;
      motion, gravity, previous := AT_REST, ZERO, Sample(0, ZERO, ZERO, 0, true);
      generation, hasSample, hasReference, elapsed, renewals := 0, false, false, 0.0, 0;
    }

    /** A sample is accepted exactly when nothing is wrong with it and it is newer than the one before; a rejected
        one changes nothing. Only an accepted sample close enough to its predecessor is integrated over. */
    method Update(s: Sample) returns (accepted: bool, integrated: bool, events: set<Event>)
      requires Valid()
      modifies this`motion, this`previous, this`hasSample, this`elapsed
      ensures Valid()
      ensures accepted <==>
                && Assess(m, c, s, old(hasSample), old(previous)) == {}
                && (old(hasSample) ==> s.timestamp > old(previous).timestamp)
      ensures accepted ==> hasSample && previous == s
      ensures !accepted ==>
                && motion == old(motion) && previous == old(previous) && hasSample == old(hasSample)
                && elapsed == old(elapsed)
      ensures integrated <==>
                accepted && hasReference && s.timestamp - old(previous).timestamp <= c.maxInterval
      ensures integrated ==>
                && elapsed == old(elapsed) + Between(old(previous), s)
                && motion == Integrated(m, old(motion), gravity, old(previous), s, Between(old(previous), s))
      ensures !integrated ==> motion == old(motion).(linear := motion.linear) && elapsed == old(elapsed)
    {
      events := Screen(s);
      accepted, integrated := events == {}, false;
      if accepted {
        integrated, events := Follow(s);
        previous, hasSample := s, true;
      }
    }

    /** What is wrong with a sample, if anything. */
    method Screen(s: Sample) returns (events: set<Event>)
      requires Lawful(m)
      ensures events == {} <==>
                && Assess(m, c, s, hasSample, previous) == {}
                && (hasSample ==> s.timestamp > previous.timestamp)
      ensures events == {} ==> Bounded(c, s)
    {
      events := Assess(m, c, s, hasSample, previous);
      if events == {} {
        AcceptedIsBounded(m, c, s, hasSample, previous);
        if hasSample && s.timestamp <= previous.timestamp {
          events := {NonMonotonic};
        }
      }
    }

    /** What an accepted sample adds to the motion. */
    method Follow(s: Sample) returns (integrated: bool, events: set<Event>)
      requires Valid() && Bounded(c, s) && (hasSample ==> s.timestamp > previous.timestamp)
      modifies this`motion, this`elapsed
      ensures Valid()
      ensures integrated <==> hasReference && s.timestamp - previous.timestamp <= c.maxInterval
      ensures integrated ==>
                && elapsed == old(elapsed) + Between(old(previous), s)
                && motion == Integrated(m, old(motion), gravity, old(previous), s, Between(old(previous), s))
      ensures !integrated ==> motion == old(motion).(linear := motion.linear) && elapsed == old(elapsed)
      ensures !hasReference ==> motion == old(motion)
    {
      if !hasReference {
        return false, {NotSeeded};
      }
      if s.timestamp - previous.timestamp > c.maxInterval {
        Rebase(s);
        return false, {Gap};
      }
      Advance(s, Between(previous, s));
      integrated, events := true, {};
    }

    method Rebase(s: Sample)
      requires Valid() && hasReference && Bounded(c, s)
      modifies this`motion
      ensures Valid() && motion == old(motion).(linear := LinearAcceleration(motion.attitude, gravity, s))
    {
      LinearWithin(motion.attitude, gravity, s, c.maxAcceleration, GravityLimit(c));
      motion := motion.(linear := LinearAcceleration(motion.attitude, gravity, s));
    }

    method Advance(s: Sample, dt: real)
      requires Valid() && hasReference && Bounded(c, s) && dt >= 0.0
      modifies this`motion, this`elapsed
      ensures Valid() && motion == Integrated(m, old(motion), gravity, previous, s, dt) && elapsed == old(elapsed) + dt
    {
      IntegrationIsSound(m, c, motion, gravity, previous, s, elapsed, dt);
      motion := Integrated(m, motion, gravity, previous, s, dt);
      elapsed := elapsed + dt;
    }

    /** Takes a stationary sample as the reference: the given attitude, at rest, from zero. Anything else changes
        nothing. */
    method Seed(s: Sample, reference: Quat) returns (accepted: bool, events: set<Event>)
      requires Valid()
      modifies this
      ensures Valid()
      ensures accepted <==>
                && NormSquared(reference) >= TINY && Assess(m, c, s, false, s) == {} && Stationary(s)
                && (old(hasSample) ==> s.timestamp >= old(previous).timestamp)
      ensures accepted ==>
                && hasReference && hasSample && previous == s && elapsed == 0.0
                && motion == AT_REST.(attitude := Normalize(m, reference))
                && gravity == Rotate(motion.attitude, s.acceleration)
                && renewals == old(renewals) + 1
      ensures !accepted ==>
                && motion == old(motion) && gravity == old(gravity) && previous == old(previous)
                && elapsed == old(elapsed)
                && hasSample == old(hasSample) && hasReference == old(hasReference)
                && generation == old(generation) && renewals == old(renewals)
    {
      events := Assess(m, c, s, false, s);
      if NormSquared(reference) < TINY {
        return false, events + {InvalidReference};
      }
      if events != {} || !Stationary(s) {
        return false, events + {NotStationary};
      }
      if hasSample && s.timestamp < previous.timestamp {
        return false, {NonMonotonic};
      }
      AcceptedIsBounded(m, c, s, false, s);
      StartFrom(Normalize(m, reference), s);
      accepted := true;
    }

    predicate Stationary(s: Sample) {
      var strength := Norm(m, s.acceleration);
      && -c.seedTolerance <= strength - GRAVITY <= c.seedTolerance
      && Norm(m, s.rate) <= c.seedMaxRate
    }

    /** Sets everything up around a known attitude. */
    method StartFrom(attitude: Quat, s: Sample)
      requires Valid() && Unit(attitude) && Bounded(c, s) && Stationary(s)
      modifies this
      ensures Valid() && hasReference && hasSample && previous == s && elapsed == 0.0
      ensures motion == AT_REST.(attitude := attitude) && gravity == Rotate(attitude, s.acceleration)
      ensures renewals == old(renewals) + 1
    {
      NormWithin(m, s.acceleration, GravityLimit(c));
      RotateWithin(attitude, s.acceleration, GravityLimit(c));
      motion, gravity := AT_REST.(attitude := attitude), Rotate(attitude, s.acceleration);
      previous, hasSample, hasReference, elapsed := s, true, true, 0.0;
      Renew();
    }

    method Renew()
      modifies this`generation, this`renewals
      requires generation == (if renewals < MAX_GENERATION then renewals else MAX_GENERATION)
      ensures generation == (if renewals < MAX_GENERATION then renewals else MAX_GENERATION)
      ensures renewals == old(renewals) + 1
    {
      if generation != MAX_GENERATION {
        generation := generation + 1;
      }
      renewals := renewals + 1;
    }

    method Reset()
      requires Valid()
      modifies this
      ensures Valid() && !hasSample && !hasReference && motion == AT_REST && renewals == old(renewals) + 1
    {
      motion, gravity, elapsed := AT_REST, ZERO, 0.0;
      hasSample, hasReference := false, false;
      Renew();
    }
  }
}
