/** From a detection to four servo pulses, over the reals, and the watchdog task that alone writes them to the
    device: it goes back to the initial pulses when observations stop, and stops the device before it ends. */
module ServoControl {
  import opened Bytes

  const CHANNELS: nat := 4
  const PERIOD_NS: nat := 1000000000 / 333
  const LARGEST: real := 340282346638528859811704183484516925440.0

  datatype Channel = Channel(initial: real, low: real, high: real, horizontal: real, vertical: real)

  /** `finite` tells whether both coordinates are numbers. */
  datatype Point = Point(x: real, y: real, finite: bool)

  datatype Mapped = InvalidConfig | InvalidCoordinate | InvalidIncrement | Mapped(values: seq<real>)

  predicate ValidConfig(channels: seq<Channel>) {
    && |channels| == CHANNELS
    && forall i :: 0 <= i < CHANNELS ==> 0.0 < channels[i].low <= channels[i].initial <= channels[i].high
  }

  function Clamp(x: real, lo: real, hi: real): real {
    if x < lo then lo else if x > hi then hi else x
  }

  predicate TooLarge(x: real) { x > LARGEST || x < -LARGEST }

  /** The armor if there is one, else the light. */
  function Aimed(armor: Option<Point>, light: Option<Point>): Option<Point> {
    if armor.Some? then armor else light
  }

  /** How far the pulse of each channel moves for one axis; x grows to the right, y downwards. */
  method Increment(channels: seq<Channel>, target: Option<Point>, preset: Point, horizontal: bool) returns (r: Mapped)
    ensures r == IncrementOf(channels, target, preset, horizontal)
  {
    if !ValidConfig(channels) {
      return InvalidConfig;
    }
    if !preset.finite {
      return InvalidCoordinate;
    }
    if target.None? {
      return Mapped([0.0, 0.0, 0.0, 0.0]);
    }
    if !target.value.finite {
      return InvalidCoordinate;
    }
    var error := ErrorOf(target.value, preset, horizontal);
    var values: seq<real> := [];
    while |values| < CHANNELS
      invariant |values| <= CHANNELS
      invariant forall i :: 0 <= i < |values| ==> !TooLarge(Delta(channels[i], error, horizontal))
      invariant forall i :: 0 <= i < |values| ==> values[i] == Delta(channels[i], error, horizontal)
    {
      var delta := Delta(channels[|values|], error, horizontal);
      if TooLarge(delta) {
        return InvalidIncrement;
      }
      values := values + [delta];
    }
    assert values == Deltas(channels, error, horizontal);
    r := Mapped(values);
  }

  function ErrorOf(target: Point, preset: Point, horizontal: bool): real {
    if horizontal then target.x - preset.x else preset.y - target.y
  }

  function Delta(c: Channel, error: real, horizontal: bool): real {
    error * (if horizontal then c.horizontal else c.vertical)
  }

  function Deltas(channels: seq<Channel>, error: real, horizontal: bool): (d: seq<real>)
    ensures |d| == |channels|
    ensures forall i :: 0 <= i < |channels| ==> d[i] == Delta(channels[i], error, horizontal)
  {
    seq(|channels|, i requires 0 <= i < |channels| => Delta(channels[i], error, horizontal))
  }

  function IncrementOf(channels: seq<Channel>, target: Option<Point>, preset: Point, horizontal: bool): (r: Mapped)
    ensures r.Mapped? ==> |r.values| == CHANNELS
  {
    if !ValidConfig(channels) then InvalidConfig
    else if !preset.finite then InvalidCoordinate
    else if target.None? then Mapped([0.0, 0.0, 0.0, 0.0])
    else if !target.value.finite then InvalidCoordinate
    else
      var error := ErrorOf(target.value, preset, horizontal);
      if exists i :: 0 <= i < CHANNELS && TooLarge(Delta(channels[i], error, horizontal)) then InvalidIncrement
      else Mapped(Deltas(channels, error, horizontal))
  }

  function Pulse(c: Channel, h: real, v: real): real { Clamp(c.initial + h + v, c.low, c.high) }

  /** A target on the aim leaves every channel at its initial pulse. */
  lemma OnAimIsNeutral(channels: seq<Channel>, aim: Point, horizontal: bool)
    requires ValidConfig(channels) && aim.finite
    ensures IncrementOf(channels, Some(aim), aim, horizontal) == Mapped([0.0, 0.0, 0.0, 0.0])
    ensures forall i :: 0 <= i < CHANNELS ==> Pulse(channels[i], 0.0, 0.0) == channels[i].initial
  {
    forall i | 0 <= i < CHANNELS
      ensures Delta(channels[i], 0.0, horizontal) == 0.0
    {
    }
    assert Deltas(channels, 0.0, horizontal) == [0.0, 0.0, 0.0, 0.0];
  }

  /** A pulse follows the sign of its channel's gain: the further the target, the further it moves, up to the ends
      of the channel's range. */
  lemma PulseFollowsError(c: Channel, near: real, far: real, horizontal: bool, other: real)
    requires near <= far && c.low <= c.high
    ensures var gain := if horizontal then c.horizontal else c.vertical;
            var p, q := Pulse(c, Delta(c, near, horizontal), other), Pulse(c, Delta(c, far, horizontal), other);
            (gain >= 0.0 ==> c.low <= p <= q <= c.high) && (gain <= 0.0 ==> c.low <= q <= p <= c.high)
  {
    var less, more := Delta(c, near, horizontal), Delta(c, far, horizontal);
    DeltaFollowsError(c, near, far, horizontal);
    if less <= more {
      ClampMonotone(c.initial + less + other, c.initial + more + other, c.low, c.high);
    }
    if more <= less {
      ClampMonotone(c.initial + more + other, c.initial + less + other, c.low, c.high);
    }
  }

  lemma DeltaFollowsError(c: Channel, near: real, far: real, horizontal: bool)
    requires near <= far
    ensures var gain := if horizontal then c.horizontal else c.vertical;
            && (gain >= 0.0 ==> Delta(c, near, horizontal) <= Delta(c, far, horizontal))
            && (gain <= 0.0 ==> Delta(c, far, horizontal) <= Delta(c, near, horizontal))
  {
    Longer(near, far, if horizontal then c.horizontal else c.vertical);
  }

  lemma Longer(near: real, far: real, gain: real)
    requires near <= far
    ensures (gain >= 0.0 ==> near * gain <= far * gain) && (gain <= 0.0 ==> far * gain <= near * gain)
  {
    var step := far - near;
    assert (gain >= 0.0 ==> step * gain >= 0.0) && (gain <= 0.0 ==> step * gain <= 0.0);
    assert far * gain == near * gain + step * gain;
  }

  lemma ClampMonotone(x: real, y: real, lo: real, hi: real)
    requires x <= y && lo <= hi
    ensures lo <= Clamp(x, lo, hi) <= Clamp(y, lo, hi) <= hi
  {
  }

  /** Both axes are added first, then each channel is clamped to its own range. */
  method Pulses(channels: seq<Channel>, h: seq<real>, v: seq<real>) returns (r: Mapped)
    requires |h| == |v| == CHANNELS
    ensures r.Mapped? <==> ValidConfig(channels)
    ensures r.Mapped? ==>
              && |r.values| == CHANNELS
              && forall i :: 0 <= i < CHANNELS ==>
                   r.values[i] == Pulse(channels[i], h[i], v[i]) && channels[i].low <= r.values[i] <= channels[i].high
  {
    if !ValidConfig(channels) {
      return InvalidConfig;
    }
    var values: seq<real> := [];
    while |values| < CHANNELS
      invariant |values| <= CHANNELS
      invariant forall i :: 0 <= i < |values| ==> values[i] == Pulse(channels[i], h[i], v[i])
    {
      var i := |values|;
      values := values + [Pulse(channels[i], h[i], v[i])];
    }
    r := Mapped(values);
  }

  /** What the device accepts: every pulse at least a nanosecond and within one period. */
  predicate ValidPulses(pulses: seq<real>) {
    |pulses| == CHANNELS && forall i :: 0 <= i < CHANNELS ==> 1.0 <= pulses[i] * 1000.0 <= PERIOD_NS as real
  }

  // ---- the device ---------------------------------------------------------------------------------

  /** How a start of the device goes: it does not come up at all, it fails on the way and is stopped again, which
      may fail in turn, or it comes up. */
  datatype Starting = Refused | Halfway(undone: bool) | Up

  /** Four channels. Any failure on the way stops the device at once; a stop tries every channel, counts as done even
      if a channel could not be disabled, and asking again then finds nothing to do. */
  class Pwm {
    var initialized: bool
    // May a channel still be driven?
    var live: bool
    var output: seq<real>
    // How often the device was asked to stop from outside.
    ghost var stops: nat

    constructor ()
      ensures !initialized && !live
    {
      initialized, live, output, stops := false, false, [], 0;
    }

    method Start(initial: seq<real>, how: Starting) returns (ok: bool)
      modifies this`initialized, this`live, this`output
      ensures ok <==> !old(initialized) && ValidPulses(initial) && how.Up?
      ensures ok ==> initialized && live && output == initial
      ensures old(initialized) ==> unchanged(this)
      ensures !ok && !old(initialized) ==>
                !initialized && live == if ValidPulses(initial) && how.Halfway? then !how.undone else old(live)
    {
      if initialized || !ValidPulses(initial) || how.Refused? {
        return false;
      }
      initialized, live := true, true;
      if how.Halfway? {
        var stopped := Disable(how.undone);
        return false;
      }
      output := initial;
      ok := true;
    }

    /** `works` tells whether every channel takes its pulse; `undone`, whether the stop after a failure works. */
    method Write(pulses: seq<real>, works: bool, undone: bool) returns (ok: bool)
      modifies this`initialized, this`live, this`output
      ensures ok <==> old(initialized) && ValidPulses(pulses) && works
      ensures ok ==> initialized && live == old(live) && output == pulses
      ensures !ok ==> !initialized && output == old(output) && live == if old(initialized) then !undone else old(live)
    {
      if !initialized {
        return false;
      }
      if !ValidPulses(pulses) || !works {
        var stopped := Disable(undone);
        return false;
      }
      output := pulses;
      ok := true;
    }

    method Stop(works: bool) returns (ok: bool)
      modifies this`initialized, this`live, this`stops
      ensures !initialized && stops == old(stops) + 1
      ensures if old(initialized) then ok == works && live == !works else ok && live == old(live)
    {
      stops := stops + 1;
      ok := Disable(works);
    }

    method Disable(works: bool) returns (ok: bool)
      modifies this`initialized, this`live
      ensures !initialized
      ensures if old(initialized) then ok == works && live == !works else ok && live == old(live)
    {
      if !initialized {
        return true;
      }
      initialized, live := false, !works;
      ok := works;
    }
  }

  // ---- the loop -----------------------------------------------------------------------------------

  datatype Publication = Publication(pulses: seq<real>, target: bool, at: int)

  /** What a publication asks for at a later time. */
  function Wanted(p: Publication, initial: seq<real>, timeout: nat, now: int): seq<real> {
    if p.target && now - p.at < timeout then p.pulses else initial
  }

  /** Where the loop is: between passes, about to write what it decided on, or finished. */
  datatype Task = Idle | Looping | Writing(command: seq<real>, neutral: bool) | Leaving | Finished

  /** The first failure a session has met. */
  datatype Failure = Nothing | ThreadFailed | WriteFailed | StopFailed

  class Session {
    const device: Pwm
    var initial: seq<real>
    var desired: seq<real>
    var hasTarget: bool
    var observed: int
    var timeout: nat
    var stopping: bool
    var task: Task
    var applied: seq<real>
    var neutral: bool
    var running: bool
    var timeouts: nat
    var error: Failure
    // The latest publication, and the last time the loop looked at the clock.
    ghost var latest: Publication
    ghost var looked: int

    ghost predicate Valid()
      reads this, device
    {
      && (task.Idle? || task.Finished? ==> !running && !device.initialized)
      && (task.Looping? || task.Writing? ==>
            && running && device.initialized && device.output == applied && timeout > 0 && error == Nothing
            && ValidPulses(initial) && ValidPulses(desired) && ValidPulses(latest.pulses)
            && Tracks())
      && (task.Writing? ==> ValidPulses(task.command))
      && (task.Leaving? ==> running && (device.initialized || error != Nothing))
      && (task.Finished? && device.live ==> error != Nothing)
    }

    /** The watchdog's state says what the latest publication asks for, from the last look at the clock on. */
    ghost predicate Tracks()
      reads this
    {
      if hasTarget then latest == Publication(desired, true, observed)
      else latest.target ==> looked - latest.at >= timeout
    }

    constructor (d: Pwm)
      requires !d.initialized
      ensures Valid() && device == d && task.Idle?
    {
      device := d;
      initial, desired, applied := [], [], [];
      hasTarget, observed, timeout, stopping, task := false, 0, 0, false, Idle;
      neutral, running, timeouts := true, false, 0;
      error, latest, looked := Nothing, Publication([], false, 0), 0;
    }

    /** The device goes to its initial position and the loop starts. If the thread cannot be created the device is
        asked to stop, and whether that works is not looked at. A session whose loop has not been joined refuses, and
        is not disturbed. */
    method Start(pulses: seq<real>, timeoutMs: nat, how: Starting, threadWorks: bool, stopWorks: bool, now: int)
      returns (ok: bool)
      requires Valid()
      modifies this, device
      ensures Valid()
      ensures ok <==> old(task).Idle? && timeoutMs > 0 && ValidPulses(pulses) && how.Up? && threadWorks
      ensures ok ==> task.Looping? && initial == applied == pulses && timeout == timeoutMs && !hasTarget && !stopping
      ensures !ok && old(task).Idle? ==>
                task.Idle? && device.live == LeftLive(old(device.live), pulses, timeoutMs, how, stopWorks)
      ensures !old(task).Idle? ==> unchanged(this) && unchanged(device)
    {
      if !task.Idle? || timeoutMs == 0 || !ValidPulses(pulses) {
        return false;
      }
      ok := device.Start(pulses, how);
      if !ok {
        return;
      }
      if !threadWorks {
        var stopped := device.Stop(stopWorks);
        error := ThreadFailed;
        return false;
      }
      Begin(pulses, timeoutMs, now);
    }

    method Begin(pulses: seq<real>, timeoutMs: nat, now: int)
      requires timeoutMs > 0 && ValidPulses(pulses) && device.initialized && device.output == pulses
      modifies this
      ensures Valid() && task.Looping? && initial == applied == pulses && timeout == timeoutMs && !hasTarget
      ensures !stopping
    {
      Preset(pulses, timeoutMs, now);
      applied, stopping, task, neutral, running, timeouts, error := pulses, false, Looping, true, true, 0, Nothing;
    }

    /** The watchdog starts with nothing published. */
    method Preset(pulses: seq<real>, timeoutMs: nat, now: int)
      modifies this`initial, this`desired, this`timeout, this`hasTarget, this`latest, this`looked
      ensures initial == desired == pulses && timeout == timeoutMs && !hasTarget && Tracks()
      ensures latest == Publication(pulses, false, now)
    {
      initial, desired, timeout, hasTarget := pulses, pulses, timeoutMs, false;
      latest, looked := Publication(pulses, false, now), now;
    }

    /** Takes over new pulses, unless the device could not produce them. */
    method Publish(pulses: seq<real>, target: bool, now: int) returns (ok: bool)
      requires Valid()
      modifies this`desired, this`hasTarget, this`observed, this`latest
      ensures Valid() && ok == ValidPulses(pulses)
      ensures latest == if ok then Publication(pulses, target, now) else old(latest)
      ensures !ok ==> desired == old(desired) && hasTarget == old(hasTarget) && observed == old(observed)
    {
      ok := ValidPulses(pulses);
      if ok {
        desired, hasTarget, observed := pulses, target, now;
        latest := Publication(pulses, target, now);
      }
    }

    /** The start of a pass: decides, under the lock, what the channels should be. */
    method Decide(now: int)
      requires Valid() && task.Looping? && looked <= now
      modifies this`hasTarget, this`timeouts, this`task, this`looked
      ensures Valid() && looked == now
      ensures stopping ==> task.Leaving?
      ensures !stopping ==>
                var command := Wanted(latest, initial, timeout, now);
                task.Writing? && task.command == command && (task.neutral ==> command == initial)
    {
      looked := now;
      if stopping {
        task := Leaving;
        return;
      }
      if hasTarget && now - observed >= timeout {
        hasTarget, timeouts := false, timeouts + 1;
      }
      task := Writing(if hasTarget then desired else initial, !hasTarget);
    }

    /** The rest of a pass: writes only what changed. Without an error the channels are then what was decided; an
        error is recorded, the device has tried to stop, and the loop leaves and writes no more. */
    method Apply(works: bool, undone: bool)
      requires Valid() && task.Writing?
      modifies this`task, this`applied, this`neutral, this`error, device`initialized, device`live, device`output
      ensures Valid()
      ensures task.Looping? || task.Leaving?
      ensures task.Looping? <==> works || old(task).command == old(applied)
      ensures task.Looping? ==> device.output == applied == old(task).command && neutral == old(task).neutral
      ensures task.Leaving? ==> error == WriteFailed && !device.initialized && device.live == !undone
      ensures task.Leaving? ==> device.output == old(device.output)
    {
      var command := task.command;
      if command != applied {
        var ok := device.Write(command, works, undone);
        if !ok {
          task, error := Leaving, WriteFailed;
          return;
        }
        applied := command;
      }
      neutral := task.neutral;
      task := Looping;
    }

    /** The device is asked to stop before the loop is over, whatever happened, and nothing is written after that. If
        it was still up, it is off exactly if this stop works; after a failed write it has already tried, and this
        request finds nothing to do. The write's error stays; otherwise a failed stop is recorded. */
    method Leave(works: bool)
      requires Valid() && task.Leaving?
      modifies this`task, this`running, this`error, device`initialized, device`live, device`stops
      ensures Valid() && task.Finished? && !running && !device.initialized && device.stops == old(device.stops) + 1
      ensures device.live == if old(device.initialized) then !works else old(device.live)
      ensures error == if old(error) == Nothing && !works then StopFailed else old(error)
    {
      var stopped := device.Stop(works);
      if !stopped && error == Nothing {
        error := StopFailed;
      }
      running, task := false, Finished;
    }

    /** The first half of stopping; nothing to do without a loop. */
    method RequestStop()
      requires Valid()
      modifies this`stopping
      ensures Valid() && stopping == (old(stopping) || !task.Idle?)
    {
      if !task.Idle? {
        stopping := true;
      }
    }

    /** The second half: once the loop is over, the session can be started again. */
    method Join()
      requires Valid() && task.Finished?
      modifies this`task
      ensures Valid() && task.Idle? && !device.initialized && (device.live ==> error != Nothing)
    {
      task := Idle;
    }
  }

  /** The device can produce every pulse of every channel's range. */
  predicate Covered(channels: seq<Channel>)
    requires |channels| == CHANNELS
  {
    forall i :: 0 <= i < CHANNELS ==> 1.0 <= channels[i].low * 1000.0 && channels[i].high * 1000.0 <= PERIOD_NS as real
  }

  /** May a channel still be driven after a start that failed? */
  function LeftLive(before: bool, pulses: seq<real>, timeoutMs: nat, how: Starting, stopWorks: bool): bool {
    if timeoutMs == 0 || !ValidPulses(pulses) || how.Refused? then before
    else if how.Halfway? then !how.undone else !stopWorks
  }

  // ---- the consumer of detections -----------------------------------------------------------------

  function Aim(wanted: Option<Point>, width: nat, height: nat): Point {
    if wanted.Some? then wanted.value else Point(width as real * 0.5, height as real * 0.5, true)
  }

  predicate InImage(p: Point, width: nat, height: nat) {
    p.finite && 0.0 <= p.x < width as real && 0.0 <= p.y < height as real
  }

  class VisualServo {
    const channels: seq<Channel>
    const session: Session
    var aim: Point
    var active: bool

    ghost predicate Valid()
      reads this, session, session.device
    {
      && session.Valid()
      && (active ==> ValidConfig(channels) && aim.finite && Covered(channels))
      && (!active ==> session.task.Idle?)
    }

    constructor (c: seq<Channel>, s: Session)
      requires s.Valid() && s.task.Idle?
      ensures Valid() && channels == c && session == s && !active
    {
      channels, session, aim, active := c, s, Point(0.0, 0.0, true), false;
    }

    /** Checks configuration, aim and pulse ranges before anything is switched on. Without an explicit aim it is the
        middle of the image; `enabled` is the command line's switch, `made` tells whether there is a device. */
    method Start(
        enabled: bool, wanted: Option<Point>, width: nat, height: nat, made: bool, timeoutMs: nat, how: Starting,
        threadWorks: bool, stopWorks: bool, now: int)
      requires Valid() && !active
      modifies this, session, session.device
      ensures Valid()
      ensures enabled ==> aim == Aim(wanted, width, height)
      ensures active <==>
                && enabled && ValidConfig(channels) && Covered(channels) && InImage(aim, width, height) && made
                && timeoutMs > 0 && how.Up? && threadWorks
      ensures active ==> session.task.Looping? && |session.initial| == CHANNELS
      ensures active ==> forall i :: 0 <= i < CHANNELS ==> session.initial[i] == channels[i].initial
      ensures !active ==> session.task.Idle? && !session.device.initialized
      ensures !active && session.device.live ==>
                old(session.device.live) || how == Halfway(false) || (how.Up? && !threadWorks && !stopWorks)
    {
      if !enabled {
        return;
      }
      var initial := Pulses(channels, [0.0, 0.0, 0.0, 0.0], [0.0, 0.0, 0.0, 0.0]);
      aim := Aim(wanted, width, height);
      if !initial.Mapped? || width == 0 || height == 0 || !InImage(aim, width, height) {
        return;
      }
      var i := 0;
      while i < CHANNELS
        invariant 0 <= i <= CHANNELS
        invariant forall j :: 0 <= j < i ==>
                    1.0 <= channels[j].low * 1000.0 && channels[j].high * 1000.0 <= PERIOD_NS as real
      {
        if channels[i].low * 1000.0 < 1.0 || channels[i].high * 1000.0 > PERIOD_NS as real {
          return;
        }
        i := i + 1;
      }
      if !made {
        return;
      }
      InRangeIsValid(channels, initial.values);
      var started := session.Start(initial.values, timeoutMs, how, threadWorks, stopWorks, now);
      active := started;
    }

    /** Ends the session once its loop is over; it can be started again. */
    method Stop()
      requires Valid() && (active ==> session.task.Finished?)
      modifies this`active, session`task
      ensures Valid() && !active && !session.device.initialized
      ensures old(active) && session.device.live ==> session.error != Nothing
    {
      if active {
        session.Join();
        active := false;
      }
    }

    /** Every observation reaches the loop: what it publishes lies in the channels' ranges, so it is never
        refused. Without a usable target the initial pulses are published, and the watchdog is not armed. */
    method Observe(armor: Option<Point>, light: Option<Point>, now: int)
      requires Valid()
      modifies session`desired, session`hasTarget, session`observed, session`latest
      ensures Valid()
      ensures !active ==> session.latest == old(session.latest)
      ensures active ==>
                var target := Aimed(armor, light);
                var h, v := IncrementOf(channels, target, aim, true), IncrementOf(channels, target, aim, false);
                var published := session.latest;
                && published.at == now && ValidPulses(published.pulses)
                && published.target == (h.Mapped? && v.Mapped? && target.Some?)
                && forall i :: 0 <= i < CHANNELS ==>
                     && channels[i].low <= published.pulses[i] <= channels[i].high
                     && published.pulses[i]
                        == if h.Mapped? && v.Mapped? then Pulse(channels[i], h.values[i], v.values[i])
                           else channels[i].initial
    {
      if !active {
        return;
      }
      var target := Aimed(armor, light);
      var horizontal := Increment(channels, target, aim, true);
      var vertical := Increment(channels, target, aim, false);
      var mapped := horizontal.Mapped? && vertical.Mapped?;
      var output;
      if mapped {
        output := Pulses(channels, horizontal.values, vertical.values);
      } else {
        output := Pulses(channels, [0.0, 0.0, 0.0, 0.0], [0.0, 0.0, 0.0, 0.0]);
      }
      InRangeIsValid(channels, output.values);
      var published := session.Publish(output.values, mapped && target.Some?, now);
    }
  }

  /** Pulses within channel ranges that the device covers are pulses it accepts. */
  lemma InRangeIsValid(channels: seq<Channel>, pulses: seq<real>)
    requires |channels| == |pulses| == CHANNELS && Covered(channels)
    requires forall i :: 0 <= i < CHANNELS ==> channels[i].low <= pulses[i] <= channels[i].high
    ensures ValidPulses(pulses)
  {
  }
}
