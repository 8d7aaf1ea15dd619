/** How the detector comes to follow a target: what it measured per frame goes in, what it publishes comes out.
    A light is published, and an armor followed, only after its own chain of matching measurements. */
module DetectorTracking {
  import opened Bytes
  import opened Geometry
  import SamplingLattice
  import opened TargetMotion
  import Windows = SearchWindows

  const MAX_COUNT: nat := 0xFFFF_FFFF

  datatype Config = Config(
    farArea: nat, farSize: nat, confirmFrames: nat, farConfirmFrames: nat, armorConfirmFrames: nat, trackHold: nat,
    validationInterval: nat, maxGap: int, maxWidth: nat, maxHeight: nat, gates: Gates, roi: Windows.RoiConfig,
    armorWindow: Windows.ArmorConfig)

  predicate ValidConfig(c: Config) {
    && 0 < c.confirmFrames <= MAX_COUNT && 0 < c.farConfirmFrames <= MAX_COUNT
    && 0 < c.armorConfirmFrames <= MAX_COUNT && c.validationInterval > 0
    && ValidGates(c.gates) && Windows.ValidRoi(c.roi)
  }

  predicate Far(c: Config, t: Target) {
    t.area < c.farArea || Max(t.bounds.width, t.bounds.height) < c.farSize
  }

  function Needed(c: Config, t: Target): nat { if Far(c, t) then c.farConfirmFrames else c.confirmFrames }

  /** A light measurement that continues the one before it. */
  predicate Follows(c: Config, t: Target, last: Target)
    requires ValidGates(c.gates)
  {
    Associates(c.gates, t, last) && !(Far(c, t) && Jumps(c.gates, t, last))
  }

  function IncrementSaturated(n: nat): nat { if n < MAX_COUNT then n + 1 else n }

  function Saturated(n: nat): nat { if n < MAX_COUNT then n else MAX_COUNT }

  function Last(chain: seq<Target>): Option<Target> {
    if chain == [] then None else Some(chain[|chain| - 1])
  }

  /** One more measurement: the chain goes on, starts over, or breaks. */
  function Extend(chain: seq<Target>, t: Option<Target>, follows: (Target, Target) -> bool): seq<Target> {
    if t.None? then []
    else if chain != [] && !follows(t.value, chain[|chain| - 1]) then [t.value]
    else chain + [t.value]
  }

  function LightLink(c: Config): (Target, Target) -> bool {
    (t, last) => ValidGates(c.gates) && Follows(c, t, last)
  }

  function ArmorLink(c: Config): (Target, Target) -> bool {
    (t, last) => ValidGates(c.gates) && Associates(c.gates, t, last)
  }

  predicate Linked(chain: seq<Target>, follows: (Target, Target) -> bool) {
    forall i :: 0 < i < |chain| ==> follows(chain[i], chain[i - 1])
  }

  class LightTracker {
    const c: Config
    var last: Option<Target>
    var hits: nat
    var lastFrame: nat
    var seenFrame: bool
    var inputValid: bool
    var measurementValid: bool
    var locked: bool
    // The matching measurements so far, without a gap.
    ghost var chain: seq<Target>

    ghost predicate Valid()
      reads this
    {
      && ValidConfig(c) && Linked(chain, LightLink(c)) && hits == Saturated(|chain|) && last == Last(chain)
      && (locked ==> chain != [])
    }

    constructor (config: Config)
      requires ValidConfig(config)
      ensures Valid() && c == config && chain == [] && !locked && !seenFrame
    {
      c := config;
      last, hits, lastFrame := None, 0, 0;
      seenFrame, inputValid, measurementValid, locked := false, false, false, false;
      chain := [];
    }

    /** Counts one frame's measurement. A second scan of the same frame counts only if the first found nothing. */
    method Confirm(light: Option<Target>, frame: nat) returns (confirmed: bool)
      requires Valid()
      modifies this
      ensures Valid() && measurementValid == light.Some?
      ensures var repeated := old(seenFrame) && frame == old(lastFrame) && (old(inputValid) || light.None?);
              if repeated then chain == old(chain) && locked == old(locked) == confirmed
              else
                && chain == Extend(old(chain), light, LightLink(c)) && seenFrame && lastFrame == frame
                && confirmed == locked
                && (locked <==> light.Some? && ((old(locked) && |chain| > 1) || |chain| >= Needed(c, light.value)))
    {
      measurementValid := light.Some?;
      if seenFrame && frame == lastFrame && (inputValid || light.None?) {
        return locked;
      }
      lastFrame, seenFrame, inputValid := frame, true, light.Some?;
      if light.None? {
        ClearConfirmation();
        return false;
      }
      Count(light.value);
      confirmed := locked;
    }

    /** One more measurement: it extends the chain, or starts a new one. */
    method Count(t: Target)
      requires Valid()
      modifies this`last, this`hits, this`locked, this`chain
      ensures Valid() && chain == Extend(old(chain), Some(t), LightLink(c))
      ensures locked <==> (old(locked) && |chain| > 1) || |chain| >= Needed(c, t)
    {
      if last.Some? && !Follows(c, t, last.value) {
        hits, locked := 0, false;
        chain := [];
      }
      last, hits := Some(t), IncrementSaturated(hits);
      chain := chain + [t];
      if !locked && hits >= Needed(c, t) {
        locked := true;
      }
    }

    method ClearConfirmation()
      modifies this`last, this`hits, this`locked, this`chain
      ensures last == None && hits == 0 && !locked && chain == []
    {
      last, hits, locked, chain := None, 0, false, [];
    }

    method Reset()
      requires ValidConfig(c)
      modifies this
      ensures Valid() && chain == [] && !locked && !seenFrame
    {
      ClearConfirmation();
      lastFrame, seenFrame, inputValid, measurementValid := 0, false, false, false;
    }
  }

  // ---- the detector -------------------------------------------------------------------------------

  /** What scanning a window gave, and whether it was a full validation. An armor is only looked for next to a
      light, and no target is empty. */
  datatype Measurement = Failed | Measured(light: Option<Target>, armor: Option<Target>, validated: bool)

  predicate Coherent(m: Measurement) {
    m.Measured? ==> (m.armor.Some? ==> m.light.Some?) && Solid(m.light) && Solid(m.armor)
  }

  predicate Solid(t: Option<Target>) { t.Some? ==> !t.value.bounds.Empty() }

  datatype Frame = Frame(width: nat, height: nat, sequence: nat, received: int)

  /** An accepted frame and what was measured in it. */
  datatype Accepted = Accepted(frame: Frame, light: Option<Target>, armor: Option<Target>)

  /** Another geometry, or too long a pause, ends everything followed so far. */
  predicate Interrupted(c: Config, before: Option<Frame>, f: Frame) {
    before.Some? && (f.width != before.value.width || f.height != before.value.height
                     || f.received - before.value.received > c.maxGap)
  }

  predicate OutOfOrder(before: Option<Frame>, f: Frame) {
    before.Some? && (f.sequence <= before.value.sequence || f.received < before.value.received)
  }

  /** What is followed, and the counts that decide where to look next. */
  datatype Tracking = Tracking(
    light: Motion, armor: Motion, armorMisses: nat, missedFrames: nat, framesSinceFull: nat, trackingFrames: nat,
    armorPending: bool)

  const LOST: Tracking := Tracking(RESTING, RESTING, 0, 0, 0, 0, false)

  /** Only tracking that was not interrupted goes on. */
  function Carried(c: Config, s: Tracking, before: Option<Frame>, f: Frame): Tracking {
    if Interrupted(c, before, f) then LOST else s
  }

  predicate DueForValidation(c: Config, s: Tracking) {
    s.trackingFrames + 1 >= c.validationInterval || s.armorPending || s.armorMisses > 0
  }

  function LightIn(t: Target): Windows.Light { Windows.Light(t.x, t.y, t.radius, t.bounds) }

  /** What the next window has to contain. */
  function EnvelopeFor(c: Config, s: Tracking, f: Frame): Rect
    requires s.light.last.Some? && f.width > 0 && f.height > 0
  {
    var light := Predicted(c.gates, s.light, f.received, f.width, f.height).value;
    var armor := Predicted(c.gates, s.armor, f.received, f.width, f.height);
    Windows.Envelope(light.bounds, if armor.Some? then armor.value.bounds else light.bounds, armor.Some?,
                     DueForValidation(c, s), Windows.ArmorWindow(c.armorWindow, LightIn(light), f.width, f.height))
  }

  /** The armor search window above the predicted light, if there is one, is covered. */
  predicate ShowsAbove(c: Config, s: Tracking, f: Frame, window: Rect)
    requires s.light.last.Some? && f.width > 0 && f.height > 0
  {
    var light := Predicted(c.gates, s.light, f.received, f.width, f.height).value;
    var above := Windows.ArmorWindow(c.armorWindow, LightIn(light), f.width, f.height);
    above.Empty() || window.Contains(above)
  }

  lemma EnvelopeFits(c: Config, s: Tracking, f: Frame)
    requires ValidConfig(c) && Solid(s.light.last) && Solid(s.armor.last) && s.light.last.Some?
    requires f.width > 0 && f.height > 0
    ensures var light := Predicted(c.gates, s.light, f.received, f.width, f.height).value.bounds;
            var armor := Predicted(c.gates, s.armor, f.received, f.width, f.height);
            var envelope := EnvelopeFor(c, s, f);
            && envelope.Inside(f.width, f.height) && envelope.Contains(light)
            && (armor.Some? ==> envelope.Contains(armor.value.bounds))
            && (armor.None? && DueForValidation(c, s) ==> ShowsAbove(c, s, f, envelope))
  {
    var light := Predicted(c.gates, s.light, f.received, f.width, f.height).value;
    var armor := Predicted(c.gates, s.armor, f.received, f.width, f.height);
    var above := Windows.ArmorWindow(c.armorWindow, LightIn(light), f.width, f.height);
    assert !light.bounds.Empty();
    if armor.Some? {
      UniteIsLeast(light.bounds, armor.value.bounds, f.width, f.height);
    } else if !above.Empty() {
      UniteIsLeast(light.bounds, above, f.width, f.height);
    }
  }

  /** The window a frame is first scanned in. */
  function FirstWindow(c: Config, s: Tracking, f: Frame): Rect
    requires ValidConfig(c) && Solid(s.light.last) && Solid(s.armor.last) && f.width > 0 && f.height > 0
  {
    if s.light.last.None? then FullWindow(f.width, f.height)
    else
      EnvelopeFits(c, s, f);
      Windows.NextWindow(c.roi, f.width, f.height, true, EnvelopeFor(c, s, f), s.missedFrames, s.framesSinceFull)
  }

  /** Inside the frame, around the predicted light and the predicted armor, or around the place where an armor would be
      while that is validated. */
  predicate Looks(c: Config, s: Tracking, f: Frame, window: Rect)
    requires f.width > 0 && f.height > 0
  {
    && window.Inside(f.width, f.height)
    && (var light := Predicted(c.gates, s.light, f.received, f.width, f.height);
        light.Some? ==> window.Contains(light.value.bounds))
    && (var armor := Predicted(c.gates, s.armor, f.received, f.width, f.height);
        s.light.last.Some? ==>
          if armor.Some? then window.Contains(armor.value.bounds)
          else DueForValidation(c, s) ==> ShowsAbove(c, s, f, window))
  }

  lemma WindowsLook(c: Config, s: Tracking, f: Frame)
    requires ValidConfig(c) && Solid(s.light.last) && Solid(s.armor.last) && f.width > 0 && f.height > 0
    ensures Looks(c, s, f, FirstWindow(c, s, f)) && Looks(c, s, f, FullWindow(f.width, f.height))
  {
    if s.light.last.Some? {
      EnvelopeFits(c, s, f);
      Windows.WindowCoversEnvelope(c.roi, f.width, f.height, true, EnvelopeFor(c, s, f), s.missedFrames,
                                   s.framesSinceFull);
    }
  }

  /** While a light is followed, a window that is not the full frame must show it, and whole; otherwise the full
      frame is looked at instead. */
  predicate Rescans(following: bool, full: bool, m: Measurement) {
    && following && m.Measured? && !full
    && (m.light.None? || m.light.value.clipped || (m.armor.Some? && m.armor.value.clipped))
  }

  /** The window whose measurement counts, and that measurement. */
  function Chosen(c: Config, s: Tracking, f: Frame, scan: (Rect, bool) -> Measurement): (Rect, Measurement)
    requires ValidConfig(c) && Solid(s.light.last) && Solid(s.armor.last) && f.width > 0 && f.height > 0
  {
    var first, full := FirstWindow(c, s, f), FullWindow(f.width, f.height);
    var m := scan(first, DueForValidation(c, s));
    if Rescans(s.light.last.Some?, first == full, m) then (full, scan(full, true)) else (first, m)
  }

  /** What is left of a chain when the next frame arrives. */
  function Kept(chain: seq<Target>, before: Option<Frame>, f: Frame, c: Config): seq<Target> {
    if Interrupted(c, before, f) then [] else chain
  }

  /** A measured light completes the chain that confirms it. */
  predicate Completes(chain: seq<Target>, light: Option<Target>, c: Config) {
    light.Some? && |Extend(chain, light, LightLink(c))| >= Needed(c, light.value)
  }

  predicate Joins(chain: seq<Target>, armor: Option<Target>, c: Config) {
    armor.Some? && |Extend(chain, armor, ArmorLink(c))| >= c.armorConfirmFrames
  }

  datatype Outcome = Rejected | Result(light: Option<Target>, armor: Option<Target>, missed: nat)

  function Lights(history: seq<Accepted>): (s: seq<Option<Target>>)
    ensures |s| == |history| && forall i :: 0 <= i < |history| ==> s[i] == history[i].light
  {
    seq(|history|, i requires 0 <= i < |history| => history[i].light)
  }

  function Armors(history: seq<Accepted>): (s: seq<Option<Target>>)
    ensures |s| == |history| && forall i :: 0 <= i < |history| ==> s[i] == history[i].armor
  {
    seq(|history|, i requires 0 <= i < |history| => history[i].armor)
  }

  /** The last measurements are exactly the chain. */
  ghost predicate EndsWith(seen: seq<Option<Target>>, chain: seq<Target>) {
    && |chain| <= |seen|
    && forall i :: |seen| - |chain| <= i < |seen| ==> seen[i] == Some(chain[i - (|seen| - |chain|)])
  }

  lemma ExtendsTail(seen: seq<Option<Target>>, chain: seq<Target>, t: Option<Target>, follows: (Target, Target) -> bool)
    requires EndsWith(seen, chain) && Linked(chain, follows)
    ensures EndsWith(seen + [t], Extend(chain, t, follows)) && Linked(Extend(chain, t, follows), follows)
  {
  }

  /** The last `n` accepted frames each gave a measurement, each matching the one before, the last one `t`. */
  ghost predicate Confirmed(seen: seq<Option<Target>>, n: nat, t: Target, follows: (Target, Target) -> bool) {
    && 0 < n <= |seen| && seen[|seen| - 1] == Some(t)
    && (forall i :: |seen| - n <= i < |seen| ==> seen[i].Some?)
    && (forall i, j :: |seen| - n <= i < j < |seen| && j == i + 1 ==> follows(seen[j].value, seen[i].value))
  }

  lemma ChainConfirms(seen: seq<Option<Target>>, chain: seq<Target>, n: nat, follows: (Target, Target) -> bool)
    requires EndsWith(seen, chain) && Linked(chain, follows) && 0 < n <= |chain|
    ensures Confirmed(seen, n, chain[|chain| - 1], follows)
  {
    var base := |seen| - |chain|;
    forall i, j | |seen| - n <= i < j < |seen| && j == i + 1
      ensures follows(seen[j].value, seen[i].value)
    {
      assert seen[j] == Some(chain[j - base]) && seen[i] == Some(chain[j - base - 1]);
    }
  }

  function Shrink(r: real, n: nat): (s: real)
    requires r > 0.0
    ensures s > 0.0
  {
    if n == 0 then 1.0 else r * Shrink(r, n - 1)
  }

  /** Over a chain of `k` links a target changes its size by no more than the k-th power of the ratio, either way. */
  lemma {:induction false} ChainKeepsSize(g: Gates, chain: seq<Target>, k: nat)
    requires ValidGates(g) && k < |chain| && forall i :: 0 < i < |chain| ==> Associates(g, chain[i], chain[i - 1])
    ensures Bounded(Shrink(g.minSizeRatio, k), chain[k].bounds.width, chain[0].bounds.width)
    ensures Bounded(Shrink(g.minSizeRatio, k), chain[k].bounds.height, chain[0].bounds.height)
  {
    if k > 0 {
      ChainKeepsSize(g, chain, k - 1);
      var now, before, first := chain[k].bounds, chain[k - 1].bounds, chain[0].bounds;
      BoundedOnceMore(g.minSizeRatio, k, now.width, before.width, first.width);
      BoundedOnceMore(g.minSizeRatio, k, now.height, before.height, first.height);
    }
  }

  lemma BoundedOnceMore(r: real, k: nat, now: nat, before: nat, first: nat)
    requires r > 0.0 && k > 0 && before > 0 && Similar(r, now, before) && Bounded(Shrink(r, k - 1), before, first)
    ensures Bounded(Shrink(r, k), now, first)
  {
    SimilarIsBounded(r, now, before);
    BoundedTwice(r, Shrink(r, k - 1), now, before, first);
  }

  predicate Bounded(r: real, now: nat, before: nat) {
    r * before as real <= now as real && r * now as real <= before as real
  }

  lemma SimilarIsBounded(r: real, now: nat, before: nat)
    requires r > 0.0 && before > 0 && Similar(r, now, before)
    ensures Bounded(r, now, before)
  {
    var a, b := now as real, before as real;
    var q, inverse := a / b, 1.0 / r;
    assert q * b == a && inverse * r == 1.0;
    Scaled(r, q, b);
    Scaled(q, inverse, b);
    Scaled(q * b, inverse * b, r);
    assert r * (inverse * b) == (inverse * r) * b;
  }

  lemma Scaled(x: real, y: real, k: real)
    requires x <= y && k >= 0.0
    ensures x * k <= y * k && k * x <= k * y
  {
  }

  lemma BoundedTwice(r: real, s: real, now: nat, before: nat, first: nat)
    requires r > 0.0 && s > 0.0 && Bounded(r, now, before) && Bounded(s, before, first)
    ensures Bounded(r * s, now, first)
  {
    Scaled(s * first as real, before as real, r);
    Scaled(r * now as real, before as real, s);
    assert r * (s * first as real) == (r * s) * first as real && s * (r * now as real) == (r * s) * now as real;
  }

  /** What is published first has been there, where the one before was and about as large, for the whole required
      number of frames. */
  lemma ConfirmedIsSteady(c: Config, seen: seq<Option<Target>>, n: nat, t: Target, k: nat)
    requires ValidGates(c.gates) && k < n
    requires Confirmed(seen, n, t, LightLink(c)) || Confirmed(seen, n, t, ArmorLink(c))
    ensures n <= |seen| && seen[|seen| - n].Some? && seen[|seen| - n + k].Some?
    ensures var first, later := seen[|seen| - n].value.bounds, seen[|seen| - n + k].value.bounds;
            && Bounded(Shrink(c.gates.minSizeRatio, k), later.width, first.width)
            && Bounded(Shrink(c.gates.minSizeRatio, k), later.height, first.height)
    ensures k > 0 ==> seen[|seen| - n + k - 1].Some?
                      && Associates(c.gates, seen[|seen| - n + k].value, seen[|seen| - n + k - 1].value)
  {
    var chain := seq(n, i requires 0 <= i < n => seen[|seen| - n + i].value);
    forall i | 0 < i < n
      ensures Associates(c.gates, chain[i], chain[i - 1])
    {
      assert seen[|seen| - n + i].Some?;
    }
    ChainKeepsSize(c.gates, chain, k);
  }

  ghost predicate Rising(history: seq<Accepted>) {
    forall i, j :: 0 <= i < j < |history| ==> history[i].frame.sequence < history[j].frame.sequence
  }

  lemma HistoryGrows(history: seq<Accepted>, a: Accepted)
    ensures Lights(history + [a]) == Lights(history) + [a.light]
    ensures Armors(history + [a]) == Armors(history) + [a.armor]
    ensures Rising(history) && (history != [] ==> history[|history| - 1].frame.sequence < a.frame.sequence) ==>
              Rising(history + [a])
  {
    if Rising(history) && history != [] && history[|history| - 1].frame.sequence < a.frame.sequence {
      forall i | 0 <= i < |history|
        ensures history[i].frame.sequence < a.frame.sequence
      {
        assert i == |history| - 1 || history[i].frame.sequence < history[|history| - 1].frame.sequence;
      }
    }
  }

  /** The armor confirmation, kept apart from the light's. */
  class ArmorChain {
    const c: Config
    var pending: Option<Target>
    var hits: nat
    ghost var chain: seq<Target>

    ghost predicate Valid()
      reads this
    {
      ValidConfig(c) && Linked(chain, ArmorLink(c)) && hits == Saturated(|chain|) && pending == Last(chain)
    }

    constructor (config: Config)
      requires ValidConfig(config)
      ensures Valid() && c == config && chain == []
    {
      c, pending, hits, chain := config, None, 0, [];
    }

    method Clear()
      requires ValidConfig(c)
      modifies this
      ensures Valid() && chain == []
    {
      pending, hits, chain := None, 0, [];
    }

    /** True on the frame that completes the chain; the next confirmation then starts from nothing. */
    method Confirm(armor: Option<Target>) returns (confirmed: bool)
      requires Valid()
      modifies this
      ensures Valid()
      ensures var longer := Extend(old(chain), armor, ArmorLink(c));
              && confirmed == (armor.Some? && |longer| >= c.armorConfirmFrames)
              && chain == if confirmed then [] else longer
    {
      if armor.None? {
        Clear();
        return false;
      }
      if pending.None? || !Associates(c.gates, armor.value, pending.value) {
        hits := 0;
        chain := [];
      }
      pending, hits := armor, IncrementSaturated(hits);
      chain := chain + [armor.value];
      if hits < c.armorConfirmFrames {
        return false;
      }
      Clear();
      confirmed := true;
    }
  }

  class RoiDetector {
    const c: Config
    const lights: LightTracker
    const armors: ArmorChain
    const lightMotion: TargetTracker
    const armorMotion: TargetTracker
    var frame: Option<Frame>
    var armorMisses: nat
    var missedFrames: nat
    var framesSinceFull: nat
    var trackingFrames: nat
    // Every accepted frame.
    ghost var history: seq<Accepted>

    ghost predicate Parts()
      reads lights, armors
    {
      && ValidConfig(c) && lights.c == c && armors.c == c && lights.Valid() && armors.Valid()
      && lightMotion.g == c.gates && armorMotion.g == c.gates && lightMotion != armorMotion
    }

    function State(): Tracking
      reads this, armors, lightMotion, armorMotion
    {
      Tracking(lightMotion.Now(), armorMotion.Now(), armorMisses, missedFrames, framesSinceFull, trackingFrames,
               armors.pending.Some?)
    }

    /** A followed armor belongs to a followed light. Until a light is followed, its tracker holds the matching
        measurements up to now, too few to confirm; until an armor is followed, likewise for the armor. */
    ghost predicate Valid()
      reads this, lights, armors, lightMotion, armorMotion
    {
      && Parts() && Solid(lightMotion.last) && Solid(armorMotion.last)
      && (armorMotion.last.Some? ==> lightMotion.last.Some? && armors.chain == [])
      && (lightMotion.last.None? ==> !lights.locked && EndsWith(Lights(history), lights.chain))
      && (armorMotion.last.None? ==> EndsWith(Armors(history), armors.chain))
      && Rising(history) && frame == (if history == [] then None else Some(history[|history| - 1].frame))
      && (lights.seenFrame ==> frame.Some? && lights.lastFrame <= frame.value.sequence)
    }

    constructor (config: Config)
      requires ValidConfig(config)
      ensures Valid() && c == config && history == [] && State() == LOST
      ensures fresh(lights) && fresh(armors) && fresh(lightMotion) && fresh(armorMotion)
    {
      c, frame, armorMisses, missedFrames, framesSinceFull, trackingFrames := config, None, 0, 0, 0, 0;
      history := [];
      lights := new LightTracker(config);
      armors := new ArmorChain(config);
      lightMotion := new TargetTracker(config.gates);
      armorMotion := new TargetTracker(config.gates);
    }

    method ResetTracking()
      requires Parts()
      modifies this`armorMisses, this`missedFrames, this`framesSinceFull, this`trackingFrames, lights, armors,
        lightMotion, armorMotion
      ensures Parts() && State() == LOST
      ensures lights.chain == [] && armors.chain == [] && !lights.locked && !lights.seenFrame
    {
      armorMisses, missedFrames, framesSinceFull, trackingFrames := 0, 0, 0, 0;
      lights.Reset();
      armors.Clear();
      lightMotion.Reset();
      armorMotion.Reset();
    }

    /** One frame: where to look, what to make of what is there, and what to publish. `scan` measures a window, with or
        without validation; the window returned is the one whose measurement counted. */
    method Detect(image: SamplingLattice.Frame, sequence: nat, received: int, scan: (Rect, bool) -> Measurement)
      returns (r: Outcome, window: Rect)
      requires Valid() && forall w, v :: Coherent(scan(w, v))
      modifies this, lights, armors, lightMotion, armorMotion
      ensures Valid()
      ensures var f := Frame(image.width, image.height, sequence, received);
              SamplingLattice.FitsIn(image, c.maxWidth, c.maxHeight) ==>
                var s := Carried(c, old(State()), old(frame), f);
                && Solid(s.light.last) && Solid(s.armor.last)
                && var (where, m) := Chosen(c, s, f, scan);
                && (r.Rejected? <==> OutOfOrder(old(frame), f) || m.Failed?)
                && (r.Result? ==>
                      && window == where && Looks(c, s, f, window)
                      && history == old(history) + [Accepted(f, m.light, m.armor)]
                      && Published(s, Kept(old(lights.chain), old(frame), f, c),
                                   Kept(old(armors.chain), old(frame), f, c), m, c, r, lightMotion.last,
                                   armorMotion.last)
                      && FirstConfirmed(s, history, c, r.light, armorMotion.last))
      ensures !SamplingLattice.FitsIn(image, c.maxWidth, c.maxHeight) ==> r.Rejected?
      ensures r.Rejected? ==> history == old(history) && frame == old(frame)
    {
      var f := Frame(image.width, image.height, sequence, received);
      if !SamplingLattice.FitsIn(image, c.maxWidth, c.maxHeight) || OutOfOrder(frame, f) {
        return Rejected, Rect(0, 0, 0, 0);
      }
      if Interrupted(c, frame, f) {
        ResetTracking();
      }
      r, window := Look(f, scan);
    }

    /** Looks at a frame that continues what is followed. */
    method Look(f: Frame, scan: (Rect, bool) -> Measurement) returns (r: Outcome, window: Rect)
      requires Valid() && (forall w, v :: Coherent(scan(w, v))) && f.width > 0 && f.height > 0
      requires frame.Some? ==> frame.value.sequence < f.sequence
      modifies this, lights, armors, lightMotion, armorMotion
      ensures Valid()
      ensures var (where, m) := Chosen(c, old(State()), f, scan);
              && (r.Rejected? <==> m.Failed?)
              && (r.Result? ==>
                    && window == where && Looks(c, old(State()), f, window)
                    && history == old(history) + [Accepted(f, m.light, m.armor)]
                    && Published(old(State()), old(lights.chain), old(armors.chain), m, c, r, lightMotion.last,
                                 armorMotion.last)
                    && FirstConfirmed(old(State()), history, c, r.light, armorMotion.last))
      ensures r.Rejected? ==> history == old(history) && frame == old(frame)
    {
      WindowsLook(c, State(), f);
      var full := FullWindow(f.width, f.height);
      window := FirstWindow(c, State(), f);
      var m := scan(window, DueForValidation(c, State()));
      if Rescans(lightMotion.last.Some?, window == full, m) {
        window, m := full, scan(full, true);
      }
      if m.Failed? {
        return Rejected, window;
      }
      r := Process(f, m, window == full);
    }

    method Process(f: Frame, m: Measurement, full: bool) returns (r: Outcome)
      requires Valid() && Coherent(m) && m.Measured? && (frame.Some? ==> frame.value.sequence < f.sequence)
      modifies this, lights, armors, lightMotion, armorMotion
      ensures Valid() && r.Result? && history == old(history) + [Accepted(f, m.light, m.armor)]
      ensures Published(old(State()), old(lights.chain), old(armors.chain), m, c, r, lightMotion.last, armorMotion.last)
      ensures FirstConfirmed(old(State()), history, c, r.light, armorMotion.last)
    {
      var tracking := lightMotion.last.Some?;
      var published, follow := Sift(f, m);
      Update(published, follow, tracking, m.validated, full, f.received);
      r := Result(published, follow, missedFrames);
    }

    /** What of a frame's measurements is published and followed; the chains go on or are complete. */
    method Sift(f: Frame, m: Measurement) returns (published: Option<Target>, follow: Option<Target>)
      requires Valid() && Coherent(m) && m.Measured? && (frame.Some? ==> frame.value.sequence < f.sequence)
      modifies this`frame, this`history, lights, armors
      ensures Sifted(published, follow) && history == old(history) + [Accepted(f, m.light, m.armor)]
      ensures published == Publishable(old(State()), old(lights.chain), m, c)
      ensures follow.Some? <==> published.Some? && ArmorStands(old(State()), old(armors.chain), m, c)
      ensures follow.Some? ==> follow == m.armor
      ensures FirstConfirmed(old(State()), history, c, published, follow)
    {
      Record(f, m.light, m.armor);
      var confirmed := ConfirmArmor(m.armor);
      published := PublishLight(m.light, f.sequence);
      follow := if published.Some? && confirmed then m.armor else None;
    }

    /** As `Valid`, before what is published and followed is taken over. */
    ghost predicate Sifted(published: Option<Target>, follow: Option<Target>)
      reads this, lights, armors, lightMotion, armorMotion
    {
      && Parts() && Solid(lightMotion.last) && Solid(armorMotion.last) && Solid(published) && Solid(follow)
      && (armorMotion.last.Some? ==> lightMotion.last.Some? && armors.chain == [])
      && (follow.Some? ==> published.Some? && armors.chain == [])
      && (lightMotion.last.None? ==> lights.locked == published.Some? && EndsWith(Lights(history), lights.chain))
      && (armorMotion.last.None? ==> EndsWith(Armors(history), armors.chain))
      && history != [] && Rising(history) && frame == Some(history[|history| - 1].frame)
      && (lights.seenFrame ==> lights.lastFrame <= frame.value.sequence)
    }

    /** A followed light is published as it is, a new one once it is confirmed. */
    method PublishLight(measured: Option<Target>, sequence: nat) returns (published: Option<Target>)
      requires lights.Valid() && lights.c == c && (lightMotion.last.None? ==> !lights.locked)
      requires lights.seenFrame && lightMotion.last.None? ==> lights.lastFrame < sequence
      requires lightMotion.last.None? ==> EndsWith(Lights(history), Extend(lights.chain, measured, LightLink(c)))
      requires lightMotion.last.None? ==> Linked(Extend(lights.chain, measured, LightLink(c)), LightLink(c))
      modifies lights
      ensures published
           == if lightMotion.last.Some? || Completes(old(lights.chain), measured, c) then measured else None
      ensures lights.Valid()
      ensures lightMotion.last.None? ==>
                && lights.seenFrame && lights.lastFrame == sequence && lights.locked == published.Some?
                && EndsWith(Lights(history), lights.chain)
      ensures lightMotion.last.Some? ==>
                && lights.chain == old(lights.chain) && lights.locked == old(lights.locked)
                && lights.seenFrame == old(lights.seenFrame) && lights.lastFrame == old(lights.lastFrame)
      ensures lightMotion.last.None? && published.Some? ==>
                Confirmed(Lights(history), Needed(c, published.value), published.value, LightLink(c))
    {
      published := measured;
      if lightMotion.last.None? {
        var seen := ConfirmLight(measured, sequence);
        if !seen {
          published := None;
        }
      }
    }

    /** The frame becomes part of the history, and its measurements extend the chains. */
    method Record(f: Frame, measuredLight: Option<Target>, measuredArmor: Option<Target>)
      requires Valid() && (frame.Some? ==> frame.value.sequence < f.sequence)
      modifies this`frame, this`history
      ensures history == old(history) + [Accepted(f, measuredLight, measuredArmor)] && frame == Some(f)
      ensures Rising(history)
      ensures lightMotion.last.None? ==>
                var longer := Extend(lights.chain, measuredLight, LightLink(c));
                EndsWith(Lights(history), longer) && Linked(longer, LightLink(c))
      ensures armorMotion.last.None? ==>
                var longer := Extend(armors.chain, measuredArmor, ArmorLink(c));
                EndsWith(Armors(history), longer) && Linked(longer, ArmorLink(c))
    {
      ghost var accepted := Accepted(f, measuredLight, measuredArmor);
      HistoryGrows(history, accepted);
      if lightMotion.last.None? {
        ExtendsTail(Lights(history), lights.chain, measuredLight, LightLink(c));
      }
      if armorMotion.last.None? {
        ExtendsTail(Armors(history), armors.chain, measuredArmor, ArmorLink(c));
      }
      frame := Some(f);
      history := history + [accepted];
    }

    /** An armor that is followed already needs no confirmation. */
    method ConfirmArmor(measured: Option<Target>) returns (confirmed: bool)
      requires armors.Valid() && armors.c == c && (armorMotion.last.Some? ==> armors.chain == [])
      requires armorMotion.last.None? ==> EndsWith(Armors(history), Extend(armors.chain, measured, ArmorLink(c)))
      requires armorMotion.last.None? ==> Linked(Extend(armors.chain, measured, ArmorLink(c)), ArmorLink(c))
      modifies armors
      ensures armors.Valid() && (armorMotion.last.Some? || (confirmed && measured.Some?) ==> armors.chain == [])
      ensures confirmed == (armorMotion.last.Some? || Joins(old(armors.chain), measured, c))
      ensures armorMotion.last.None? ==> EndsWith(Armors(history), armors.chain)
      ensures armorMotion.last.None? && confirmed ==>
                measured.Some? && Confirmed(Armors(history), c.armorConfirmFrames, measured.value, ArmorLink(c))
    {
      if armorMotion.last.Some? {
        return true;
      }
      ghost var longer := Extend(armors.chain, measured, ArmorLink(c));
      confirmed := armors.Confirm(measured);
      if confirmed {
        ChainConfirms(Armors(history), longer, c.armorConfirmFrames, ArmorLink(c));
      }
    }

    method ConfirmLight(measured: Option<Target>, sequence: nat) returns (confirmed: bool)
      requires lights.Valid() && lights.c == c && !lights.locked
      requires lights.seenFrame ==> lights.lastFrame < sequence
      requires EndsWith(Lights(history), Extend(lights.chain, measured, LightLink(c)))
      requires Linked(Extend(lights.chain, measured, LightLink(c)), LightLink(c))
      modifies lights
      ensures lights.Valid() && lights.seenFrame && lights.lastFrame == sequence && lights.locked == confirmed
      ensures EndsWith(Lights(history), lights.chain)
      ensures confirmed == Completes(old(lights.chain), measured, c)
      ensures confirmed ==>
                && measured.Some?
                && Confirmed(Lights(history), Needed(c, measured.value), measured.value, LightLink(c))
    {
      confirmed := lights.Confirm(measured, sequence);
      if confirmed {
        ChainConfirms(Lights(history), lights.chain, Needed(c, measured.value), LightLink(c));
      }
    }

    /** What is followed from now on, and the counts for the next window. */
    method Update(
        published: Option<Target>, follow: Option<Target>, tracking: bool, validated: bool, full: bool, received: int)
      requires Parts()
      modifies this`armorMisses, this`missedFrames, this`framesSinceFull, this`trackingFrames, lights, armors,
        lightMotion, armorMotion
      ensures Parts() && (lights.seenFrame ==> old(lights.seenFrame))
      ensures lights.lastFrame == old(lights.lastFrame) || !lights.seenFrame
      ensures lights.chain == old(lights.chain) || lights.chain == []
      ensures armors.chain == old(armors.chain) || armors.chain == []
      ensures lights.locked ==> old(lights.locked)
      ensures missedFrames == if published.Some? then 0 else IncrementSaturated(old(missedFrames))
      ensures var lost := published.None? && tracking && missedFrames >= c.roi.resetAfterMisses;
              var expired := IncrementSaturated(old(armorMisses)) >= c.trackHold;
              && framesSinceFull
                 == (if full then 0 else IncrementSaturated(if lost then 0 else old(framesSinceFull)))
              && lightMotion.Now()
                 == (if published.Some? then Observed(c.gates, old(lightMotion.Now()), published.value, received)
                     else if lost then RESTING else old(lightMotion.Now()))
              && armorMotion.Now()
                 == (if lost then RESTING else if published.None? then old(armorMotion.Now())
                     else if follow.Some? then Observed(c.gates, old(armorMotion.Now()), follow.value, received)
                     else if old(armorMotion.last).Some? && expired then RESTING else old(armorMotion.Now()))
              && (lost ==> lights.chain == [] && armors.chain == [] && !lights.locked)
              && (published.Some? ==> lights.chain == old(lights.chain))
    {
      if published.Some? {
        lightMotion.Observe(published.value, received);
        trackingFrames := if validated then 0 else IncrementSaturated(trackingFrames);
        UpdateArmor(follow, received);
        missedFrames := 0;
      } else {
        missedFrames := IncrementSaturated(missedFrames);
        if !tracking && !lights.measurementValid {
          lights.ClearConfirmation();
        }
        if tracking && missedFrames >= c.roi.resetAfterMisses {
          var misses := missedFrames;
          ResetTracking();
          missedFrames := misses;
        }
      }
      framesSinceFull := if full then 0 else IncrementSaturated(framesSinceFull);
    }

    method UpdateArmor(follow: Option<Target>, received: int)
      requires armorMotion.g == c.gates && c.validationInterval > 0
      modifies this`armorMisses, this`trackingFrames, armorMotion
      ensures armorMotion.Now()
           == if follow.Some? then Observed(c.gates, old(armorMotion.Now()), follow.value, received)
              else if old(armorMotion.last).Some? && IncrementSaturated(old(armorMisses)) >= c.trackHold then RESTING
              else old(armorMotion.Now())
    {
      if follow.Some? {
        armorMotion.Observe(follow.value, received);
        armorMisses := 0;
      } else if armorMotion.last.Some? {
        armorMisses := IncrementSaturated(armorMisses);
        if armorMisses >= c.trackHold {
          armorMotion.Reset();
          trackingFrames := c.validationInterval - 1;
        }
      }
    }
  }

  /** The light that is published: the measured one if a light is followed, or if it completes its chain. */
  function Publishable(s: Tracking, chain: seq<Target>, m: Measurement, c: Config): Option<Target>
    requires m.Measured?
  {
    if s.light.last.Some? || Completes(chain, m.light, c) then m.light else None
  }

  /** The measured armor may be published next to a light: it is followed, or completes its chain. */
  predicate ArmorStands(s: Tracking, chain: seq<Target>, m: Measurement, c: Config)
    requires m.Measured?
  {
    m.armor.Some? && (s.armor.last.Some? || Joins(chain, m.armor, c))
  }

  /** What is published of a measurement, and followed from then on. */
  predicate Published(
      s: Tracking, lightChain: seq<Target>, armorChain: seq<Target>, m: Measurement, c: Config, r: Outcome,
      light: Option<Target>, armor: Option<Target>)
    requires m.Measured? && r.Result?
  {
    && r.light == Publishable(s, lightChain, m, c)
    && (r.armor.Some? <==> r.light.Some? && ArmorStands(s, armorChain, m, c))
    && (r.light.Some? ==> light == r.light)
    && (r.armor.Some? ==> armor == r.armor == m.armor)
  }

  /** Whatever is published or followed for the first time has been confirmed. */
  ghost predicate FirstConfirmed(
      s: Tracking, history: seq<Accepted>, c: Config, light: Option<Target>, armor: Option<Target>)
  {
    && (light.Some? && s.light.last.None? ==>
          Confirmed(Lights(history), Needed(c, light.value), light.value, LightLink(c)))
    && (armor.Some? && s.armor.last.None? ==>
          Confirmed(Armors(history), c.armorConfirmFrames, armor.value, ArmorLink(c)))
  }
}
