/** The C camera: bring-up, capture and retryable teardown, with any SDK call allowed to fail. The calls'
    preconditions in `SensorSdk` are the teardown order, so verifying these methods proves it is kept. */
module CameraLifecycle {
  import opened Bytes
  import opened LeasePools
  import Raw10
  import opened SensorSdk

  datatype Status = Empty | Initialized | Started | Faulted

  datatype Result = Ok | Busy | InvalidState | OutOfRange | NoFrameYet | AbiMismatch | StaleLease | Failed

  /** The camera's flags and handles. `places` are the physical addresses of the mapped buffers, each `block` bytes
      long. */
  datatype Flags = Flags(
    state: Status, media: bool, rawPool: bool, vicap: bool, powered: bool, started: bool, streaming: bool,
    exposure: bool, gray: bool, poolKnown: bool, block: nat, places: seq<nat>, mapped: seq<bool>, held: seq<bool>)

  function NoPlaces(): (s: seq<nat>)
    ensures |s| == BUFFERS && forall i :: 0 <= i < BUFFERS ==> s[i] == 0
  {
    seq(BUFFERS, i => 0)
  }

  const BLANK: Flags :=
    Flags(Empty, false, false, false, false, false, false, false, false, false, 0, NoPlaces(), NoFlags(),
          NoFlags())

  // The entries of the driver's ring.
  const RING: nat := 4

  const MAX_ADDRESS: nat := 0xffff_ffff_ffff_ffff

  /** Where the driver's buffers lie, 0 if a handle does not lead back to itself, and where in them the probing dump
      lies. */
  datatype Probe = Probe(blocks: seq<nat>, at: nat, length: nat)

  /** A dumped frame: where it lies, and the bytes found there. */
  datatype Shot = Shot(at: nat, raw: seq<Byte>)

  /** Every pixel of the image is its sample of the raw frame, mirrored and shortened as the view asks. */
  ghost predicate Depicts(v: Raw10.View, raw: seq<Byte>, image: seq<Byte>) {
    && Raw10.Readable(v, raw) && |image| == v.width * v.height
    && forall y :: 0 <= y < v.height ==> Raw10.RowDone(v, raw, image, y)
  }

  /** The raw frame has the view's size and no unused bit set. */
  ghost predicate Converts(v: Raw10.View, raw: seq<Byte>) {
    Raw10.Readable(v, raw) && Raw10.Clean(v.layout, raw, v.width, v.height, v.stride)
  }

  /** Converts a raw frame; what a failed conversion leaves in the buffer is of no use. */
  method Develop(v: Raw10.View, raw: seq<Byte>) returns (ok: bool, image: seq<Byte>)
    ensures ok <==> Converts(v, raw)
    ensures ok ==> Depicts(v, raw, image)
  {
    var buffer := new Byte[v.width * v.height];
    var r := Raw10.Gray(raw, v, buffer);
    ok, image := r == Raw10.Ok, buffer[..];
    if ok {
      DepictedIsClean(v, raw, image);
    }
  }

  lemma DepictedIsClean(v: Raw10.View, raw: seq<Byte>, image: seq<Byte>)
    requires Depicts(v, raw, image)
    ensures Converts(v, raw)
  {
    forall x, y | 0 <= x < v.width && 0 <= y < v.height
      ensures Raw10.SampleAt(v.layout, raw, v.width, v.height, v.stride, x, y).Some?
    {
      assert Raw10.RowDone(v, raw, image, y);
    }
  }

  /** The frame lies in a mapped buffer. */
  predicate Within(f: Flags, at: nat, length: nat)
    requires |f.mapped| == |f.places| == BUFFERS
  {
    exists i :: 0 <= i < RING && f.mapped[i] && f.places[i] != 0 && Covers(f.places[i], f.block, at, length)
  }

  function Distance(a: nat, b: nat): nat { if a > b then a - b else b - a }

  /** Buffer `i` has an address and does not overlap those before it. */
  predicate Placed(places: seq<nat>, block: nat, i: nat)
    requires i < |places|
  {
    0 < places[i] <= MAX_ADDRESS - block && forall j :: 0 <= j < i ==> Distance(places[i], places[j]) >= block
  }

  /** The whole ring is mapped, without overlaps. */
  predicate RingMapped(f: Flags) {
    && f.poolKnown && f.block > 0 && |f.mapped| == |f.places| == BUFFERS
    && forall i :: 0 <= i < RING ==> f.mapped[i] && Placed(f.places, f.block, i)
  }

  predicate Covers(place: nat, block: nat, at: nat, length: nat) { place <= at && at + length <= place + block }

  /** The ring can be mapped and the dump lies in it. */
  predicate Suits(p: Probe, block: nat)
    requires |p.blocks| == RING
  {
    && block > 0 && (forall i :: 0 <= i < RING ==> Placed(p.blocks, block, i))
    && exists i :: 0 <= i < RING && Covers(p.blocks[i], block, p.at, p.length)
  }

  /** Of the first `i` buffers those still mapped are the ones that could not be unmapped; `count` of them were. */
  ghost predicate PartlyUnmapped(before: seq<bool>, mapped: seq<bool>, i: nat, done: bool, count: nat) {
    && i <= |mapped| == |before|
    && (done <==> forall j :: 0 <= j < i ==> !mapped[j])
    && (count == 0 <==> forall j :: 0 <= j < i ==> !before[j])
    && forall j :: i <= j < |mapped| ==> mapped[j] == before[j]
  }

  lemma NextUnmapped(before: seq<bool>, mapped: seq<bool>, i: nat, done: bool, count: nat, unmapped: bool)
    requires PartlyUnmapped(before, mapped, i, done, count) && i < |before|
    ensures PartlyUnmapped(before, mapped[i := !unmapped], i + 1, done && unmapped,
                           count + (if before[i] then 1 else 0))
  {
    var next := mapped[i := !unmapped];
    assert forall j :: 0 <= j < i ==> next[j] == mapped[j];
    ClearSoFar(next, i);
    ClearSoFar(before, i);
    if done {
      assert forall j :: 0 <= j < i ==> !next[j];
    } else {
      var j :| 0 <= j < i && mapped[j];
      assert next[j];
    }
  }

  lemma ClearSoFar(flags: seq<bool>, i: nat)
    requires i < |flags|
    ensures (forall j :: 0 <= j < i + 1 ==> !flags[j]) <==> (forall j :: 0 <= j < i ==> !flags[j]) && !flags[i]
  {
    assert flags[..i + 1] == flags[..i] + [flags[i]];
  }

  lemma PlacedAgain(places: seq<nat>, blocks: seq<nat>, block: nat)
    requires |blocks| <= |places| && places[..|blocks|] == blocks
    ensures forall i :: 0 <= i < |blocks| && Placed(blocks, block, i) ==> Placed(places, block, i)
  {
    assert forall i :: 0 <= i < |blocks| ==> places[i] == places[..|blocks|][i];
  }

  /** The first `n` buffers have been checked and mapped, and no other. */
  ghost predicate FirstMapped(f: Flags, answers: nat -> Answer, first: nat, blocks: seq<nat>, n: nat) {
    && |f.mapped| == |f.places| == BUFFERS && n <= |blocks| == RING
    && (forall j :: 0 <= j < n ==> f.mapped[j] && f.places[j] == blocks[j] && Maps(answers, first, blocks, f.block, j))
    && forall j :: n <= j < BUFFERS ==> !f.mapped[j]
  }

  lemma AllFirst(f: Flags, answers: nat -> Answer, first: nat, blocks: seq<nat>)
    requires FirstMapped(f, answers, first, blocks, RING) && f.poolKnown && f.block > 0
    ensures RingMapped(f) && f.places[..RING] == blocks && !RollsBack(answers, first, blocks, f.block)
  {
    assert f.places[..RING] == blocks;
    PlacedAgain(f.places, blocks, f.block);
    forall j | 0 <= j < RING
      ensures f.mapped[j] && Placed(f.places, f.block, j)
    {
      assert Maps(answers, first, blocks, f.block, j);
    }
  }

  lemma FirstFails(f: Flags, answers: nat -> Answer, first: nat, blocks: seq<nat>, i: nat)
    requires |f.mapped| == |f.places| == BUFFERS && i < |blocks| == RING && f.block > 0 && !f.mapped[i]
    requires forall j :: 0 <= j < i ==> f.mapped[j] && Maps(answers, first, blocks, f.block, j)
    requires forall j :: i <= j < BUFFERS ==> !f.mapped[j]
    requires !Maps(answers, first, blocks, f.block, i)
    ensures RollsBack(answers, first, blocks, f.block) <==> !AllClear(f.mapped)
  {
    if i > 0 {
      assert f.mapped[0];
    }
  }

  lemma SuitsRing(p: Probe, f: Flags)
    requires RingMapped(f) && f.places[..RING] == p.blocks
    ensures Suits(p, f.block) ==> Within(f, p.at, p.length)
  {
    if Suits(p, f.block) {
      var i :| 0 <= i < RING && Covers(p.blocks[i], f.block, p.at, p.length);
      assert f.mapped[i] && f.places[i] == f.places[..RING][i] == p.blocks[i];
      assert Placed(f.places, f.block, i);
    }
  }

  /** In a mapped ring a frame lies in one buffer only. */
  lemma OneBuffer(f: Flags, i: nat, j: nat, at: nat, length: nat)
    requires RingMapped(f) && i < RING && j < RING && length > 0
    requires Covers(f.places[i], f.block, at, length) && Covers(f.places[j], f.block, at, length)
    ensures i == j
  {
    assert Placed(f.places, f.block, i) && Placed(f.places, f.block, j);
  }

  // ---- what the answers decide ----------------------------------------------------------------------

  predicate Maps(answers: nat -> Answer, at: nat, blocks: seq<nat>, block: nat, i: nat)
    requires i < |blocks|
  {
    Placed(blocks, block, i) && answers(at + i) == Done
  }

  /** The first buffer is mapped, and a later one of the ring is not. */
  predicate RollsBack(answers: nat -> Answer, at: nat, blocks: seq<nat>, block: nat)
    requires |blocks| == RING
  {
    && block > 0 && Maps(answers, at, blocks, block, 0)
    && exists i :: 1 <= i < RING && !Maps(answers, at, blocks, block, i)
  }

  /** The probing dump arrives with the last of up to three tries. */
  predicate Dumped(answers: nat -> Answer, at: nat, tries: nat) {
    && 1 <= tries <= 3 && answers(at + tries - 1) == Done
    && forall i :: at <= i < at + tries - 1 ==> answers(i) == NoFrame
  }

  /** The calls from number `at` on dump a frame, accept it, map the first buffer, and fail at a later one. */
  ghost predicate UnmapsEarly(answers: nat -> Answer, at: nat, blocks: seq<nat>, block: nat)
    requires |blocks| == RING
  {
    exists tries :: Dumped(answers, at, tries) && Accepted(answers, at, tries, blocks, block)
  }

  predicate Accepted(answers: nat -> Answer, at: nat, tries: nat, blocks: seq<nat>, block: nat)
    requires |blocks| == RING
  {
    answers(at + tries) == Done && RollsBack(answers, at + tries + 1, blocks, block)
  }

  lemma TheTry(answers: nat -> Answer, at: nat, tries: nat, blocks: seq<nat>, block: nat)
    requires Dumped(answers, at, tries) && |blocks| == RING
    ensures UnmapsEarly(answers, at, blocks, block) <==> Accepted(answers, at, tries, blocks, block)
  {
    forall other | Dumped(answers, at, other)
      ensures other == tries
    {
      DumpedOnce(answers, at, tries, other);
    }
  }

  lemma DumpedOnce(answers: nat -> Answer, at: nat, tries: nat, other: nat)
    requires Dumped(answers, at, tries) && Dumped(answers, at, other)
    ensures tries == other
  {
  }

  /** No flag is set that was not set before. */
  predicate Fewer(now: seq<bool>, before: seq<bool>) {
    |now| == |before| && forall i :: 0 <= i < |now| && now[i] ==> before[i]
  }

  /** What each state promises about the flags. */
  predicate Settled(f: Flags, active: nat) {
    match f.state
    case Empty => f == BLANK && active == 0
    case Initialized =>
      f.vicap && f.gray && !f.powered && AllClear(f.held) && active == 0 && (f.poolKnown ==> RingMapped(f))
    case Started => f.streaming && f.gray && AllClear(f.held) && RingMapped(f)
    case Faulted => true
  }

  class Camera {
    const sdk: Sdk
    const leases: LeasePool
    var f: Flags
    // The gray frame of each lease slot.
    var gray: seq<seq<Byte>>
    // Size, layout and mirroring of the frames.
    var view: Raw10.View

    /** The flags are exactly what the hardware may be holding. */
    ghost predicate Agrees()
      reads this, sdk
    {
      && InOrder(sdk.hw)
      && sdk.hw == Hardware(f.media, f.rawPool, f.vicap, f.powered, f.started, f.streaming, f.mapped, f.held)
      && (!f.poolKnown ==> AllClear(f.mapped)) && |f.places| == BUFFERS
    }

    /** The slot of a live lease holds no dump. */
    ghost predicate NothingRetained()
      reads this, leases, leases.slots
      requires leases.slots.Length == |f.held|
    {
      forall i :: 0 <= i < |f.held| && leases.slots[i] != 0 ==> !f.held[i]
    }

    ghost predicate Valid()
      reads this, sdk, leases, leases.slots
    {
      Agrees() && leases.Valid() && Settled(f, leases.active) && |gray| == SLOTS
    }

    constructor (s: Sdk)
      requires s.hw == OFF
      ensures Valid() && sdk == s && f == BLANK && fresh(leases) && fresh(leases.slots)
    {
      sdk := s;
      f := BLANK;
      leases := new LeasePool();
      gray := seq(SLOTS, i => []);
      view := Raw10.View(Raw10.Mipi, 0, 0, 0, false, false);
    }

    // ---- stopping ---------------------------------------------------------------------------------

    method ReleaseDump(slot: nat) returns (done: bool)
      requires Agrees() && slot < DUMPS
      modifies this`f, sdk`asked, sdk`hw
      ensures Agrees() && sdk.asked >= old(sdk.asked)
      ensures f == old(f).(held := old(f.held)[slot := f.held[slot]]) && (done <==> !f.held[slot])
      ensures f.held[slot] ==> old(f.held)[slot]
      ensures Fewer(f.held, old(f.held))
      ensures sdk.AllDone(old(sdk.asked)) ==> done
    {
      if !f.held[slot] {
        return true;
      }
      done := sdk.ReleaseDump(slot);
      f := f.(held := f.held[slot := !done]);
    }

    method ReleaseDumps() returns (done: bool)
      requires Agrees()
      modifies this`f, sdk`asked, sdk`hw
      ensures Agrees() && sdk.asked >= old(sdk.asked)
      ensures f == old(f).(held := f.held)
      ensures Fewer(f.held, old(f.held))
      ensures done ==> AllClear(f.held)
      ensures sdk.AllDone(old(sdk.asked)) ==> done
    {
      var slot := 0;
      while slot < DUMPS
        invariant slot <= DUMPS && Agrees() && sdk.asked >= old(sdk.asked) && f == old(f).(held := f.held)
        invariant Fewer(f.held, old(f.held))
        invariant forall i :: 0 <= i < slot ==> !f.held[i]
      {
        done := ReleaseDump(slot);
        if !done {
          return;
        }
        slot := slot + 1;
      }
      done := true;
    }

    /** Pixels off, receiver off, power off, each only if on. */
    method SwitchOff() returns (done: bool)
      requires Agrees() && AllClear(f.held)
      modifies this`f, sdk`asked, sdk`hw
      ensures Agrees() && sdk.asked >= old(sdk.asked)
      ensures f == old(f).(streaming := f.streaming, started := f.started, powered := f.powered)
      ensures done ==> !f.powered && !f.started && !f.streaming
      ensures sdk.AllDone(old(sdk.asked)) ==> done
    {
      if f.streaming {
        done := sdk.StopPixels();
        if !done {
          return;
        }
        f := f.(streaming := false);
      }
      if f.started {
        done := sdk.StopReceiver();
        if !done {
          return;
        }
        f := f.(started := false);
      }
      if f.powered {
        done := sdk.PowerOff();
        if !done {
          return;
        }
        f := f.(powered := false);
      }
      done := true;
    }

    /** Drains the dumps, then switches off; whatever fails stays as it is. */
    method Quiesce() returns (done: bool)
      requires Agrees()
      modifies this`f, sdk`asked, sdk`hw
      ensures Agrees() && sdk.asked >= old(sdk.asked)
      ensures f == old(f).(streaming := f.streaming, started := f.started, powered := f.powered, held := f.held)
      ensures Fewer(f.held, old(f.held))
      ensures done ==> !f.powered && !f.started && !f.streaming && AllClear(f.held)
      ensures sdk.AllDone(old(sdk.asked)) ==> done
    {
      done := ReleaseDumps();
      if done {
        done := SwitchOff();
      }
    }

    /** Refuses while a lease is out, and unmaps nothing. What fails stays held, marks the camera and can be retried. */
    method Stop() returns (r: Result)
      requires Agrees()
      modifies this`f, sdk`asked, sdk`hw
      ensures Agrees() && sdk.asked >= old(sdk.asked)
      ensures r == InvalidState <==> old(f.state) == Empty
      ensures r == Busy <==> old(f.state) != Empty && leases.active > 0
      ensures r == InvalidState || r == Busy ==> f == old(f) && sdk.hw == old(sdk.hw)
      ensures r == Ok ==>
                f == old(f).(streaming := false, started := false, powered := false, held := f.held, exposure := false,
                             state := if old(f.state) == Faulted then Faulted else Initialized)
                && AllClear(f.held)
      ensures r == Failed ==>
                f == old(f).(streaming := f.streaming, started := f.started, powered := f.powered, held := f.held,
                             state := Faulted)
      ensures Fewer(f.held, old(f.held))
      ensures r == Ok || r == Failed || r == Busy || r == InvalidState
      ensures sdk.AllDone(old(sdk.asked)) ==> r != Failed
    {
      if f.state == Empty {
        return InvalidState;
      }
      if leases.active > 0 {
        return Busy;
      }
      var done := Quiesce();
      if !done {
        f := f.(state := Faulted);
        return Failed;
      }
      f := f.(exposure := false, state := if f.state == Faulted then Faulted else Initialized);
      r := Ok;
    }

    // ---- tearing down -----------------------------------------------------------------------------

    /** Unmaps what it can; what fails stays for a retry. */
    method CleanupOutputPool() returns (done: bool)
      requires Agrees()
      modifies this`f, sdk
      ensures Agrees() && sdk.asked >= old(sdk.asked)
      ensures done ==> f == old(f).(mapped := f.mapped, places := NoPlaces(), block := 0, poolKnown := false)
      ensures done ==> AllClear(f.mapped)
      ensures !done ==> f == old(f).(mapped := f.mapped, places := f.places, state := Faulted) && !AllClear(f.mapped)
      ensures sdk.early >= old(sdk.early)
      ensures sdk.early > old(sdk.early) <==> Flowing(old(sdk.hw)) && !AllClear(old(f.mapped))
      ensures sdk.AllDone(old(sdk.asked)) ==> done
    {
      done := UnmapAll();
      if done {
        f := f.(poolKnown := false, block := 0, places := NoPlaces());
      } else {
        f := f.(state := Faulted);
      }
    }

    method UnmapAll() returns (done: bool)
      requires Agrees()
      modifies this`f, sdk
      ensures Agrees() && sdk.asked >= old(sdk.asked)
      ensures f == old(f).(mapped := f.mapped, places := f.places) && (done <==> AllClear(f.mapped))
      ensures sdk.early >= old(sdk.early)
      ensures sdk.early > old(sdk.early) <==> Flowing(old(sdk.hw)) && !AllClear(old(f.mapped))
      ensures sdk.AllDone(old(sdk.asked)) ==> done
    {
      done := true;
      ghost var was, early, flows, count := f, sdk.early, Flowing(sdk.hw), 0;
      var i := 0;
      while i < BUFFERS
        invariant i <= BUFFERS && Unmapping(was, early, flows, i, done, count) && sdk.asked >= old(sdk.asked)
        invariant sdk.AllDone(old(sdk.asked)) ==> done
      {
        done, count := UnmapNext(was, early, flows, i, done, count);
        i := i + 1;
      }
    }

    /** The first `i` buffers have been tried: `count` of them were mapped, and if all went well, none is now. */
    ghost predicate Unmapping(was: Flags, early: nat, flows: bool, i: nat, done: bool, count: nat)
      reads this, sdk
    {
      && Agrees() && f == was.(mapped := f.mapped, places := f.places)
      && PartlyUnmapped(was.mapped, f.mapped, i, done, count)
      && Flowing(sdk.hw) == flows && sdk.early == early + (if flows then count else 0)
    }

    method UnmapNext(
        ghost was: Flags, ghost early: nat, ghost flows: bool, i: nat, sofar: bool, ghost count: nat)
      returns (done: bool, ghost more: nat)
      requires i < BUFFERS && Unmapping(was, early, flows, i, sofar, count)
      modifies this`f, sdk
      ensures Unmapping(was, early, flows, i + 1, done, more) && sdk.asked >= old(sdk.asked)
      ensures sofar && sdk.AllDone(old(sdk.asked)) ==> done
    {
      ghost var now := f.mapped;
      done := Unmap(i);
      NextUnmapped(was.mapped, now, i, sofar, count, done);
      done, more := sofar && done, count + (if was.mapped[i] then 1 else 0);
    }

    method Unmap(i: nat) returns (done: bool)
      requires Agrees() && i < BUFFERS
      modifies this`f, sdk
      ensures Agrees() && sdk.asked >= old(sdk.asked)
      ensures f == old(f).(mapped := old(f.mapped)[i := !done], places := f.places)
      ensures Flowing(sdk.hw) == Flowing(old(sdk.hw))
      ensures sdk.early == old(sdk.early) + (if Flowing(old(sdk.hw)) && old(f.mapped)[i] then 1 else 0)
      ensures sdk.AllDone(old(sdk.asked)) ==> done
    {
      done := true;
      if f.mapped[i] {
        done := sdk.Unmap(i);
        f := f.(mapped := f.mapped[i := !done]);
      }
      if done {
        f := f.(places := f.places[i := 0]);
      }
    }

    /** Stop, unmap, deinitialise VICAP, destroy the pool, detach: in that order, going on from where an earlier
        attempt failed. */
    method Cleanup() returns (r: Result)
      requires Agrees() && leases.Valid() && leases.active == 0 && f.state != Empty && |gray| == SLOTS
      requires f.started || f.powered || AllClear(f.held)
      modifies this`f, sdk, leases, leases.slots
      ensures Valid() && sdk.asked >= old(sdk.asked) && sdk.early == old(sdk.early) && leases.active == 0
      ensures r == Ok ==> f == BLANK
      ensures r != Ok ==> r == Failed && f.state == Faulted
      ensures sdk.AllDone(old(sdk.asked)) ==> r == Ok
    {
      if f.started || f.powered {
        var stopped := StopFirst();
        if !stopped {
          return Failed;
        }
      }
      r := GiveBack();
    }

    method StopFirst() returns (stopped: bool)
      requires Agrees() && leases.active == 0 && f.state != Empty
      modifies this`f, sdk`asked, sdk`hw
      ensures Agrees() && sdk.asked >= old(sdk.asked)
      ensures stopped ==> !f.started && !f.powered && AllClear(f.held)
      ensures !stopped ==> f.state == Faulted
      ensures sdk.AllDone(old(sdk.asked)) ==> stopped
    {
      var r := Stop();
      stopped := r == Ok;
    }

    method GiveBack() returns (r: Result)
      requires Agrees() && leases.Valid() && leases.active == 0 && |gray| == SLOTS
      requires !f.powered && !f.started && AllClear(f.held)
      modifies this`f, sdk, leases, leases.slots
      ensures Valid() && sdk.asked >= old(sdk.asked) && sdk.early == old(sdk.early) && leases.active == 0
      ensures r == Ok ==> f == BLANK
      ensures r != Ok ==> r == Failed && f.state == Faulted
      ensures sdk.AllDone(old(sdk.asked)) ==> r == Ok
    {
      var done := TearDown();
      if done {
        Blank();
        r := Ok;
      } else {
        f := f.(state := Faulted);
        r := Failed;
      }
    }

    method Blank()
      requires Agrees() && leases.Valid() && |gray| == SLOTS
      requires !f.media && !f.rawPool && !f.vicap && !f.gray && !f.poolKnown
      requires f.block == 0 && f.places == NoPlaces()
      requires !f.powered && !f.started && !f.streaming && AllClear(f.mapped) && AllClear(f.held)
      modifies this`f, leases, leases.slots
      ensures Valid() && f == BLANK && leases.active == 0
    {
      leases.Init(0);
      assert f.mapped == NoFlags() && f.held == NoFlags();
      f := f.(state := Empty, exposure := false);
    }

    method TearDown() returns (done: bool)
      requires Agrees() && !f.powered && !f.started && AllClear(f.held)
      modifies this`f, sdk
      ensures Agrees() && sdk.asked >= old(sdk.asked) && sdk.early == old(sdk.early)
      ensures !f.powered && !f.started && !f.streaming && AllClear(f.held)
      ensures done ==> !f.media && !f.rawPool && !f.vicap && !f.gray && !f.poolKnown && AllClear(f.mapped)
      ensures done ==> f.block == 0 && f.places == NoPlaces()
      ensures sdk.AllDone(old(sdk.asked)) ==> done
    {
      done := CleanupOutputPool();
      if !done {
        return;
      }
      if f.vicap {
        done := sdk.DeinitVicap();
        if !done {
          return;
        }
        f := f.(vicap := false);
      }
      if f.rawPool {
        done := sdk.DestroyPool();
        if !done {
          return;
        }
        f := f.(rawPool := false);
      }
      f := f.(gray := false);
      if f.media {
        done := sdk.Detach();
        if !done {
          return;
        }
        f := f.(media := false);
      }
      done := true;
    }

    /** Refuses while a lease is out. Fails only if some SDK call failed, and can then be called again. */
    method Deinit() returns (r: Result)
      requires Valid()
      modifies this`f, sdk, leases, leases.slots
      ensures Valid() && sdk.asked >= old(sdk.asked) && sdk.early == old(sdk.early)
      ensures old(NothingRetained()) ==> NothingRetained()
      ensures r == InvalidState <==> old(f.state) == Empty
      ensures r == Busy <==> old(f.state) != Empty && old(leases.active) > 0
      ensures r == InvalidState || r == Busy ==> f == old(f) && sdk.hw == old(sdk.hw)
      ensures r == Ok ==> f == BLANK && sdk.hw == OFF
      ensures r == Failed ==> f.state == Faulted && !sdk.AllDone(old(sdk.asked))
      ensures r == Ok || r == Failed || r == Busy || r == InvalidState
    {
      if f.state == Empty {
        return InvalidState;
      }
      if leases.active > 0 {
        return Busy;
      }
      r := DrainAndStop();
      if r == Ok {
        r := Cleanup();
      }
      IdleRetainsNothing();
    }

    lemma IdleRetainsNothing()
      requires Agrees() && leases.Valid() && leases.active == 0
      ensures NothingRetained()
    {
      HeldNone(leases.slots[..]);
    }

    /** The start of a teardown: dumps retained by a failed capture, then the stream. */
    method DrainAndStop() returns (r: Result)
      requires Agrees() && f.state != Empty && leases.active == 0
      modifies this`f, sdk`asked, sdk`hw
      ensures Agrees() && sdk.asked >= old(sdk.asked) && f.state != Empty
      ensures r == Ok ==> f.started || f.powered || AllClear(f.held)
      ensures r != Ok ==> r == Failed && f.state == Faulted && !sdk.AllDone(old(sdk.asked))
    {
      if !AllClear(f.held) && !f.started {
        var released := ReleaseDumps();
        if !released {
          f := f.(state := Faulted);
          return Failed;
        }
      }
      if f.started || f.powered {
        r := Stop();
      } else {
        r := Ok;
      }
    }

    /** Succeeds exactly when nothing at all is held. */
    method Destroy() returns (r: Result)
      requires Valid()
      ensures r == Ok <==> f.state == Empty
      ensures r == Ok ==> sdk.hw == OFF && leases.active == 0 && f == BLANK
      ensures r != Ok ==> r == Busy
    {
      if f.state != Empty || f.media || f.vicap || f.started || f.powered || f.rawPool || f.gray
         || !AllClear(f.held) || leases.active > 0 {
        return Busy;
      }
      r := Ok;
    }

    // ---- bringing up ------------------------------------------------------------------------------

    /** Attaches, probes, allocates and sets VICAP up; whatever fails, everything taken so far is given back, or
        the camera is left faulted holding it. `acceptable` stands for the configuration, `fits` for the probed
        mode, `memory` for the gray buffer, `block` for the bytes of one raw buffer. */
    method Init(
        acceptable: bool, fits: bool, memory: bool, capacity: nat, block: nat, wanted: Raw10.View)
      returns (r: Result)
      requires Valid()
      modifies this`f, this`view, sdk, leases, leases.slots
      ensures Valid() && sdk.asked >= old(sdk.asked) && sdk.early == old(sdk.early)
      ensures old(NothingRetained()) ==> NothingRetained()
      ensures r == Busy <==> old(f.state) != Empty
      ensures r == Busy ==> f == old(f) && sdk.hw == old(sdk.hw)
      ensures r == Ok ==> f.state == Initialized && leases.capacity == (if capacity > SLOTS then SLOTS else capacity)
      ensures r == Ok ==> view == wanted && f.block == block && !f.poolKnown && sdk.asked == old(sdk.asked) + 8
      ensures r == Failed ==> f.state == Empty || f.state == Faulted
      ensures r == Ok || r == Busy || r == Failed
      ensures old(f.state) == Empty && acceptable && fits && memory && DoneFrom(sdk.answers, old(sdk.asked), 8) ==>
                r == Ok
      ensures old(f.state) == Empty && acceptable && fits && memory && sdk.AllDone(old(sdk.asked)) ==> r == Ok
    {
      if f.state != Empty {
        return Busy;
      }
      if !acceptable {
        return Failed;
      }
      var done := sdk.Attach();
      if !done {
        return Failed;
      }
      leases.Init(capacity);
      view := wanted;
      f := f.(media := true, state := Initialized);
      done := TakeResources(fits, memory, block);
      if !done {
        var cleaned := Cleanup();
        IdleRetainsNothing();
        return Failed;
      }
      r := Ok;
    }

    method TakeResources(fits: bool, memory: bool, block: nat) returns (done: bool)
      requires Agrees() && f == BLANK.(media := true, state := Initialized)
      modifies this`f, sdk`asked, sdk`hw
      ensures Agrees() && sdk.asked >= old(sdk.asked)
      ensures f == BLANK.(media := true, state := Initialized, gray := f.gray, rawPool := f.rawPool, vicap := f.vicap,
                          block := f.block)
      ensures done ==> f.vicap && f.gray && f.block == block && sdk.asked == old(sdk.asked) + 7
      ensures fits && memory && DoneFrom(sdk.answers, old(sdk.asked), 7) ==> done
      ensures fits && memory && sdk.AllDone(old(sdk.asked)) ==> done
    {
      done := sdk.Query();
      if !done || !fits {
        return false;
      }
      done := sdk.Query();
      if !done || !memory {
        return false;
      }
      f := f.(gray := true);
      done := sdk.CreatePool();
      if !done {
        return;
      }
      f := f.(rawPool := true, block := block);
      done := sdk.Query();
      if !done {
        return;
      }
      done := InitializeMcm();
    }

    /** Even a failed VICAP initialisation counts as one that has to be undone. */
    method InitializeMcm() returns (done: bool)
      requires Agrees() && f.rawPool && !f.vicap
      modifies this`f, sdk`asked, sdk`hw
      ensures Agrees() && sdk.asked >= old(sdk.asked) && f == old(f).(vicap := f.vicap)
      ensures done ==> f.vicap && sdk.asked == old(sdk.asked) + 3
      ensures done <==> DoneFrom(sdk.answers, old(sdk.asked), 3)
      ensures sdk.AllDone(old(sdk.asked)) ==> done
    {
      done := sdk.Query();
      if !done {
        return;
      }
      done := sdk.InitVicap();
      f := f.(vicap := true);
      if !done {
        return;
      }
      done := sdk.Query();
    }

    /** Power, receiver, pixels, mappings, exposure. On any failure the camera is stopped again, or faulted. The one
        way to unmap buffers under a running stream is to fail at a later buffer of the ring. */
    method Start(lines: nat, probe: Probe) returns (r: Result)
      requires Valid() && |probe.blocks| == RING
      modifies this`f, sdk
      ensures Valid() && sdk.asked >= old(sdk.asked) && sdk.early >= old(sdk.early)
      ensures old(NothingRetained()) ==> NothingRetained()
      ensures r == InvalidState <==> old(f.state) != Initialized
      ensures r == InvalidState ==> f == old(f) && sdk.hw == old(sdk.hw)
      ensures r == Ok ==> f.state == Started && f.exposure && RingMapped(f)
      ensures r == Failed ==> f.state == Initialized || f.state == Faulted
      ensures r == Ok || r == Failed || r == InvalidState
      ensures sdk.early > old(sdk.early) ==> r == Failed
      ensures sdk.early > old(sdk.early) <==>
                && old(f.state) == Initialized && !old(f.poolKnown) && DoneFrom(sdk.answers, old(sdk.asked), 6)
                && UnmapsEarly(sdk.answers, old(sdk.asked) + 6, probe.blocks, old(f.block))
      ensures (old(f.state) == Initialized && (old(f.poolKnown) || Suits(probe, old(f.block)))
               && sdk.AllDone(old(sdk.asked))) ==> r == Ok
    {
      if f.state != Initialized {
        return InvalidState;
      }
      r := TryStart(lines, probe);
      IdleRetainsNothing();
    }

    method TryStart(lines: nat, probe: Probe) returns (r: Result)
      requires Valid() && f.state == Initialized && |probe.blocks| == RING
      modifies this`f, sdk
      ensures Valid() && sdk.asked >= old(sdk.asked) && sdk.early >= old(sdk.early)
      ensures r == Ok ==> f.state == Started && f.exposure
      ensures r == Failed ==> f.state == Initialized || f.state == Faulted
      ensures r == Ok || r == Failed
      ensures sdk.early > old(sdk.early) ==> r == Failed
      ensures sdk.early > old(sdk.early) <==>
                && !old(f.poolKnown) && DoneFrom(sdk.answers, old(sdk.asked), 6)
                && UnmapsEarly(sdk.answers, old(sdk.asked) + 6, probe.blocks, old(f.block))
      ensures (old(f.poolKnown) || Suits(probe, old(f.block))) && sdk.AllDone(old(sdk.asked)) ==> r == Ok
    {
      var done := BringUp(lines, probe);
      if done {
        f := f.(exposure := true);
        return Ok;
      }
      r := Stop();
      if r != Ok {
        f := f.(state := Faulted);
      }
      r := Failed;
    }

    method BringUp(lines: nat, probe: Probe) returns (done: bool)
      requires Agrees() && f.state == Initialized && f.vicap && f.gray && !f.powered && AllClear(f.held)
      requires |probe.blocks| == RING && (f.poolKnown ==> RingMapped(f))
      modifies this`f, sdk
      ensures Agrees() && sdk.asked >= old(sdk.asked) && f.vicap && f.gray && f.state != Empty
      ensures done ==> f.state == Started && f.streaming && AllClear(f.held) && RingMapped(f)
      ensures f.state != Faulted && f.poolKnown ==> RingMapped(f)
      ensures sdk.early >= old(sdk.early)
      ensures sdk.early > old(sdk.early) ==> !done
      ensures sdk.early > old(sdk.early) <==>
                && !old(f.poolKnown) && DoneFrom(sdk.answers, old(sdk.asked), 6)
                && UnmapsEarly(sdk.answers, old(sdk.asked) + 6, probe.blocks, old(f.block))
      ensures (old(f.poolKnown) || Suits(probe, old(f.block))) && sdk.AllDone(old(sdk.asked)) ==> done
    {
      done := sdk.Query();
      if done {
        done := SwitchOn();
      }
      if !done {
        return;
      }
      assert DoneFrom(sdk.answers, old(sdk.asked), 6) && sdk.asked == old(sdk.asked) + 6;
      done := PrepareFrameMappings(probe);
      if done && lines != 0 {
        done := SetExposureLines();
      }
    }

    /** The power and pixel flags are set before the calls: a refused call may still have acted. */
    method SwitchOn() returns (done: bool)
      requires Agrees() && f.vicap && !f.powered && AllClear(f.held)
      modifies this`f, sdk`asked, sdk`hw
      ensures Agrees() && sdk.asked >= old(sdk.asked)
      ensures f == old(f).(powered := true, started := f.started, streaming := f.streaming, exposure := f.exposure,
                           state := if f.started then Started else old(f.state))
      ensures done ==> f.streaming && f.started && sdk.asked == old(sdk.asked) + 5
      ensures done <==> DoneFrom(sdk.answers, old(sdk.asked), 5)
      ensures sdk.AllDone(old(sdk.asked)) ==> done
    {
      f := f.(powered := true);
      done := sdk.PowerOn();
      if !done {
        return;
      }
      done := sdk.Query();
      if !done {
        return;
      }
      done := sdk.Query();
      if !done {
        return;
      }
      done := sdk.StartReceiver();
      if !done {
        return;
      }
      f := f.(started := true, state := Started, exposure := false, streaming := true);
      done := sdk.StartPixels();
    }

    /** A transfer that fails half way leaves the sensor in an unknown state: faulted. */
    method SetExposureLines() returns (done: bool)
      requires Agrees()
      modifies this`f, sdk`asked
      ensures Agrees() && sdk.asked >= old(sdk.asked) && sdk.hw == old(sdk.hw)
      ensures done ==> f == old(f).(exposure := true)
      ensures !done ==> f == old(f) || f == old(f).(exposure := false, state := Faulted)
      ensures sdk.AllDone(old(sdk.asked)) ==> done
    {
      done := sdk.Query();
      if !done {
        return;
      }
      done := sdk.Query();
      f := if done then f.(exposure := true) else f.(exposure := false, state := Faulted);
    }

    /** Finds the driver's buffers from one dumped frame, maps them all once, and gives the frame back. */
    method PrepareFrameMappings(probe: Probe) returns (done: bool)
      requires Agrees() && f.streaming && AllClear(f.held) && f.state != Faulted
      requires |probe.blocks| == RING && (f.poolKnown ==> RingMapped(f))
      modifies this`f, sdk
      ensures Agrees() && sdk.asked >= old(sdk.asked)
      ensures f == old(f).(mapped := f.mapped, places := f.places, poolKnown := f.poolKnown, held := f.held,
                           state := f.state)
      ensures f.state == old(f.state) || f.state == Faulted
      ensures done ==> AllClear(f.held) && RingMapped(f) && f.state == old(f.state)
      ensures f.state != Faulted && f.poolKnown ==> RingMapped(f)
      ensures sdk.early >= old(sdk.early)
      ensures sdk.early > old(sdk.early) ==> !done
      ensures sdk.early > old(sdk.early) <==>
                !old(f.poolKnown) && UnmapsEarly(sdk.answers, old(sdk.asked), probe.blocks, old(f.block))
      ensures (old(f.poolKnown) || Suits(probe, old(f.block))) && sdk.AllDone(old(sdk.asked)) ==> done
    {
      if f.poolKnown {
        return true;
      }
      var tries := TryDump();
      if tries == 0 {
        return false;
      }
      TheTry(sdk.answers, old(sdk.asked), tries, probe.blocks, f.block);
      done := MapDumped(probe);
      var released := ReleaseDump(0);
      if !released {
        f := f.(state := Faulted);
      }
      done := done && released;
    }

    /** Dumps a frame, in up to three tries; 0 if none arrives. */
    method TryDump() returns (tries: nat)
      requires Agrees() && f.streaming && AllClear(f.held)
      modifies this`f, sdk`asked, sdk`hw
      ensures Agrees() && sdk.asked >= old(sdk.asked) && f == old(f).(held := f.held) && AllClear(f.held[1..])
      ensures tries != 0 ==>
                f.held[0] && Dumped(sdk.answers, old(sdk.asked), tries) && sdk.asked == old(sdk.asked) + tries
      ensures tries == 0 ==> AllClear(f.held) && forall n :: !Dumped(sdk.answers, old(sdk.asked), n)
      ensures sdk.AllDone(old(sdk.asked)) ==> tries != 0
    {
      var attempt := 0;
      while attempt < 3
        invariant attempt <= 3 && Agrees() && f == old(f) && sdk.asked == old(sdk.asked) + attempt
        invariant forall i :: old(sdk.asked) <= i < sdk.asked ==> sdk.answers(i) == NoFrame
      {
        var answer := sdk.Dump(0);
        f := f.(held := f.held[0 := answer == Done]);
        attempt := attempt + 1;
        if answer == Done {
          return attempt;
        }
        assert f.held == old(f.held);
        if answer != NoFrame {
          break;
        }
      }
      assert sdk.answers(sdk.asked - 1) != Done;
      tries := 0;
    }

    /** Checks the frame's geometry and pool, maps the pool's buffers, and looks the frame up among them. */
    method MapDumped(probe: Probe) returns (done: bool)
      requires Agrees() && f.started && AllClear(f.mapped) && !f.poolKnown && f.state != Faulted
      requires |probe.blocks| == RING
      modifies this`f, sdk
      ensures Agrees() && sdk.asked >= old(sdk.asked)
      ensures f == old(f).(mapped := f.mapped, places := f.places, poolKnown := f.poolKnown, state := f.state)
      ensures f.state == old(f.state) || f.state == Faulted
      ensures done ==> RingMapped(f) && f.state == old(f.state)
      ensures f.state != Faulted && f.poolKnown ==> RingMapped(f)
      ensures sdk.early >= old(sdk.early)
      ensures sdk.early > old(sdk.early) ==> !done
      ensures sdk.early > old(sdk.early) <==>
                sdk.answers(old(sdk.asked)) == Done
                && RollsBack(sdk.answers, old(sdk.asked) + 1, probe.blocks, old(f.block))
      ensures Suits(probe, old(f.block)) && sdk.AllDone(old(sdk.asked)) ==> done
    {
      done := sdk.Query();
      if done {
        done := PrepareOutputPool(probe.blocks);
      }
      if done {
        SuitsRing(probe, f);
        var place := FindMapping(probe.at, probe.length);
        done := place.Some?;
      }
    }

    /** Checks and maps the four buffers of the ring one by one; on a failure unmaps the others again. */
    method PrepareOutputPool(blocks: seq<nat>) returns (done: bool)
      requires Agrees() && f.started && AllClear(f.mapped) && !f.poolKnown && |blocks| == RING
      modifies this`f, sdk
      ensures Agrees() && sdk.asked >= old(sdk.asked)
      ensures f == old(f).(mapped := f.mapped, places := f.places, poolKnown := f.poolKnown, state := f.state)
      ensures done <==> old(f.block) > 0 && forall i :: 0 <= i < RING ==>
                          Maps(sdk.answers, old(sdk.asked), blocks, old(f.block), i)
      ensures done ==> RingMapped(f) && f.places[..RING] == blocks && f.state == old(f.state)
      ensures !done ==> f.state == Faulted || (f.state == old(f.state) && !f.poolKnown && AllClear(f.mapped))
      ensures sdk.early >= old(sdk.early)
      ensures sdk.early > old(sdk.early) <==> RollsBack(sdk.answers, old(sdk.asked), blocks, old(f.block))
      ensures (old(f.block) > 0 && (forall i :: 0 <= i < RING ==> Placed(blocks, old(f.block), i))
               && sdk.AllDone(old(sdk.asked))) ==> done
    {
      if f.block == 0 {
        return false;
      }
      ghost var first := sdk.asked;
      f := f.(poolKnown := true);
      var i := 0;
      while i < RING
        invariant i <= RING && Agrees() && sdk.asked == first + i && sdk.early == old(sdk.early)
        invariant f == old(f).(mapped := f.mapped, places := f.places, poolKnown := true)
        invariant FirstMapped(f, sdk.answers, first, blocks, i)
      {
        done := MapOne(blocks, i, first);
        if !done {
          FirstFails(f, sdk.answers, first, blocks, i);
          RollBack();
          return;
        }
        i := i + 1;
      }
      AllFirst(f, sdk.answers, first, blocks);
      done := true;
    }

    method MapOne(blocks: seq<nat>, i: nat, ghost first: nat) returns (done: bool)
      requires Agrees() && f.started && f.poolKnown && |blocks| == RING && i < RING && !f.mapped[i]
      requires sdk.asked == first + i
      modifies this`f, sdk`asked, sdk`hw
      ensures Agrees() && sdk.asked >= old(sdk.asked) && sdk.hw.receiver
      ensures f == old(f).(mapped := old(f.mapped)[i := done], places := old(f.places)[i := blocks[i]])
      ensures done <==> Maps(sdk.answers, first, blocks, f.block, i)
      ensures done ==> sdk.asked == first + i + 1
      ensures Placed(blocks, f.block, i) && sdk.AllDone(old(sdk.asked)) ==> done
    {
      f := f.(places := f.places[i := blocks[i]]);
      done := Placed(blocks, f.block, i);
      if done {
        done := sdk.Map(i);
        f := f.(mapped := f.mapped[i := done]);
      }
    }

    /** Unmaps what was mapped so far, keeping the size of a buffer for the next attempt. */
    method RollBack()
      requires Agrees()
      modifies this`f, sdk
      ensures Agrees() && sdk.asked >= old(sdk.asked)
      ensures f == old(f).(mapped := f.mapped, places := f.places, poolKnown := f.poolKnown, state := f.state)
      ensures f.state == Faulted || (f.state == old(f.state) && !f.poolKnown && AllClear(f.mapped))
      ensures sdk.early >= old(sdk.early)
      ensures sdk.early > old(sdk.early) <==> Flowing(old(sdk.hw)) && !AllClear(old(f.mapped))
    {
      var block := f.block;
      var cleaned := CleanupOutputPool();
      f := f.(block := block);
    }

    /** The mapped buffer that a frame lies in, and where in it. */
    method FindMapping(at: nat, length: nat) returns (place: Option<(nat, nat)>)
      requires Agrees()
      ensures place.Some? ==>
                var (i, offset) := place.value;
                i < RING && f.mapped[i] && at == f.places[i] + offset && offset + length <= f.block
      ensures place.Some? <==> Within(f, at, length)
    {
      var i := 0;
      while i < RING
        invariant i <= RING
        invariant forall j :: 0 <= j < i && f.mapped[j] && f.places[j] != 0 ==>
                    !Covers(f.places[j], f.block, at, length)
      {
        if f.places[i] != 0 && f.mapped[i] && at >= f.places[i] {
          var offset := at - f.places[i];
          if offset <= f.block && length <= f.block - offset {
            return Some((i, offset));
          }
        }
        i := i + 1;
      }
      place := None;
    }

    // ---- capturing --------------------------------------------------------------------------------

    /** Reserves a slot, dumps, checks and converts one frame, and gives the dump back before the lease is
        published. `shot` says where the frame lies and which bytes are there. A failure frees the slot again and
        touches no published frame; only a dump that the SDK will not take back is kept, and faults the camera. */
    method AcquireFrame(timeout: nat, shot: Shot) returns (r: Result, frame: Acquired)
      requires Valid()
      modifies this`f, this`gray, sdk`asked, sdk`hw, leases`nextToken, leases`active, leases.slots
      ensures Valid() && leases.capacity == old(leases.capacity)
      ensures forall t :: old(leases.Retired(t)) ==> leases.Retired(t)
      ensures old(NothingRetained()) ==> NothingRetained()
      ensures r == Ok <==> frame.Leased?
      ensures frame.Leased? ==>
                && frame.slot < leases.capacity && old(leases.slots[..])[frame.slot] == 0 && !f.held[frame.slot]
                && frame.token == old(leases.nextToken) + 1
                && leases.slots[..] == old(leases.slots[..])[frame.slot := frame.token]
                && leases.active == old(leases.active) + 1 && leases.nextToken == frame.token
                && gray == old(gray)[frame.slot := gray[frame.slot]] && Depicts(view, shot.raw, gray[frame.slot])
                && f == old(f)
      ensures !frame.Leased? ==> leases.slots[..] == old(leases.slots[..]) && leases.active == old(leases.active)
      ensures r == Busy ==> f == old(f) && sdk.asked == old(sdk.asked) && old(leases.active) >= leases.capacity
      ensures old(f.state) != Started ==> r == InvalidState && f == old(f)
      ensures forall i :: 0 <= i < SLOTS && old(leases.slots[..])[i] != 0 ==> gray[i] == old(gray)[i]
      ensures f.state == old(f.state) || (f.state == Faulted && !AllClear(f.held))
      ensures (old(f.state) == Started && old(f.exposure) && timeout <= 1000
               && Converts(view, shot.raw) && Within(old(f), shot.at, |shot.raw|)
               && old(leases.active) < leases.capacity && old(leases.nextToken) < MAX_TOKEN
               && sdk.AllDone(old(sdk.asked))) ==> r == Ok
    {
      if f.state != Started || !f.exposure {
        return InvalidState, OutOfTokens;
      }
      if timeout > 1000 {
        return OutOfRange, OutOfTokens;
      }
      frame := leases.Acquire();
      if !frame.Leased? {
        return if frame.Exhausted? then Busy else OutOfRange, frame;
      }
      r := Fill(frame.slot, shot);
      if r != Ok {
        assert leases.slots[..] == old(leases.slots[..]);
        frame := OutOfTokens;
      }
    }

    /** Dumps a frame into a reserved slot, or frees the slot again. */
    method Fill(slot: nat, shot: Shot) returns (r: Result)
      requires Agrees() && leases.Valid() && f.state == Started && Settled(f, 0) && slot < SLOTS == |gray|
      requires leases.slots[slot] != 0
      modifies this`f, this`gray, sdk`asked, sdk`hw, leases`active, leases.slots
      ensures Agrees() && leases.Valid() && r != Busy && sdk.asked >= old(sdk.asked)
      ensures forall t :: old(leases.Retired(t)) ==> leases.Retired(t)
      ensures |gray| == SLOTS && gray == old(gray)[slot := gray[slot]]
      ensures r == Ok ==>
                && Depicts(view, shot.raw, gray[slot]) && f == old(f)
                && leases.slots[..] == old(leases.slots[..]) && leases.active == old(leases.active)
      ensures r != Ok ==>
                && leases.slots[..] == old(leases.slots[..])[slot := 0] && leases.active == old(leases.active) - 1
                && f == old(f).(held := f.held, state := f.state) && |f.held| == DUMPS
                && (if AllClear(f.held) then f.state == Started else f.state == Faulted)
      ensures Converts(view, shot.raw) && Within(old(f), shot.at, |shot.raw|) && sdk.AllDone(old(sdk.asked)) ==> r == Ok
      ensures forall i :: 0 <= i < DUMPS && i != slot ==> !f.held[i]
    {
      var answer := sdk.Dump(slot);
      f := f.(held := f.held[slot := answer == Done]);
      if answer != Done {
        leases.Commit(slot);
        return if answer == NoFrame then NoFrameYet else Failed;
      }
      var done := Convert(slot, shot);
      if !done {
        Abandon(slot);
        return Failed;
      }
      r := Ok;
    }

    /** Everything between a successful dump and the published lease. */
    method Convert(slot: nat, shot: Shot) returns (done: bool)
      requires Agrees() && slot < SLOTS == |gray| && f.held[slot]
      modifies this`f, this`gray, sdk`asked, sdk`hw
      ensures Agrees() && sdk.asked >= old(sdk.asked)
      ensures f == old(f).(held := old(f.held)[slot := f.held[slot]])
      ensures |gray| == SLOTS && gray == old(gray)[slot := gray[slot]]
      ensures done ==> !f.held[slot] && Depicts(view, shot.raw, gray[slot])
      ensures Converts(view, shot.raw) && Within(old(f), shot.at, |shot.raw|) && sdk.AllDone(old(sdk.asked)) ==> done
    {
      var place := FindMapping(shot.at, |shot.raw|);
      if place.None? {
        return false;
      }
      done := sdk.Query();
      if !done {
        return;
      }
      var image;
      done, image := Develop(view, shot.raw);
      gray := gray[slot := image];
      if !done {
        return;
      }
      done := ReleaseDump(slot);
      if !done {
        return;
      }
      done := sdk.Query();
    }

    /** Gives the dump back if the SDK takes it, and the slot in any case. */
    method Abandon(slot: nat)
      requires Agrees() && leases.Valid() && slot < SLOTS
      modifies this`f, sdk`asked, sdk`hw, leases`active, leases.slots
      ensures Agrees() && leases.Valid() && sdk.asked >= old(sdk.asked)
      ensures f == old(f).(held := old(f.held)[slot := f.held[slot]], state := f.state)
      ensures if f.held[slot] then f.state == Faulted else f.state == old(f.state)
      ensures old(leases.slots[..])[slot] != 0 ==>
                leases.slots[..] == old(leases.slots[..])[slot := 0] && leases.active == old(leases.active) - 1
      ensures forall t :: old(leases.Retired(t)) ==> leases.Retired(t)
    {
      var released := ReleaseDump(slot);
      leases.Commit(slot);
      if !released {
        f := f.(state := Faulted);
      }
    }

    /** A token that is not held is refused and changes nothing. A held one is freed for good, unless its slot
        still holds a dump that the SDK will not take back: then the lease stays, and the call can be repeated. */
    method ReleaseFrame(h: Handle) returns (r: Result)
      requires Valid()
      modifies this`f, sdk`asked, sdk`hw, leases`active, leases.slots
      ensures Valid() && gray == old(gray) && leases.nextToken == old(leases.nextToken)
      ensures leases.capacity == old(leases.capacity) && f == old(f).(held := f.held)
      ensures old(NothingRetained()) ==> NothingRetained() && r != Failed
      ensures forall t :: old(leases.Retired(t)) ==> leases.Retired(t)
      ensures r == AbiMismatch <==> !h.current
      ensures r == StaleLease <==>
                h.current
                && (!h.ours || h.token == 0 || forall i :: 0 <= i < SLOTS ==> old(leases.slots[..])[i] != h.token)
      ensures r == Ok ==> leases.Retired(h.token) && leases.active == old(leases.active) - 1
      ensures r == Ok ==>
                forall i :: 0 <= i < SLOTS ==>
                  leases.slots[i] == if old(leases.slots[..])[i] == h.token then 0 else old(leases.slots[..])[i]
      ensures r != Ok ==> leases.slots[..] == old(leases.slots[..]) && leases.active == old(leases.active)
      ensures r == Failed ==> exists i :: 0 <= i < SLOTS && leases.slots[i] == h.token && f.held[i]
      ensures r == Ok || r == Failed || r == AbiMismatch || r == StaleLease
      ensures sdk.AllDone(old(sdk.asked)) ==> r != Failed
    {
      var found := leases.Resolve(h);
      r := match found
        case Mismatch => AbiMismatch
        case Stale => StaleLease
        case Slot(slot) => Ok;
      if found.Slot? {
        r := ReleaseSlot(found.slot);
      }
    }

    method ReleaseSlot(slot: nat) returns (r: Result)
      requires Valid() && slot < SLOTS && leases.slots[slot] != 0
      modifies this`f, sdk`asked, sdk`hw, leases`active, leases.slots
      ensures Valid() && leases.capacity == old(leases.capacity) && f == old(f).(held := f.held)
      ensures forall t :: old(leases.Retired(t)) ==> leases.Retired(t)
      ensures r == Ok ==>
                && leases.slots[..] == old(leases.slots[..])[slot := 0] && leases.active == old(leases.active) - 1
                && leases.Retired(old(leases.slots[..])[slot])
      ensures r != Ok ==>
                && r == Failed && leases.slots[..] == old(leases.slots[..]) && leases.active == old(leases.active)
                && f.held[slot]
      ensures Fewer(f.held, old(f.held)) && sdk.asked >= old(sdk.asked)
      ensures sdk.AllDone(old(sdk.asked)) ==> r == Ok
    {
      var done := ReleaseDump(slot);
      if !done {
        return Failed;
      }
      leases.Commit(slot);
      r := Ok;
    }
  }

  /** A run that unmaps under a running stream: after a good start the second buffer cannot be mapped, and the first
      is unmapped while the receiver runs and the probing dump is out. */
  method EarlyUnmapping() returns (s: Sdk, c: Camera, r: Result)
    ensures c.sdk == s && s.early > 0 && r == Failed
  {
    s := new Sdk(n => if n == 17 then Refused else Done);
    c := new Camera(s);
    SecondBufferFails(s.answers);
    var up := c.Init(true, true, true, 1, 0x1000, c.view);
    assert s.asked == 8 && DoneFrom(s.answers, s.asked, 6);
    assert UnmapsEarly(s.answers, s.asked + 6, FourBlocks(), c.f.block);
    r := c.Start(0, Probe(FourBlocks(), 0x1_0000, 0x1000));
  }

  function FourBlocks(): seq<nat> { [0x1_0000, 0x1_1000, 0x1_2000, 0x1_3000] }

  lemma SecondBufferFails(answers: nat -> Answer)
    requires forall n :: answers(n) == if n == 17 then Refused else Done
    ensures DoneFrom(answers, 0, 8) && DoneFrom(answers, 8, 6) && UnmapsEarly(answers, 14, FourBlocks(), 0x1000)
  {
    assert Maps(answers, 16, FourBlocks(), 0x1000, 0) && !Maps(answers, 16, FourBlocks(), 0x1000, 1);
    assert Dumped(answers, 14, 1) && Accepted(answers, 14, 1, FourBlocks(), 0x1000);
  }
}
