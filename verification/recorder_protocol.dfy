/** The recorder's capture, image-worker and supervisor threads as one machine of indivisible steps, and what
    holds in every interleaving. Each event is one critical section of one thread; whatever the code leaves to
    chance (a try-lock, a thread or file that cannot be created, the disk) is part of the event. */
module RecorderProtocol {
  import opened Bytes
  import opened Products

  datatype FrameView = FrameView(width: nat, height: nat, stride: nat, luma: seq<Byte>, receivedUs: int)

  /** A move-only handle; an empty one has no view. */
  datatype Lease = Lease(id: nat, view: Option<FrameView>)

  datatype Config = Config(width: nat, height: nat, fps: nat, slots: nat, recordBytes: nat, variable: bool)

  predicate Usable(c: Config) {
    c.width > 0 && c.height > 0 && c.fps > 0 && c.slots > 0 && c.recordBytes > 0
  }

  predicate ValidView(c: Config, v: FrameView) {
    && v.width == c.width && v.height == c.height && v.stride >= v.width
    && v.height > 0 && (v.height - 1) * v.stride + v.width <= |v.luma|
  }

  /** The pixel at position `i` of the frame, rows closed up. */
  function Sample(v: FrameView, i: nat): Byte
    requires v.width > 0
  {
    var at := i / v.width * v.stride + i % v.width;
    if at < |v.luma| then v.luma[at] else 0
  }

  function ImageOf(c: Config, v: FrameView): (image: seq<Byte>)
    requires v.width > 0
    ensures |image| == c.width * c.height
  {
    seq(c.width * c.height, i requires 0 <= i => Sample(v, i))
  }

  /** Every copied pixel is the one the view shows there; padding at the end of rows is skipped. */
  lemma CopiedPixel(c: Config, v: FrameView, x: nat, y: nat)
    requires ValidView(c, v) && x < c.width && y < c.height
    ensures 0 <= y * c.width + x < c.width * c.height && 0 <= y * v.stride + x < |v.luma|
    ensures ImageOf(c, v)[y * c.width + x] == v.luma[y * v.stride + x]
  {
    OneMoreStep(y, c.width);
    ScaleMonotone(y + 1, c.height, c.width);
    ScaleMonotone(y, c.height - 1, v.stride);
    QuotientUnique(y * c.width + x, c.width, y, x);
  }

  /** Which 1/fps interval a frame falls into, computed from whole seconds and microseconds separately. */
  function Tick(c: Config, receivedUs: nat): nat {
    receivedUs / 1000000 * c.fps + receivedUs % 1000000 * c.fps / 1000000
  }

  datatype Admission = Accepted | Downsampled | Busy | Stopped | InvalidFrame

  datatype Submission = Submission(lease: Lease, admission: Admission)

  datatype Queued = Queued(image: seq<Byte>, index: nat, offset: nat)

  /** Where the capture thread is: between calls, in `try_submit` before or after it locked the queue, or in
      `drain_releases` holding a lease it took out. */
  datatype Capture = Idle | Admitting(lease: Lease) | Copying(lease: Lease) | Releasing(lease: Lease)

  datatype Worker = Absent | Waiting | Reading | Finishing | Exited

  /** Where the supervisor is; it holds the lifecycle lock everywhere but at rest. */
  datatype Owner = Resting | Starting | Checking | Joining

  datatype Disk = Stored(size: nat) | Failed

  datatype State = State(
    accepting: bool, limitReached: bool, startedOnce: bool, writeFailed: bool,
    nextTick: nat, reserved: nat, bytes: nat, limit: nat,
    queue: seq<Queued>, releases: seq<Lease>, capture: Capture, worker: Worker, owner: Owner,
    returned: seq<Submission>, released: seq<Lease>, admitted: seq<Lease>, written: seq<seq<Byte>>)

  datatype Event =
    | LifecycleBusy(offer: Lease)
    | Submit(lease: Lease, enabled: bool)
    | Admit(locked: bool)
    | Commit
    | DrainTake
    | DrainGive
    | Take
    | Exit
    | Write(disk: Disk)
    | Finish
    | Start(budget: Option<nat>)
    | ThreadCreated(ok: bool)
    | EventsStarted(ok: bool)
    | Stop
    | Joined

  function Initial(): State {
    State(false, false, false, false, 0, 0, 0, 0, [], [], Idle, Absent, Resting, [], [], [], [])
  }

  predicate MutexFree(s: State) { !s.capture.Copying? }

  /** The capture thread holds the lifecycle lock during `try_submit`. */
  predicate LifecycleFree(s: State) {
    s.owner == Resting && !s.capture.Admitting? && !s.capture.Copying?
  }

  function Return(s: State, lease: Lease, a: Admission): State {
    s.(capture := Idle, returned := s.returned + [Submission(lease, a)])
  }

  /** `try_submit` up to its attempt to lock the queue. */
  function SubmitStep(c: Config, s: State, lease: Lease, enabled: bool): State
    requires Usable(c)
  {
    if !enabled then Return(s, lease, Stopped)
    else if lease.view.None? then Return(s, lease, InvalidFrame)
    else if !s.startedOnce || s.limitReached then Return(s, lease, Stopped)
    else if !ValidView(c, lease.view.value) || lease.view.value.receivedUs < 0 then Return(s, lease, InvalidFrame)
    else
      var tick := Tick(c, lease.view.value.receivedUs);
      if tick < s.nextTick then Return(s, lease, Downsampled)
      else s.(nextTick := tick + 1, capture := Admitting(lease))
  }

  predicate NoRoom(c: Config, s: State) { !c.variable && c.recordBytes > s.limit - s.reserved }

  /** `try_submit` from the queue lock to the start of the copy. */
  function AdmitStep(c: Config, s: State, locked: bool): State
    requires s.capture.Admitting?
  {
    var lease := s.capture.lease;
    if !locked then Return(s, lease, Busy)
    else if !s.accepting then Return(s, lease, Stopped)
    else if |s.queue| >= c.slots || |s.releases| >= c.slots then Return(s, lease, Busy)
    else if NoRoom(c, s) then Return(s.(accepting := false, limitReached := true), lease, Stopped)
    else s.(capture := Copying(lease))
  }

  /** The copied frame joins the queue, its lease the releases. */
  function PushStep(c: Config, s: State, lease: Lease): State
    requires lease.view.Some? && lease.view.value.width > 0
  {
    var entry := Queued(ImageOf(c, lease.view.value), |s.admitted| + 1, s.reserved);
    s.(queue := s.queue + [entry], releases := s.releases + [lease], admitted := s.admitted + [lease])
  }

  /** A frame is charged to the budget; the last one that fits ends admission. */
  function ChargeStep(c: Config, s: State): State {
    var charged := if c.variable then s else s.(reserved := s.reserved + c.recordBytes);
    if NoRoom(c, charged) then charged.(accepting := false, limitReached := true) else charged
  }

  /** The end of `try_submit`, still under the queue lock, once every pixel is copied. */
  function CommitStep(c: Config, s: State): State
    requires s.capture.Copying? && s.capture.lease.view.Some? && s.capture.lease.view.value.width > 0
  {
    Return(ChargeStep(c, PushStep(c, s, s.capture.lease)), s.capture.lease, Accepted)
  }

  /** The worker outside the lock. After a failed write it only skips. */
  function WriteStep(c: Config, s: State, disk: Disk): State
    requires s.queue != []
  {
    var done := s.(worker := Finishing);
    if s.writeFailed then done
    else
      match disk
      case Failed => done.(writeFailed := true)
      case Stored(n) =>
        var size := if c.variable then n else c.recordBytes;
        if size > s.limit - s.bytes then
          done.(writeFailed := true, limitReached := s.limitReached || c.variable)
        else
          var full := c.variable && s.bytes + size == s.limit;
          done.(bytes := s.bytes + size, written := s.written + [s.queue[0].image],
                limitReached := s.limitReached || full, writeFailed := full)
  }

  function FinishStep(s: State): State
    requires s.queue != []
  {
    s.(queue := s.queue[1..], worker := Waiting, accepting := s.accepting && !s.writeFailed)
  }

  /** A session with nothing in it yet. */
  function OpenedStep(s: State, limit: nat): State {
    s.(accepting := true, startedOnce := false, limitReached := false, writeFailed := false, nextTick := 0,
       reserved := 0, bytes := 0, limit := limit, queue := [], releases := [], admitted := [], written := [],
       owner := Starting)
  }

  function StartStep(c: Config, s: State, budget: Option<nat>): State {
    if s.worker != Absent || s.releases != [] then s
    else if budget.None? || (!c.variable && c.recordBytes > budget.value) then
      s.(startedOnce := false, limitReached := false)
    else OpenedStep(s, budget.value)
  }

  /** One step, if the event can happen in this state. */
  function Step(c: Config, s: State, e: Event): Option<State>
    requires Usable(c)
  {
    match e
    case LifecycleBusy(lease) => if s.capture == Idle then Some(Return(s, lease, Busy)) else None
    case Submit(lease, enabled) =>
      if s.capture == Idle && LifecycleFree(s) then Some(SubmitStep(c, s, lease, enabled)) else None
    case Admit(locked) => if s.capture.Admitting? then Some(AdmitStep(c, s, locked)) else None
    case Commit =>
      if s.capture.Copying? && s.capture.lease.view.Some? && s.capture.lease.view.value.width > 0
      then Some(CommitStep(c, s)) else None
    case DrainTake =>
      if s.capture == Idle && s.releases != []
      then Some(s.(capture := Releasing(s.releases[0]), releases := s.releases[1..])) else None
    case DrainGive =>
      if s.capture.Releasing? then Some(s.(capture := Idle, released := s.released + [s.capture.lease])) else None
    case Take =>
      if s.worker == Waiting && MutexFree(s) && s.queue != [] then Some(s.(worker := Reading)) else None
    case Exit =>
      if s.worker == Waiting && MutexFree(s) && s.queue == [] && !s.accepting then Some(s.(worker := Exited)) else None
    case Write(disk) => if s.worker == Reading && s.queue != [] then Some(WriteStep(c, s, disk)) else None
    case Finish => if s.worker == Finishing && MutexFree(s) && s.queue != [] then Some(FinishStep(s)) else None
    case Start(budget) => if LifecycleFree(s) then Some(StartStep(c, s, budget)) else None
    case ThreadCreated(ok) =>
      if s.owner != Starting then None
      else if ok then Some(s.(worker := Waiting, owner := Checking))
      else Some(s.(accepting := false, owner := Resting))
    case EventsStarted(ok) =>
      if s.owner != Checking then None
      else if ok then Some(s.(startedOnce := true, owner := Resting))
      else Some(s.(accepting := false, owner := Joining))
    case Stop =>
      if !LifecycleFree(s) then None
      else Some(s.(accepting := false, owner := if s.worker == Absent then Resting else Joining))
    case Joined =>
      if s.owner == Joining && s.worker == Exited then Some(s.(worker := Absent, owner := Resting)) else None
  }

  function RunFrom(c: Config, s: State, events: seq<Event>): (r: Option<State>)
    requires Usable(c)
    decreases |events|
  {
    if events == [] then Some(s)
    else
      match RunFrom(c, s, events[..|events| - 1])
      case None => None
      case Some(t) => Step(c, t, events[|events| - 1])
  }

  function Run(c: Config, events: seq<Event>): Option<State>
    requires Usable(c)
  {
    RunFrom(c, Initial(), events)
  }

  // ---- the invariant ------------------------------------------------------------------------------

  /** The leases of accepted submissions, in order. */
  function AcceptedIn(returned: seq<Submission>): seq<Lease> {
    if returned == [] then []
    else
      var last := returned[|returned| - 1];
      AcceptedIn(returned[..|returned| - 1]) + (if last.admission == Accepted then [last.lease] else [])
  }

  function InHand(s: State): seq<Lease> {
    if s.capture.Releasing? then [s.capture.lease] else []
  }

  /** Each accepted lease is, in order of acceptance, released, about to be, or queued for it. */
  ghost predicate LeasesConserved(
      returned: seq<Submission>, released: seq<Lease>, hand: seq<Lease>, releases: seq<Lease>)
  {
    AcceptedIn(returned) == released + hand + releases
  }

  predicate Admissible(c: Config, lease: Lease) {
    lease.view.Some? && ValidView(c, lease.view.value) && lease.view.value.receivedUs >= 0
  }

  function TickOf(c: Config, lease: Lease): nat
    requires Admissible(c, lease)
  {
    Tick(c, lease.view.value.receivedUs)
  }

  /** The queue entry of the `k`-th admitted frame. */
  function EntryOf(c: Config, lease: Lease, k: nat): Queued
    requires Usable(c) && Admissible(c, lease)
  {
    Queued(ImageOf(c, lease.view.value), k + 1, if c.variable then 0 else k * c.recordBytes)
  }

  function Taken(s: State): int { |s.admitted| - |s.queue| }

  /** How many frames the worker has dealt with. */
  function Handled(s: State): int { Taken(s) + (if s.worker == Finishing then 1 else 0) }

  ghost predicate AllAdmissible(c: Config, admitted: seq<Lease>) {
    forall k :: 0 <= k < |admitted| ==> Admissible(c, admitted[k])
  }

  /** The queue is the end of the admitted frames, from the `taken`-th on. */
  ghost predicate QueueIsRest(c: Config, queue: seq<Queued>, admitted: seq<Lease>, taken: int)
    requires Usable(c) && AllAdmissible(c, admitted)
  {
    && 0 <= taken && |queue| == |admitted| - taken
    && forall k :: taken <= k < |admitted| ==> queue[k - taken] == EntryOf(c, admitted[k], k)
  }

  /** What is in the file: the admitted frames in order, all those handled unless a write failed. */
  ghost predicate WrittenIsPrefix(
      c: Config, written: seq<seq<Byte>>, admitted: seq<Lease>, handled: int, failed: bool)
    requires Usable(c) && AllAdmissible(c, admitted)
  {
    && |written| <= handled <= |admitted|
    && (!failed ==> |written| == handled)
    && (forall k :: 0 <= k < |written| ==> written[k] == ImageOf(c, admitted[k].view.value))
  }

  /** Frames are admitted in distinct, rising intervals. */
  ghost predicate Rising(c: Config, admitted: seq<Lease>)
    requires Usable(c) && AllAdmissible(c, admitted)
  {
    forall i, j :: 0 <= i < j < |admitted| ==> TickOf(c, admitted[i]) < TickOf(c, admitted[j])
  }

  ghost predicate AllBefore(c: Config, admitted: seq<Lease>, tick: nat)
    requires Usable(c) && AllAdmissible(c, admitted)
  {
    forall i :: 0 <= i < |admitted| ==> TickOf(c, admitted[i]) < tick
  }

  ghost predicate Pacing(c: Config, admitted: seq<Lease>, capture: Capture, nextTick: nat)
    requires Usable(c) && AllAdmissible(c, admitted)
  {
    && Rising(c, admitted) && AllBefore(c, admitted, nextTick)
    && (capture.Admitting? || capture.Copying? ==>
          && Admissible(c, capture.lease) && TickOf(c, capture.lease) < nextTick
          && AllBefore(c, admitted, TickOf(c, capture.lease)))
  }

  ghost predicate Budget(
      c: Config, accepting: bool, limitReached: bool, reserved: nat, bytes: nat, limit: nat, admitted: nat,
      written: nat)
  {
    && bytes <= limit
    && (c.variable ==> reserved == 0)
    && (!c.variable ==>
          && reserved == admitted * c.recordBytes <= limit
          && bytes == written * c.recordBytes
          && (accepting ==> c.recordBytes <= limit - reserved)
          && (limitReached ==> c.recordBytes > limit - reserved))
  }

  ghost predicate Threads(
      c: Config, accepting: bool, queued: nat, releasing: nat, capture: Capture, worker: Worker, owner: Owner)
  {
    && queued <= c.slots && releasing <= c.slots
    && (owner != Resting ==> !capture.Admitting? && !capture.Copying?)
    && (worker == Absent ==> queued == 0 && (accepting ==> owner == Starting))
    && (worker == Exited ==> queued == 0 && !accepting)
    && (worker == Reading || worker == Finishing ==> queued > 0)
    && (owner == Starting ==> worker == Absent)
    && (owner == Joining ==> worker != Absent && !accepting)
    && (owner == Checking ==> worker != Absent)
    && (capture.Copying? ==> accepting && queued < c.slots && releasing < c.slots)
  }

  ghost predicate Inv(c: Config, s: State)
    requires Usable(c)
  {
    && LeasesConserved(s.returned, s.released, InHand(s), s.releases) && AllAdmissible(c, s.admitted)
    && QueueIsRest(c, s.queue, s.admitted, Taken(s))
    && WrittenIsPrefix(c, s.written, s.admitted, Handled(s), s.writeFailed)
    && Pacing(c, s.admitted, s.capture, s.nextTick)
    && Budget(c, s.accepting, s.limitReached, s.reserved, s.bytes, s.limit, |s.admitted|, |s.written|)
    && Threads(c, s.accepting, |s.queue|, |s.releases|, s.capture, s.worker, s.owner)
  }

  lemma InitialInv(c: Config)
    requires Usable(c)
    ensures Inv(c, Initial())
  {
  }

  lemma AcceptedAppend(returned: seq<Submission>, lease: Lease, a: Admission)
    ensures AcceptedIn(returned + [Submission(lease, a)])
         == AcceptedIn(returned) + (if a == Accepted then [lease] else [])
  {
    var longer := returned + [Submission(lease, a)];
    assert longer[..|longer| - 1] == returned;
  }

  /** Handing the lease back changes nothing else. */
  lemma ReturnKeeps(c: Config, s: State, lease: Lease, a: Admission)
    requires Usable(c) && Inv(c, s) && a != Accepted && !s.capture.Releasing?
    ensures Inv(c, Return(s, lease, a))
  {
    AcceptedAppend(s.returned, lease, a);
  }

  lemma SubmitKeeps(c: Config, s: State, lease: Lease, enabled: bool)
    requires Usable(c) && Inv(c, s) && s.capture == Idle && LifecycleFree(s)
    ensures Inv(c, SubmitStep(c, s, lease, enabled))
  {
    var t := SubmitStep(c, s, lease, enabled);
    if t.capture.Admitting? {
      var tick := TickOf(c, lease);
      assert t == s.(nextTick := tick + 1, capture := Admitting(lease));
      AdmittingKeeps(c, s, lease, tick);
    } else {
      RefusedSubmission(c, s, lease, enabled);
      ReturnKeeps(c, s, lease, t.returned[|s.returned|].admission);
    }
  }

  lemma RefusedSubmission(c: Config, s: State, lease: Lease, enabled: bool)
    requires Usable(c) && !SubmitStep(c, s, lease, enabled).capture.Admitting?
    ensures var t := SubmitStep(c, s, lease, enabled);
            && |t.returned| == |s.returned| + 1 && t.returned[|s.returned|].admission != Accepted
            && t == Return(s, lease, t.returned[|s.returned|].admission)
  {
  }

  lemma AdmittingKeeps(c: Config, s: State, lease: Lease, tick: nat)
    requires Usable(c) && Inv(c, s) && s.capture == Idle && s.owner == Resting
    requires Admissible(c, lease) && TickOf(c, lease) == tick >= s.nextTick
    ensures Inv(c, s.(nextTick := tick + 1, capture := Admitting(lease)))
  {
    assert AllBefore(c, s.admitted, tick) && AllBefore(c, s.admitted, tick + 1);
  }

  lemma AdmitOutcome(c: Config, s: State, locked: bool) returns (r: State, a: Admission)
    requires s.capture.Admitting?
    ensures var t := AdmitStep(c, s, locked);
            && r == s.(accepting := t.accepting, limitReached := t.limitReached) && a != Accepted
            && t == (if t.capture.Copying? then s.(capture := Copying(s.capture.lease))
                     else Return(r, s.capture.lease, a))
  {
    var t := AdmitStep(c, s, locked);
    r := s.(accepting := t.accepting, limitReached := t.limitReached);
    a := if t.capture.Copying? then Busy else t.returned[|s.returned|].admission;
  }

  lemma AdmitKeeps(c: Config, s: State, locked: bool)
    requires Usable(c) && Inv(c, s) && s.capture.Admitting?
    ensures Inv(c, AdmitStep(c, s, locked))
  {
    var t, lease := AdmitStep(c, s, locked), s.capture.lease;
    var r, a := AdmitOutcome(c, s, locked);
    if t.capture.Copying? {
      assert Pacing(c, t.admitted, t.capture, t.nextTick);
    } else {
      assert Inv(c, r);
      ReturnKeeps(c, r, lease, a);
    }
  }

  lemma PushKeeps(c: Config, s: State, lease: Lease)
    requires Usable(c) && AllAdmissible(c, s.admitted) && Admissible(c, lease)
    requires QueueIsRest(c, s.queue, s.admitted, Taken(s)) && Pacing(c, s.admitted, Copying(lease), s.nextTick)
    requires !c.variable ==> s.reserved == |s.admitted| * c.recordBytes
    requires c.variable ==> s.reserved == 0
    ensures var t := PushStep(c, s, lease);
            && AllAdmissible(c, t.admitted) && QueueIsRest(c, t.queue, t.admitted, Taken(t))
            && Pacing(c, t.admitted, Idle, t.nextTick) && Taken(t) == Taken(s)
  {
    var t := PushStep(c, s, lease);
    assert t.queue[|s.queue|] == EntryOf(c, lease, |s.admitted|);
  }

  lemma ChargeKeeps(c: Config, s: State, n: nat)
    requires Budget(c, true, s.limitReached, s.reserved, s.bytes, s.limit, n, |s.written|) && s.accepting
    ensures var t := ChargeStep(c, s);
            && t == s.(reserved := t.reserved, accepting := t.accepting, limitReached := t.limitReached)
            && Budget(c, t.accepting, t.limitReached, t.reserved, t.bytes, t.limit, n + 1, |t.written|)
  {
    OneMoreStep(n, c.recordBytes);
  }

  lemma WrittenStays(
      c: Config, written: seq<seq<Byte>>, admitted: seq<Lease>, handled: int, failed: bool, lease: Lease)
    requires Usable(c) && AllAdmissible(c, admitted) && Admissible(c, lease)
    requires WrittenIsPrefix(c, written, admitted, handled, failed)
    ensures AllAdmissible(c, admitted + [lease])
    ensures WrittenIsPrefix(c, written, admitted + [lease], handled, failed)
  {
  }

  lemma CommitKeeps(c: Config, s: State)
    requires Usable(c) && Inv(c, s) && s.capture.Copying?
    ensures Inv(c, CommitStep(c, s))
  {
    var lease := s.capture.lease;
    var p := PushStep(c, s, lease);
    PushKeeps(c, s, lease);
    ChargeKeeps(c, p, |s.admitted|);
    WrittenStays(c, s.written, s.admitted, Handled(s), s.writeFailed, lease);
    AcceptedWaits(s.returned, s.released, s.releases, lease);
    CommitAssembles(c, s, ChargeStep(c, p));
  }

  lemma AcceptedWaits(returned: seq<Submission>, released: seq<Lease>, releases: seq<Lease>, lease: Lease)
    requires LeasesConserved(returned, released, [], releases)
    ensures LeasesConserved(returned + [Submission(lease, Accepted)], released, [], releases + [lease])
  {
    AcceptedAppend(returned, lease, Accepted);
  }

  lemma CommitAssembles(c: Config, s: State, charged: State)
    requires Usable(c) && Inv(c, s) && s.capture.Copying?
    requires var p, t := PushStep(c, s, s.capture.lease), charged;
             && t == p.(reserved := t.reserved, accepting := t.accepting, limitReached := t.limitReached)
             && AllAdmissible(c, p.admitted) && QueueIsRest(c, p.queue, p.admitted, Taken(p))
             && Pacing(c, p.admitted, Idle, p.nextTick) && Taken(p) == Taken(s)
             && Budget(c, t.accepting, t.limitReached, t.reserved, t.bytes, t.limit, |s.admitted| + 1, |t.written|)
             && WrittenIsPrefix(c, s.written, p.admitted, Handled(s), s.writeFailed)
             && LeasesConserved(
                  s.returned + [Submission(s.capture.lease, Accepted)], s.released, [], p.releases)
    ensures Inv(c, Return(charged, s.capture.lease, Accepted))
  {
  }

  lemma WriteKeeps(c: Config, s: State, disk: Disk)
    requires Usable(c) && Inv(c, s) && s.worker == Reading
    ensures Inv(c, WriteStep(c, s, disk))
  {
    WriteBudget(c, s, disk);
    WritePrefix(c, s, disk);
    WriteFrame(c, s, disk);
  }

  lemma WriteBudget(c: Config, s: State, disk: Disk)
    requires Usable(c) && Inv(c, s) && s.worker == Reading
    ensures var t := WriteStep(c, s, disk);
            Budget(c, t.accepting, t.limitReached, t.reserved, t.bytes, t.limit, |t.admitted|, |t.written|)
  {
    if !c.variable && !s.writeFailed {
      FixedFits(c, s);
    }
    OneMoreStep(|s.written|, c.recordBytes);
  }

  lemma WritePrefix(c: Config, s: State, disk: Disk)
    requires Usable(c) && Inv(c, s) && s.worker == Reading
    ensures var t := WriteStep(c, s, disk); WrittenIsPrefix(c, t.written, s.admitted, Taken(s) + 1, t.writeFailed)
  {
    if !s.writeFailed {
      NextWritten(c, s);
    }
    WriteFrame(c, s, disk);
  }

  /** What a write leaves alone, and what it does to the file. */
  lemma WriteFrame(c: Config, s: State, disk: Disk)
    requires s.queue != []
    ensures var t := WriteStep(c, s, disk);
            && t == s.(worker := Finishing, writeFailed := t.writeFailed, limitReached := t.limitReached,
                       bytes := t.bytes, written := t.written)
            && (if t.written == s.written then t.bytes == s.bytes && t.writeFailed
                else t.written == s.written + [s.queue[0].image] && !s.writeFailed)
  {
  }

  /** The entry at the head of the queue is the next frame to write. */
  lemma NextWritten(c: Config, s: State)
    requires Usable(c) && Inv(c, s) && s.worker == Reading && !s.writeFailed
    ensures WrittenIsPrefix(c, s.written + [s.queue[0].image], s.admitted, Taken(s) + 1, false)
  {
    assert s.queue[Taken(s) - Taken(s)] == EntryOf(c, s.admitted[Taken(s)], Taken(s));
  }

  /** A reserved frame always fits when its turn to be written comes. */
  lemma FixedFits(c: Config, s: State)
    requires Usable(c) && Inv(c, s) && s.worker == Reading && !s.writeFailed && !c.variable
    ensures c.recordBytes <= s.limit - s.bytes
  {
    OneMoreStep(|s.written|, c.recordBytes);
    ScaleMonotone(|s.written| + 1, |s.admitted|, c.recordBytes);
  }

  lemma FinishKeeps(c: Config, s: State)
    requires Usable(c) && Inv(c, s) && s.worker == Finishing && MutexFree(s)
    ensures Inv(c, FinishStep(s))
  {
    var t := FinishStep(s);
    assert Taken(t) == Handled(t) == Handled(s) == Taken(s) + 1;
    RestOfQueue(c, s.queue, s.admitted, Taken(s));
  }

  lemma RestOfQueue(c: Config, queue: seq<Queued>, admitted: seq<Lease>, taken: int)
    requires Usable(c) && AllAdmissible(c, admitted) && QueueIsRest(c, queue, admitted, taken) && queue != []
    ensures QueueIsRest(c, queue[1..], admitted, taken + 1)
  {
    forall k | taken + 1 <= k < |admitted|
      ensures queue[1..][k - (taken + 1)] == EntryOf(c, admitted[k], k)
    {
      assert queue[1..][k - (taken + 1)] == queue[k - taken];
    }
  }

  /** A step that moves only the worker and the supervisor, and at most stops admission. */
  lemma ThreadsMove(c: Config, s: State, t: State)
    requires Usable(c) && Inv(c, s)
    requires t == s.(accepting := t.accepting, startedOnce := t.startedOnce, worker := t.worker, owner := t.owner)
    requires (t.accepting ==> s.accepting) && Handled(t) == Handled(s)
    requires Threads(c, t.accepting, |t.queue|, |t.releases|, t.capture, t.worker, t.owner)
    ensures Inv(c, t)
  {
  }

  lemma WorkerKeeps(c: Config, s: State, e: Event)
    requires Usable(c) && Inv(c, s) && (e.Take? || e.Exit?) && Step(c, s, e).Some?
    ensures Inv(c, Step(c, s, e).value)
  {
    ThreadsMove(c, s, if e.Take? then s.(worker := Reading) else s.(worker := Exited));
  }

  lemma StartKeeps(c: Config, s: State, budget: Option<nat>)
    requires Usable(c) && Inv(c, s) && LifecycleFree(s)
    ensures Inv(c, StartStep(c, s, budget))
  {
  }

  lemma StartingKeeps(c: Config, s: State, e: Event)
    requires Usable(c) && Inv(c, s) && (e.ThreadCreated? || e.EventsStarted?) && Step(c, s, e).Some?
    ensures Inv(c, Step(c, s, e).value)
  {
    if e.ok {
      ThreadsMove(c, s, if e.ThreadCreated? then s.(worker := Waiting, owner := Checking)
                        else s.(startedOnce := true, owner := Resting));
    } else {
      ThreadsMove(c, s, s.(accepting := false, owner := if e.ThreadCreated? then Resting else Joining));
    }
  }

  lemma StoppingKeeps(c: Config, s: State, e: Event)
    requires Usable(c) && Inv(c, s) && (e.Stop? || e.Joined?) && Step(c, s, e).Some?
    ensures Inv(c, Step(c, s, e).value)
  {
    ThreadsMove(c, s, if e.Joined? then s.(worker := Absent, owner := Resting)
                      else s.(accepting := false, owner := if s.worker == Absent then Resting else Joining));
  }

  lemma DrainTakeKeeps(c: Config, s: State)
    requires Usable(c) && Inv(c, s) && s.capture == Idle && s.releases != []
    ensures Inv(c, s.(capture := Releasing(s.releases[0]), releases := s.releases[1..]))
  {
    assert s.released + [s.releases[0]] + s.releases[1..] == s.released + [] + s.releases;
  }

  lemma DrainGiveKeeps(c: Config, s: State)
    requires Usable(c) && Inv(c, s) && s.capture.Releasing?
    ensures Inv(c, s.(capture := Idle, released := s.released + [s.capture.lease]))
  {
    assert s.released + [s.capture.lease] + [] + s.releases == s.released + [s.capture.lease] + s.releases;
  }

  lemma StepKeeps(c: Config, s: State, e: Event)
    requires Usable(c) && Inv(c, s) && Step(c, s, e).Some?
    ensures Inv(c, Step(c, s, e).value)
  {
    match e
    case LifecycleBusy(lease) => ReturnKeeps(c, s, lease, Busy);
    case Submit(lease, enabled) => SubmitKeeps(c, s, lease, enabled);
    case Admit(locked) => AdmitKeeps(c, s, locked);
    case Commit => CommitKeeps(c, s);
    case Write(disk) => WriteKeeps(c, s, disk);
    case Finish => FinishKeeps(c, s);
    case DrainTake => DrainTakeKeeps(c, s);
    case DrainGive => DrainGiveKeeps(c, s);
    case Take => WorkerKeeps(c, s, e);
    case Exit => WorkerKeeps(c, s, e);
    case Start(budget) => StartKeeps(c, s, budget);
    case ThreadCreated(ok) => StartingKeeps(c, s, e);
    case EventsStarted(ok) => StartingKeeps(c, s, e);
    case Stop => StoppingKeeps(c, s, e);
    case Joined => StoppingKeeps(c, s, e);
  }

  /** The invariant holds in every interleaving. */
  lemma {:induction false} RunKeeps(c: Config, s: State, events: seq<Event>)
    requires Usable(c) && Inv(c, s) && RunFrom(c, s, events).Some?
    ensures Inv(c, RunFrom(c, s, events).value)
    decreases |events|
  {
    if events != [] {
      var before := events[..|events| - 1];
      RunKeeps(c, s, before);
      StepKeeps(c, RunFrom(c, s, before).value, events[|events| - 1]);
    }
  }

  lemma Reachable(c: Config, events: seq<Event>)
    requires Usable(c) && Run(c, events).Some?
    ensures Inv(c, Run(c, events).value)
  {
    InitialInv(c);
    RunKeeps(c, Initial(), events);
  }

  /** What the threads rely on at each point: room in both rings for the frame being copied, a frame in the
      queue while the worker is at it, nothing left once it has exited. */
  lemma ThreadsMayRely(c: Config, events: seq<Event>)
    requires Usable(c) && Run(c, events).Some?
    ensures var s := Run(c, events).value;
            && (s.capture.Copying? ==>
                  |s.queue| < c.slots && |s.releases| < c.slots && Admissible(c, s.capture.lease))
            && (s.capture.Admitting? ==> Admissible(c, s.capture.lease))
            && (s.worker == Reading || s.worker == Finishing ==> s.queue != [])
            && (s.worker == Exited ==> s.queue == [] && !s.accepting)
  {
    Reachable(c, events);
  }

  // ---- what every interleaving guarantees ---------------------------------------------------------

  /** The leases the caller offered, in order. */
  function Offered(events: seq<Event>): seq<Lease> {
    if events == [] then []
    else Offered(events[..|events| - 1]) + Offer(events[|events| - 1])
  }

  function Offer(e: Event): seq<Lease> {
    if e.LifecycleBusy? then [e.offer] else if e.Submit? then [e.lease] else []
  }

  function Decided(returned: seq<Submission>): (leases: seq<Lease>)
    ensures |leases| == |returned| && forall k :: 0 <= k < |returned| ==> leases[k] == returned[k].lease
  {
    seq(|returned|, k requires 0 <= k < |returned| => returned[k].lease)
  }

  function Undecided(s: State): seq<Lease> {
    if s.capture.Admitting? || s.capture.Copying? then [s.capture.lease] else []
  }

  lemma DecidedAppend(s: State, lease: Lease, a: Admission)
    ensures Decided(Return(s, lease, a).returned) == Decided(s.returned) + [lease]
  {
  }

  lemma OthersDecideNothing(c: Config, s: State, e: Event)
    requires Usable(c) && Step(c, s, e).Some?
    requires !e.LifecycleBusy? && !e.Submit? && !e.Admit? && !e.Commit?
    ensures var t := Step(c, s, e).value; t.returned == s.returned && Undecided(t) == Undecided(s)
  {
    if e.Write? {
      WriteFrame(c, s, e.disk);
    }
  }

  lemma SubmitDecides(c: Config, s: State, lease: Lease, enabled: bool)
    requires Usable(c) && s.capture == Idle
    ensures var t := SubmitStep(c, s, lease, enabled);
            Decided(t.returned) + Undecided(t) == Decided(s.returned) + [lease]
  {
    var t := SubmitStep(c, s, lease, enabled);
    if !t.capture.Admitting? {
      RefusedSubmission(c, s, lease, enabled);
      DecidedAppend(s, lease, t.returned[|s.returned|].admission);
    }
  }

  lemma AdmitDecides(c: Config, s: State, locked: bool)
    requires s.capture.Admitting?
    ensures var t := AdmitStep(c, s, locked);
            Decided(t.returned) + Undecided(t) == Decided(s.returned) + [s.capture.lease]
  {
    var r, a := AdmitOutcome(c, s, locked);
    DecidedAppend(r, s.capture.lease, a);
  }

  lemma CommitDecides(c: Config, s: State)
    requires s.capture.Copying? && s.capture.lease.view.Some? && s.capture.lease.view.value.width > 0
    ensures var t := CommitStep(c, s); Decided(t.returned) + Undecided(t) == Decided(s.returned) + [s.capture.lease]
  {
    DecidedAppend(ChargeStep(c, PushStep(c, s, s.capture.lease)), s.capture.lease, Accepted);
  }

  lemma StepDecides(c: Config, s: State, e: Event)
    requires Usable(c) && Step(c, s, e).Some?
    ensures var t := Step(c, s, e).value;
            Decided(t.returned) + Undecided(t) == Decided(s.returned) + Undecided(s) + Offer(e)
  {
    match e
    case LifecycleBusy(lease) => DecidedAppend(s, lease, Busy);
    case Submit(lease, enabled) => SubmitDecides(c, s, lease, enabled);
    case Admit(locked) => AdmitDecides(c, s, locked);
    case Commit => CommitDecides(c, s);
    case _ => OthersDecideNothing(c, s, e);
  }

  lemma {:induction false} OffersAnswered(c: Config, events: seq<Event>)
    requires Usable(c) && Run(c, events).Some?
    ensures var s := Run(c, events).value; Decided(s.returned) + Undecided(s) == Offered(events)
    decreases |events|
  {
    if events != [] {
      var before, e := events[..|events| - 1], events[|events| - 1];
      OffersAnswered(c, before);
      StepDecides(c, Run(c, before).value, e);
    }
  }

  /** Every offer gets exactly one answer, in order; the leases answered "accepted" are, in that order, exactly
      those released plus those still on their way to release; no other lease is ever released. */
  lemma LeasesReleasedOnce(c: Config, events: seq<Event>)
    requires Usable(c) && Run(c, events).Some?
    ensures var s := Run(c, events).value;
            && Decided(s.returned) + Undecided(s) == Offered(events)
            && AcceptedIn(s.returned) == s.released + InHand(s) + s.releases
  {
    Reachable(c, events);
    OffersAnswered(c, events);
  }

  /** The frame the worker reads is the next one in order of admission: its pixels are those of the lease it
      was admitted with, its index follows the last one written, its offset is that many whole records, and a
      fixed-size record always fits, so storing it never fails for lack of budget. */
  lemma WriterSeesNextFrame(c: Config, events: seq<Event>, size: nat)
    requires Usable(c) && Run(c, events).Some?
    requires var s := Run(c, events).value; s.worker == Reading && !s.writeFailed
    ensures var s := Run(c, events).value;
            && s.queue != [] && |s.written| < |s.admitted| && Admissible(c, s.admitted[|s.written|])
            && s.queue[0].image == ImageOf(c, s.admitted[|s.written|].view.value)
            && s.queue[0].index == |s.written| + 1
            && (!c.variable ==>
                  && s.queue[0].offset == (s.queue[0].index - 1) * c.recordBytes == s.bytes
                  && WriteStep(c, s, Stored(size)).bytes == s.bytes + c.recordBytes <= s.limit)
  {
    Reachable(c, events);
    HeadIsNext(c, Run(c, events).value, size);
  }

  lemma HeadIsNext(c: Config, s: State, size: nat)
    requires Usable(c) && Inv(c, s) && s.worker == Reading && !s.writeFailed
    ensures s.queue != [] && |s.written| < |s.admitted| && Admissible(c, s.admitted[|s.written|])
    ensures s.queue[0] == EntryOf(c, s.admitted[|s.written|], |s.written|)
    ensures !c.variable ==>
              && |s.written| * c.recordBytes == s.bytes
              && WriteStep(c, s, Stored(size)).bytes == s.bytes + c.recordBytes <= s.limit
  {
    assert s.queue[Taken(s) - Taken(s)] == EntryOf(c, s.admitted[Taken(s)], Taken(s));
    if !c.variable {
      FixedFits(c, s);
    }
  }

  /** Whatever happens, the file holds the frames admitted first, in order, within the budget. */
  lemma FileHoldsAdmitted(c: Config, events: seq<Event>)
    requires Usable(c) && Run(c, events).Some?
    ensures var s := Run(c, events).value;
            && |s.written| <= |s.admitted| && s.bytes <= s.limit
            && (forall k :: 0 <= k < |s.written| ==>
                  Admissible(c, s.admitted[k]) && s.written[k] == ImageOf(c, s.admitted[k].view.value))
            && (!c.variable ==> s.bytes == |s.written| * c.recordBytes && |s.admitted| * c.recordBytes <= s.limit)
  {
    Reachable(c, events);
  }

  /** When stop returns, every admitted frame was handled; without a failed write all of them are on file. */
  lemma StopDrains(c: Config, events: seq<Event>)
    requires Usable(c) && Run(c, events + [Joined]).Some?
    ensures var s := Run(c, events + [Joined]).value;
            && s.queue == [] && !s.accepting && s.worker == Absent
            && (!s.writeFailed ==> |s.written| == |s.admitted|)
  {
    var all := events + [Joined];
    assert all[..|all| - 1] == events;
    Reachable(c, events);
    Reachable(c, all);
  }

  /** Splitting seconds from microseconds loses nothing. */
  lemma TickIsFloor(c: Config, receivedUs: nat)
    ensures Tick(c, receivedUs) == receivedUs * c.fps / 1000000
  {
    var q, m := receivedUs / 1000000, receivedUs % 1000000;
    var part := m * c.fps;
    assert receivedUs * c.fps == (q * c.fps + part / 1000000) * 1000000 + part % 1000000 by {
      assert receivedUs == q * 1000000 + m;
      assert receivedUs * c.fps == q * 1000000 * c.fps + m * c.fps;
    }
    QuotientUnique(receivedUs * c.fps, 1000000, q * c.fps + part / 1000000, part % 1000000);
  }

  /** No two admitted frames of a session share a 1/fps interval, and they are in time order. */
  lemma OneFramePerInterval(c: Config, events: seq<Event>, i: nat, j: nat)
    requires Usable(c) && Run(c, events).Some?
    requires i < j < |Run(c, events).value.admitted|
    ensures var a := Run(c, events).value.admitted;
            && Admissible(c, a[i]) && Admissible(c, a[j])
            && a[i].view.value.receivedUs * c.fps / 1000000 < a[j].view.value.receivedUs * c.fps / 1000000
  {
    Reachable(c, events);
    var a := Run(c, events).value.admitted;
    TickIsFloor(c, a[i].view.value.receivedUs);
    TickIsFloor(c, a[j].view.value.receivedUs);
  }

  // ---- stopping -----------------------------------------------------------------------------------

  predicate WorkerEvent(e: Event) { e.Take? || e.Exit? || e.Write? || e.Finish? }

  function WorkerEvents(events: seq<Event>): nat {
    if events == [] then 0
    else WorkerEvents(events[..|events| - 1]) + (if WorkerEvent(events[|events| - 1]) then 1 else 0)
  }

  /** How many more steps the worker takes before it exits. */
  function Remaining(s: State): int {
    3 * |s.queue| + (if s.worker == Waiting then 1 else if s.worker == Finishing then -1 else 0)
  }

  /** While a stop waits, some worker step can always happen until the worker has exited. */
  lemma StopIsNeverStuck(c: Config, s: State)
    requires Usable(c) && Inv(c, s) && s.owner == Joining
    ensures exists e :: (WorkerEvent(e) || e == Joined) && Step(c, s, e).Some?
  {
    if s.worker == Waiting {
      assert Step(c, s, if s.queue == [] then Exit else Take).Some?;
    } else if s.worker == Reading {
      assert Step(c, s, Write(Failed)).Some?;
    } else if s.worker == Finishing {
      assert Step(c, s, Finish).Some?;
    } else {
      assert Step(c, s, Joined).Some?;
    }
  }

  lemma StopProgress(c: Config, s: State, e: Event)
    requires Usable(c) && Inv(c, s) && s.owner == Joining && e != Joined && Step(c, s, e).Some?
    ensures var t := Step(c, s, e).value;
            t.owner == Joining && Remaining(t) == Remaining(s) - (if WorkerEvent(e) then 1 else 0)
  {
    if WorkerEvent(e) {
      WorkerProgress(c, s, e);
    } else {
      OthersWait(c, s, e);
    }
  }

  lemma WorkerProgress(c: Config, s: State, e: Event)
    requires Usable(c) && Inv(c, s) && WorkerEvent(e) && Step(c, s, e).Some?
    ensures var t := Step(c, s, e).value; t.owner == s.owner && Remaining(t) == Remaining(s) - 1
  {
    if e.Write? {
      WriteFrame(c, s, e.disk);
    }
  }

  lemma OthersWait(c: Config, s: State, e: Event)
    requires Usable(c) && Inv(c, s) && s.owner == Joining && !WorkerEvent(e) && e != Joined && Step(c, s, e).Some?
    ensures var t := Step(c, s, e).value; t.owner == Joining && t.queue == s.queue && t.worker == s.worker
  {
  }

  /** A stop that has not returned has seen at most `Remaining` worker steps, whatever the other threads do. */
  lemma {:induction false} StopReturns(c: Config, s: State, events: seq<Event>)
    requires Usable(c) && Inv(c, s) && s.owner == Joining && Joined !in events
    requires RunFrom(c, s, events).Some?
    ensures var t := RunFrom(c, s, events).value;
            t.owner == Joining && Remaining(t) == Remaining(s) - WorkerEvents(events)
    ensures WorkerEvents(events) <= Remaining(s)
    decreases |events|
  {
    if events != [] {
      var before := events[..|events| - 1];
      StopReturns(c, s, before);
      RunKeeps(c, s, before);
      StopProgress(c, RunFrom(c, s, before).value, events[|events| - 1]);
    }
    RunKeeps(c, s, events);
  }
}
