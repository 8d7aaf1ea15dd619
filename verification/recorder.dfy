/** The recorder as it is stored: pixel slots and pending releases in two rings with cursors, copied and read a
    byte at a time by different threads. Every method is one indivisible step; the ghost field `state` is the
    state of the protocol with plain queues, and each step is proved to be the protocol's. */
module Recorders {
  import opened Bytes
  import opened RecorderProtocol
  import opened Rings

  /** What a queue slot says about its frame, besides the pixels. */
  datatype Label = Label(index: nat, offset: nat)

  class Recorder {
    const config: Config
    const pixels: array2<Byte>
    const labels: array<Label>
    const releaseSlots: array<Lease>
    var images: Cursor
    var pending: Cursor
    var nextImageIndex: nat
    var reserved: nat
    var nextSampleTick: nat
    var accepting: bool
    var limitReached: bool
    var startedOnce: bool
    // The capture thread: where it is, and how much of the frame it has copied.
    var capture: Capture
    var copied: nat
    // The image worker: where it is, what it has read of its slot so far, and what it wrote.
    var worker: Worker
    var seen: seq<Byte>
    var writeFailed: bool
    var bytes: nat
    // The supervisor.
    var owner: Owner
    var limit: nat
    ghost var state: State

    ghost predicate Shape() {
      && Usable(config)
      && pixels.Length0 == labels.Length == releaseSlots.Length == config.slots
      && pixels.Length1 == config.width * config.height
    }

    ghost function Row(slot: nat): (row: seq<Byte>)
      requires slot < pixels.Length0
      reads pixels
      ensures |row| == pixels.Length1
    {
      seq(pixels.Length1, i requires 0 <= i < pixels.Length1 reads pixels => pixels[slot, i])
    }

    ghost function Slots(): (slots: seq<Queued>)
      requires Shape()
      reads pixels, labels
      ensures |slots| == config.slots
      ensures forall i :: 0 <= i < config.slots ==> slots[i] == Queued(Row(i), labels[i].index, labels[i].offset)
    {
      seq(config.slots, i requires 0 <= i < config.slots reads pixels, labels =>
        Queued(Row(i), labels[i].index, labels[i].offset))
    }

    /** The two rings hold the protocol's two queues. */
    ghost predicate Queues()
      requires Shape()
      reads this`images, this`pending, this`state, this`nextImageIndex, pixels, labels, releaseSlots
    {
      && images.Fits(config.slots) && pending.Fits(config.slots)
      && state.queue == Contents(Slots(), images.head, images.count)
      && state.releases == Contents(releaseSlots[..], pending.head, pending.count)
      && nextImageIndex == |state.admitted| + 1
    }

    /** The plain fields are the protocol's. */
    ghost predicate Fields()
      reads this
    {
      && state.accepting == accepting && state.limitReached == limitReached && state.startedOnce == startedOnce
      && state.writeFailed == writeFailed && state.nextTick == nextSampleTick && state.reserved == reserved
      && state.bytes == bytes && state.limit == limit
      && state.capture == capture && state.worker == worker && state.owner == owner
    }

    /** The bytes copied so far are the frame's; the bytes read so far are the queued image's. */
    ghost predicate Transfers()
      requires Shape() && images.Fits(config.slots)
      reads this, pixels
    {
      && (capture.Admitting? || capture.Copying? ==> Admissible(config, capture.lease))
      && (capture.Copying? ==>
            && copied <= pixels.Length1
            && forall i :: 0 <= i < copied ==> pixels[images.tail, i] == Sample(capture.lease.view.value, i))
      && (worker == Reading ==> |seen| <= pixels.Length1 && seen == Row(images.head)[..|seen|])
    }

    ghost predicate Valid()
      reads this, pixels, labels, releaseSlots
    {
      && Shape() && Queues() && Fields() && Transfers()
      && Threads(config, accepting, images.count, pending.count, capture, worker, owner)
    }

    constructor (c: Config)
      requires Usable(c)
      ensures Valid() && config == c && state == Initial()
      ensures fresh(pixels) && fresh(labels) && fresh(releaseSlots)
    {
      config := c;
      pixels := new Byte[c.slots, c.width * c.height]((i, j) => 0);
      labels := new Label[c.slots](i => Label(0, 0));
      releaseSlots := new Lease[c.slots](i => Lease(0, None));
      images, pending := Cursor(0, 0, 0), Cursor(0, 0, 0);
      nextImageIndex, reserved, nextSampleTick, copied, bytes, limit := 1, 0, 0, 0, 0, 0;
      accepting, limitReached, startedOnce, writeFailed := false, false, false, false;
      capture, worker, owner, seen := Idle, Absent, Resting, [];
      state := Initial();
    }

    /** One step of the protocol, and nothing else, has happened. */
    twostate predicate Does(e: Event)
      reads this
    {
      Usable(config) && Step(config, old(state), e) == Some(state)
    }

    // ---- the capture thread -----------------------------------------------------------------------

    /** The first part of `try_submit`, with the lifecycle lock held. */
    method Submit(lease: Lease, enabled: bool)
      requires Valid() && capture == Idle && owner == Resting
      modifies this`capture, this`nextSampleTick, this`state
      ensures Valid() && Does(Event.Submit(lease, enabled))
    {
      Check(lease, enabled);
    }

    method Check(lease: Lease, enabled: bool)
      requires Usable(config) && Fields() && capture == Idle
      modifies this`capture, this`nextSampleTick, this`state
      ensures Fields() && state == SubmitStep(config, old(state), lease, enabled)
      ensures capture == Idle || (capture == Admitting(lease) && Admissible(config, lease))
      ensures state.queue == old(state.queue) && state.releases == old(state.releases)
      ensures state.admitted == old(state.admitted)
    {
      if !enabled {
        Answer(lease, Stopped);
      } else if lease.view.None? {
        Answer(lease, InvalidFrame);
      } else if !startedOnce || limitReached {
        Answer(lease, Stopped);
      } else if !ValidView(config, lease.view.value) || lease.view.value.receivedUs < 0 {
        Answer(lease, InvalidFrame);
      } else {
        var tick := Tick(config, lease.view.value.receivedUs);
        if tick < nextSampleTick {
          Answer(lease, Downsampled);
        } else {
          nextSampleTick, capture := tick + 1, Admitting(lease);
          state := state.(nextTick := tick + 1, capture := Admitting(lease));
        }
      }
    }

    /** The caller gets its lease back, or knows that it was accepted. */
    method Answer(lease: Lease, admission: Admission)
      modifies this`capture, this`state
      ensures capture == Idle && state == Return(old(state), lease, admission)
    {
      capture := Idle;
      state := Return(state, lease, admission);
    }

    /** The checks under the queue lock, if the try-lock succeeded. */
    method Admit(locked: bool)
      requires Valid() && capture.Admitting?
      modifies this`capture, this`copied, this`accepting, this`limitReached, this`state
      ensures Valid() && Does(Event.Admit(locked))
    {
      assert |state.queue| == images.count && |state.releases| == pending.count;
      Enter(locked);
    }

    method Enter(locked: bool)
      requires Fields() && capture.Admitting?
      requires |state.queue| == images.count && |state.releases| == pending.count
      modifies this`capture, this`copied, this`accepting, this`limitReached, this`state
      ensures Fields() && state == AdmitStep(config, old(state), locked)
      ensures if capture.Copying? then capture.lease == old(capture).lease && copied == 0 else capture == Idle
      ensures state.queue == old(state.queue) && state.releases == old(state.releases)
      ensures state.admitted == old(state.admitted)
      ensures capture.Copying? ==> accepting && images.count < config.slots && pending.count < config.slots
      ensures accepting ==> old(accepting)
    {
      var lease := capture.lease;
      if !locked {
        Answer(lease, Busy);
      } else if !accepting {
        Answer(lease, Stopped);
      } else if images.count >= config.slots || pending.count >= config.slots {
        Answer(lease, Busy);
      } else if !config.variable && config.recordBytes > limit - reserved {
        CloseAdmission();
        Answer(lease, Stopped);
      } else {
        capture, copied := Copying(lease), 0;
        state := state.(capture := Copying(lease));
      }
    }

    method CloseAdmission()
      modifies this`accepting, this`limitReached, this`state
      ensures !accepting && limitReached && state == old(state).(accepting := false, limitReached := true)
    {
      accepting, limitReached := false, true;
      state := state.(accepting := false, limitReached := true);
    }

    /** Copies one byte into the tail slot. Nothing in the queue changes, least of all the slot being read. */
    method CopyByte()
      requires Valid() && capture.Copying? && copied < pixels.Length1
      modifies this`copied, pixels
      ensures Valid() && copied == old(copied) + 1
      ensures images.count > 0 ==> images.tail != images.head && Row(images.head) == old(Row(images.head))
    {
      ghost var slots := Slots();
      pixels[images.tail, copied] := Sample(capture.lease.view.value, copied);
      copied := copied + 1;
      forall i | 0 <= i < config.slots && i != images.tail
        ensures Slots()[i] == slots[i]
      {
        assert Row(i) == old(Row(i));
      }
      TailWriteKeeps(slots, Slots(), images.head, images.count);
    }

    /** Everything is copied: the frame joins the queue and its lease the releases, in one step. */
    method Commit()
      requires Valid() && capture.Copying? && copied == pixels.Length1
      modifies this`capture, this`images, this`pending, labels, releaseSlots, this`nextImageIndex
      modifies this`reserved, this`accepting, this`limitReached, this`state
      ensures Valid() && Does(Event.Commit)
    {
      Push(capture.lease);
      Charge(capture.lease);
    }

    method Push(lease: Lease)
      requires Shape() && Queues() && images.count < config.slots && pending.count < config.slots
      requires lease.view.Some? && lease.view.value.width > 0 && reserved == state.reserved
      requires forall i :: 0 <= i < pixels.Length1 ==> pixels[images.tail, i] == Sample(lease.view.value, i)
      modifies this`images, this`pending, labels, releaseSlots, this`nextImageIndex, this`state
      ensures Queues() && images.head == old(images.head) && state == PushStep(config, old(state), lease)
      ensures images.count == old(images.count) + 1 && pending.count == old(pending.count) + 1
    {
      PushImage(lease);
      ghost var leases := releaseSlots[..];
      releaseSlots[pending.tail] := lease;
      TailWriteKeeps(leases, releaseSlots[..], pending.head, pending.count);
      PushContents(releaseSlots[..], pending.head, pending.count, lease);
      pending := pending.Pushed(config.slots);
      state := state.(releases := state.releases + [lease]);
    }

    method PushImage(lease: Lease)
      requires Shape() && Queues() && images.count < config.slots
      requires lease.view.Some? && lease.view.value.width > 0 && reserved == state.reserved
      requires forall i :: 0 <= i < pixels.Length1 ==> pixels[images.tail, i] == Sample(lease.view.value, i)
      modifies this`images, labels, this`nextImageIndex, this`state
      ensures Queues() && images.head == old(images.head) && images.count == old(images.count) + 1
      ensures state == PushStep(config, old(state), lease).(releases := old(state.releases))
    {
      ghost var slots, entry := Slots(), Queued(ImageOf(config, lease.view.value), nextImageIndex, reserved);
      labels[images.tail] := Label(nextImageIndex, reserved);
      assert Row(images.tail) == ImageOf(config, lease.view.value);
      TailWriteKeeps(slots, Slots(), images.head, images.count);
      PushContents(Slots(), images.head, images.count, entry);
      nextImageIndex := nextImageIndex + 1;
      images := images.Pushed(config.slots);
      state := state.(queue := state.queue + [entry], admitted := state.admitted + [lease]);
    }

    /** Charges the frame to the budget and answers that it was accepted. */
    method Charge(lease: Lease)
      requires Fields()
      modifies this`capture, this`reserved, this`accepting, this`limitReached, this`state
      ensures Fields() && state == Return(ChargeStep(config, old(state)), lease, Accepted)
      ensures state.queue == old(state.queue) && state.releases == old(state.releases)
      ensures state.admitted == old(state.admitted) && capture == Idle && (accepting ==> old(accepting))
    {
      if !config.variable {
        reserved := reserved + config.recordBytes;
        state := state.(reserved := reserved);
        if config.recordBytes > limit - reserved {
          CloseAdmission();
        }
      }
      Answer(lease, Accepted);
    }

    /** One turn of `drain_releases`: takes the oldest lease out of the ring. */
    method DrainTake()
      requires Valid() && capture == Idle && pending.count > 0
      modifies this`capture, this`pending, this`state
      ensures Valid() && Does(Event.DrainTake)
    {
      var lease := PopRelease();
      capture := Releasing(lease);
      state := state.(capture := capture);
    }

    method PopRelease() returns (lease: Lease)
      requires Shape() && Queues() && pending.count > 0
      modifies this`pending, this`state
      ensures Queues() && lease == old(state.releases)[0] && pending.count == old(pending.count) - 1
      ensures state == old(state).(releases := old(state.releases)[1..])
    {
      PopContents(releaseSlots[..], pending.head, pending.count);
      lease := releaseSlots[pending.head];
      pending := pending.Popped(config.slots);
      state := state.(releases := state.releases[1..]);
    }

    /** Gives the lease taken out back to the camera. */
    method DrainGive()
      requires Valid() && capture.Releasing?
      modifies this`capture, this`state
      ensures Valid() && Does(Event.DrainGive)
    {
      state := state.(capture := Idle, released := state.released + [capture.lease]);
      capture := Idle;
    }

    // ---- the image worker -------------------------------------------------------------------------

    /** Picks the slot at the head, or finds that there is nothing left to do. */
    method Take()
      requires Valid() && worker == Waiting && !capture.Copying? && (images.count > 0 || !accepting)
      modifies this`accepting, this`worker, this`owner, this`seen, this`state
      ensures Valid() && Does(if images.count > 0 then Event.Take else Event.Exit)
    {
      seen := [];
      Move(accepting, if images.count > 0 then Reading else Exited, owner);
    }

    /** Reads one byte of the slot, without the lock. */
    method ReadByte()
      requires Valid() && worker == Reading && |seen| < pixels.Length1
      modifies this`seen
      ensures Valid() && |seen| == old(|seen|) + 1
    {
      seen := seen + [pixels[images.head, |seen|]];
    }

    /** Writes what was read: exactly the image that was queued, however the copying interleaved. */
    method Write(disk: Disk)
      requires Valid() && worker == Reading && |seen| == pixels.Length1
      modifies this`worker, this`writeFailed, this`limitReached, this`bytes, this`state
      ensures Valid() && Does(Event.Write(disk))
    {
      PopContents(Slots(), images.head, images.count);
      Store(disk);
    }

    method Store(disk: Disk)
      requires Fields() && state.queue != [] && seen == state.queue[0].image
      modifies this`worker, this`writeFailed, this`limitReached, this`bytes, this`state
      ensures Fields() && state == WriteStep(config, old(state), disk) && worker == Finishing
      ensures state.queue == old(state.queue) && state.releases == old(state.releases)
      ensures state.admitted == old(state.admitted)
    {
      if writeFailed {
        Leave(true, limitReached, bytes);
      } else if disk.Failed? {
        Leave(true, limitReached, bytes);
      } else {
        var size := if config.variable then disk.size else config.recordBytes;
        if size > limit - bytes {
          Leave(true, limitReached || config.variable, bytes);
        } else {
          var full := config.variable && bytes + size == limit;
          state := state.(written := state.written + [seen]);
          Leave(full, limitReached || full, bytes + size);
        }
      }
    }

    method Leave(failed: bool, limited: bool, size: nat)
      requires Fields()
      modifies this`worker, this`writeFailed, this`limitReached, this`bytes, this`state
      ensures Fields() && worker == Finishing
      ensures state
           == old(state).(worker := Finishing, writeFailed := failed, limitReached := limited, bytes := size)
    {
      worker, writeFailed, limitReached, bytes := Finishing, failed, limited, size;
      state := state.(worker := Finishing, writeFailed := failed, limitReached := limited, bytes := size);
    }

    /** Frees the slot. */
    method Finish()
      requires Valid() && worker == Finishing && !capture.Copying?
      modifies this`worker, this`owner, this`images, this`accepting, this`state
      ensures Valid() && Does(Event.Finish)
    {
      PopImage();
      Move(accepting && !writeFailed, Waiting, owner);
    }

    method PopImage()
      requires Shape() && Queues() && images.count > 0
      modifies this`images, this`state
      ensures Queues() && state == old(state).(queue := old(state.queue)[1..])
      ensures images.count == old(images.count) - 1
    {
      PopContents(Slots(), images.head, images.count);
      images := images.Popped(config.slots);
      state := state.(queue := state.queue[1..]);
    }

    /** Moves the worker and the supervisor, and may stop admission. */
    method Move(a: bool, w: Worker, o: Owner)
      requires Fields()
      modifies this`accepting, this`worker, this`owner, this`state
      ensures Fields() && accepting == a && worker == w && owner == o
      ensures state == old(state).(accepting := a, worker := w, owner := o)
    {
      accepting, worker, owner := a, w, o;
      state := state.(accepting := a, worker := w, owner := o);
    }

    // ---- the supervisor ---------------------------------------------------------------------------

    /** `start` up to the creation of the worker. */
    method Start(budget: Option<nat>)
      requires Valid() && LifecycleFree(state)
      modifies this
      ensures Valid() && Does(Event.Start(budget))
    {
      assert |state.releases| == pending.count;
      if worker == Absent && pending.count == 0 {
        if budget.Some? && (config.variable || config.recordBytes <= budget.value) {
          OpenSession(budget.value);
        } else {
          ClearFlags(writeFailed);
        }
      }
    }

    /** A session with nothing admitted and nothing charged. */
    method OpenSession(budget: nat)
      requires Shape() && Fields()
      modifies this`images, this`pending, this`nextImageIndex, this`nextSampleTick, this`reserved, this`bytes
      modifies this`limit, this`startedOnce, this`limitReached, this`writeFailed, this`accepting, this`worker
      modifies this`owner, this`state
      ensures Queues() && Fields() && images.count == pending.count == 0
      ensures accepting && worker == old(worker) && owner == Starting && state == OpenedStep(old(state), budget)
    {
      ClearFlags(false);
      EmptyBooks(budget);
      Move(true, worker, Starting);
      EmptyRings();
    }

    method ClearFlags(failed: bool)
      requires Fields()
      modifies this`startedOnce, this`limitReached, this`writeFailed, this`state
      ensures Fields() && state == old(state).(startedOnce := false, limitReached := false, writeFailed := failed)
    {
      startedOnce, limitReached, writeFailed := false, false, failed;
      state := state.(startedOnce := false, limitReached := false, writeFailed := failed);
    }

    method EmptyRings()
      requires Shape()
      modifies this`images, this`pending, this`nextImageIndex, this`state
      ensures Queues() && images.count == pending.count == 0 && (old(Fields()) ==> Fields())
      ensures state == old(state).(queue := [], releases := [], admitted := [], written := [])
    {
      images, pending, nextImageIndex := Cursor(0, 0, 0), Cursor(0, 0, 0), 1;
      state := state.(queue := [], releases := [], admitted := [], written := []);
    }

    method EmptyBooks(budget: nat)
      requires Fields()
      modifies this`nextSampleTick, this`reserved, this`bytes, this`limit, this`state
      ensures Fields() && state == old(state).(nextTick := 0, reserved := 0, bytes := 0, limit := budget)
    {
      nextSampleTick, reserved, bytes, limit := 0, 0, 0, budget;
      state := state.(nextTick := 0, reserved := 0, bytes := 0, limit := budget);
    }

    method ThreadCreated(ok: bool)
      requires Valid() && owner == Starting
      modifies this`accepting, this`worker, this`owner, this`state
      ensures Valid() && Does(Event.ThreadCreated(ok))
    {
      if ok {
        Move(accepting, Waiting, Checking);
      } else {
        Move(false, worker, Resting);
      }
    }

    method EventsStarted(ok: bool)
      requires Valid() && owner == Checking
      modifies this`accepting, this`startedOnce, this`worker, this`owner, this`state
      ensures Valid() && Does(Event.EventsStarted(ok))
    {
      if ok {
        MarkStarted();
        Move(accepting, worker, Resting);
      } else {
        Move(false, worker, Joining);
      }
    }

    method MarkStarted()
      requires Fields()
      modifies this`startedOnce, this`state
      ensures Fields() && state == old(state).(startedOnce := true)
    {
      startedOnce := true;
      state := state.(startedOnce := true);
    }

    /** `stop_session` up to the join. */
    method Stop()
      requires Valid() && LifecycleFree(state)
      modifies this`accepting, this`worker, this`owner, this`state
      ensures Valid() && Does(Event.Stop)
    {
      Move(false, worker, if worker != Absent then Joining else owner);
    }

    /** The join returns: nothing is left in the queue. */
    method Join()
      requires Valid() && owner == Joining && worker == Exited
      modifies this`accepting, this`worker, this`owner, this`state
      ensures Valid() && images.count == 0 && !accepting && Does(Event.Joined)
    {
      Move(accepting, Absent, Resting);
    }
  }
}
