/** The C++ camera above the C one: its own slots, and move-only handles that release themselves. The two sides'
    books always agree, every held slot has exactly one owner, and no frame changes under its owner. */
module FrameLeases {
  import opened Bytes
  import opened CameraLifecycle
  import opened LeasePools
  import opened SensorSdk

  /** `data` is the C slot whose gray buffer the view points at. */
  datatype Slot = Free | Taken(token: nat, data: nat, pending: bool)

  function CountTaken(slots: seq<Slot>): (n: nat)
    ensures n <= |slots|
  {
    if slots == [] then 0
    else CountTaken(slots[..|slots| - 1]) + (if slots[|slots| - 1].Taken? then 1 else 0)
  }

  lemma {:induction false} CountUpdate(slots: seq<Slot>, i: nat, slot: Slot)
    requires i < |slots|
    ensures CountTaken(slots[i := slot])
         == CountTaken(slots) - (if slots[i].Taken? then 1 else 0) + (if slot.Taken? then 1 else 0)
    decreases |slots|
  {
    var last := |slots| - 1;
    if i == last {
      assert slots[i := slot][..last] == slots[..last];
    } else {
      CountUpdate(slots[..last], i, slot);
      assert slots[i := slot][..last] == slots[..last][i := slot];
    }
  }

  lemma {:induction false} FreeCounts(slots: seq<Slot>, i: nat)
    requires i < |slots| && slots[i].Free?
    ensures CountTaken(slots) < |slots|
    decreases |slots|
  {
    if i < |slots| - 1 {
      FreeCounts(slots[..|slots| - 1], i);
    }
  }

  /** Both sides hold the same tokens, each in exactly one slot of either side. */
  ghost predicate Matched(slots: seq<Slot>, tokens: seq<nat>) {
    && (forall i :: 0 <= i < |slots| && slots[i].Taken? ==>
          slots[i].data < |tokens| && tokens[slots[i].data] == slots[i].token != 0)
    && (forall i, j :: 0 <= i < j < |slots| && slots[i].Taken? && slots[j].Taken? ==> slots[i].data != slots[j].data)
    && (forall d :: 0 <= d < |tokens| && tokens[d] != 0 ==> HeldAt(slots, d))
  }

  ghost predicate HeldAt(slots: seq<Slot>, d: nat) {
    exists i :: 0 <= i < |slots| && slots[i].Taken? && slots[i].data == d
  }

  /** The tokens held on the C++ side are exactly the C pool's live tokens. */
  lemma TokensAgree(slots: seq<Slot>, tokens: seq<nat>)
    requires Matched(slots, tokens)
    ensures (set i | 0 <= i < |slots| && slots[i].Taken? :: slots[i].token)
         == (set d | 0 <= d < |tokens| && tokens[d] != 0 :: tokens[d])
  {
    forall d | 0 <= d < |tokens| && tokens[d] != 0
      ensures exists i :: 0 <= i < |slots| && slots[i].Taken? && slots[i].token == tokens[d]
    {
      var k :| 0 <= k < |slots| && slots[k].Taken? && slots[k].data == d;
    }
  }

  lemma MatchedTake(slots: seq<Slot>, tokens: seq<nat>, i: nat, d: nat, token: nat)
    requires Matched(slots, tokens) && i < |slots| && slots[i].Free? && d < |tokens| && tokens[d] == 0 != token
    ensures Matched(slots[i := Taken(token, d, false)], tokens[d := token])
  {
    var s, t := slots[i := Taken(token, d, false)], tokens[d := token];
    forall e | 0 <= e < |t| && t[e] != 0
      ensures HeldAt(s, e)
    {
      if e == d {
        assert s[i].data == e;
      } else {
        var k :| 0 <= k < |slots| && slots[k].Taken? && slots[k].data == e;
        assert s[k].data == e;
      }
    }
  }

  lemma MatchedFree(slots: seq<Slot>, tokens: seq<nat>, i: nat)
    requires Matched(slots, tokens) && i < |slots| && slots[i].Taken?
    ensures Matched(slots[i := Free], tokens[slots[i].data := 0])
  {
    var s, t := slots[i := Free], tokens[slots[i].data := 0];
    forall e | 0 <= e < |t| && t[e] != 0
      ensures HeldAt(s, e)
    {
      var k :| 0 <= k < |slots| && slots[k].Taken? && slots[k].data == e;
      assert s[k].data == e;
    }
  }

  predicate Pending(slot: Slot) { slot.Taken? && slot.pending }

  /** Some pending slots have become free, and nothing else has changed. */
  ghost predicate Retried(before: seq<Slot>, after: seq<Slot>) {
    && |before| == |after|
    && forall i :: 0 <= i < |before| ==> after[i] == before[i] || (after[i] == Free && Pending(before[i]))
  }

  ghost predicate SettledBelow(slots: seq<Slot>, n: nat) {
    n <= |slots| && forall i :: 0 <= i < n ==> !Pending(slots[i])
  }

  lemma RetriedOneMore(before: seq<Slot>, now: seq<Slot>, after: seq<Slot>, i: nat)
    requires Retried(before, now) && SettledBelow(now, i) && i < |now|
    requires after == now || (Pending(now[i]) && after == now[i := Free])
    ensures Retried(before, after) && (!Pending(after[i]) ==> SettledBelow(after, i + 1))
  {
  }

  predicate NonePending(slots: seq<Slot>) {
    forall i :: 0 <= i < |slots| ==> !Pending(slots[i])
  }

  predicate AnyTaken(slots: seq<Slot>) {
    exists i :: 0 <= i < |slots| && slots[i].Taken?
  }

  predicate AllLent(slots: seq<Slot>) {
    forall i :: 0 <= i < |slots| ==> slots[i].Taken? && !slots[i].pending
  }

  /** With every slot taken, a retry has freed none; with nothing pending, it has found nothing to do. */
  lemma RetryFindsNone(before: seq<Slot>, after: seq<Slot>)
    requires Retried(before, after)
    ensures (forall i :: 0 <= i < |after| ==> after[i].Taken?) ==> after == before
    ensures AllLent(before) || NonePending(before) ==> after == before
  {
  }

  /** What the holder of slot `i` sees. */
  function Seen(slots: seq<Slot>, gray: seq<seq<Byte>>, i: int): seq<Byte> {
    if 0 <= i < |slots| && slots[i].Taken? && slots[i].data < |gray| then gray[slots[i].data] else []
  }

  lemma OthersSeeTheSame(
      before: seq<Slot>, after: seq<Slot>, tokens: seq<nat>, gray: seq<seq<Byte>>, now: seq<seq<Byte>>, i: nat)
    requires Matched(before, tokens) && i < |before| == |after| && before[i].Free? && |gray| == |now| == |tokens|
    requires forall j :: 0 <= j < |before| && j != i ==> after[j] == before[j]
    requires forall d :: 0 <= d < |tokens| && tokens[d] != 0 ==> now[d] == gray[d]
    ensures forall j :: 0 <= j < |before| && before[j].Taken? ==>
              after[j] == before[j] && Seen(after, now, j) == Seen(before, gray, j)
  {
  }

  lemma PutBack(before: seq<Slot>, after: seq<Slot>, i: nat)
    requires i < |before| == |after| && before[i].Free? && after == before[i := after[i]]
    ensures after[i := Free] == before
  {
  }

  /** Everyone who held a frame before still holds it, in the same slot, with the same pixels. */
  ghost predicate Undisturbed(
      slots: seq<Slot>, holders: seq<FrameLease?>, gray: seq<seq<Byte>>, after: seq<Slot>, now: seq<FrameLease?>,
      shown: seq<seq<Byte>>)
  {
    && |after| == |slots| == |holders| == |now|
    && forall i :: 0 <= i < |slots| && holders[i] != null ==>
         now[i] == holders[i] && after[i] == slots[i] && Seen(after, shown, i) == Seen(slots, gray, i)
  }

  lemma UndisturbedTwice(
      slots: seq<Slot>, holders: seq<FrameLease?>, gray: seq<seq<Byte>>, after: seq<Slot>, now: seq<FrameLease?>,
      shown: seq<seq<Byte>>, last: seq<Slot>, left: seq<FrameLease?>, seen: seq<seq<Byte>>)
    requires Undisturbed(slots, holders, gray, after, now, shown)
    requires Undisturbed(after, now, shown, last, left, seen)
    ensures Undisturbed(slots, holders, gray, last, left, seen)
  {
  }

  lemma UndisturbedByTake(
      slots: seq<Slot>, holders: seq<FrameLease?>, gray: seq<seq<Byte>>, after: seq<Slot>, shown: seq<seq<Byte>>)
    requires |after| == |slots| == |holders|
    requires forall j :: 0 <= j < |slots| && holders[j] != null ==> slots[j].Taken?
    requires forall j :: 0 <= j < |slots| && slots[j].Taken? ==>
               after[j] == slots[j] && Seen(after, shown, j) == Seen(slots, gray, j)
    ensures Undisturbed(slots, holders, gray, after, holders, shown)
  {
  }

  lemma UndisturbedByHandle(
      slots: seq<Slot>, holders: seq<FrameLease?>, gray: seq<seq<Byte>>, after: seq<Slot>, now: seq<FrameLease?>,
      shown: seq<seq<Byte>>, i: nat, lease: FrameLease)
    requires Undisturbed(slots, holders, gray, after, now, shown)
    requires i < |now| && now == holders && holders[i] == null
    ensures Undisturbed(slots, holders, gray, after, now[i := lease], shown)
  {
  }

  datatype AcquireStatus = Frame | NoFrame | LeaseExhausted | Error

  class LeasedCamera {
    const device: Camera
    var slots: seq<Slot>
    // Which handle refers to each slot, if any.
    ghost var holders: seq<FrameLease?>

    ghost predicate Books()
      reads this`slots, device, device.sdk, device.leases, device.leases.slots
    {
      && device.Valid() && 0 < |slots| <= SLOTS
      && (device.f.state != Empty ==> device.leases.capacity == |slots|)
      && Matched(slots, device.leases.slots[..]) && CountTaken(slots) == device.leases.active
    }

    /** No frame of a live lease is still with the driver, and no release has failed. It holds from the start and
        every operation keeps it, so that the ways out of a failed release are there but never taken. */
    ghost predicate Calm()
      reads this`slots, device, device.leases, device.leases.slots
    {
      && device.leases.slots.Length == |device.f.held| && device.NothingRetained()
      && NonePending(slots)
    }

    /** A taken slot has one handle, which points back at it, or an error waiting to be retried, never both. */
    ghost predicate OwnedBut(except: int)
      reads this`slots, this`holders, set i | 0 <= i < |holders| :: holders[i]
    {
      && |holders| == |slots|
      && forall i :: 0 <= i < |slots| && i != except ==>
           match slots[i]
           case Free => holders[i] == null
           case Taken(_, _, pending) =>
             if pending then holders[i] == null
             else holders[i] != null && holders[i].camera == this && holders[i].slot == i
    }

    ghost predicate Owned()
      reads this`slots, this`holders, set i | 0 <= i < |holders| :: holders[i]
    {
      OwnedBut(-1)
    }

    twostate predicate NoneDisturbed()
      reads this, device
    {
      Undisturbed(old(slots), old(holders), old(device.gray), slots, holders, device.gray)
    }

    ghost predicate Valid()
      reads this`slots, this`holders, device, device.sdk, device.leases, device.leases.slots
      reads set i | 0 <= i < |holders| :: holders[i]
    {
      Books() && Owned()
    }

    constructor (d: Camera, capacity: nat)
      requires d.Valid() && d.f.state == Initialized && 0 < d.leases.capacity == capacity
      ensures Valid() && device == d && |slots| == capacity && forall i :: 0 <= i < capacity ==> slots[i] == Free
      ensures Calm()
    {
      device := d;
      slots := seq(capacity, i => Free);
      holders := seq(capacity, i => null);
      new;
      HeldNone(device.leases.slots[..]);
      CountNone(slots);
    }

    /** The pixels the holder of a slot sees. */
    ghost function View(i: int): seq<Byte>
      reads this, device
    {
      Seen(slots, device.gray, i)
    }

    /** Gives one slot's frame back to the C camera; on success its token is gone for good. */
    method ReleaseSlot(i: nat) returns (ok: bool)
      requires Books() && i < |slots| && slots[i].Taken?
      modifies this`slots, device`f, device.sdk`asked, device.sdk`hw, device.leases`active, device.leases.slots
      ensures Books() && device.gray == old(device.gray) && device.f.state == old(device.f.state)
      ensures ok ==> slots == old(slots)[i := Free] && device.leases.Retired(old(slots)[i].token)
      ensures old(Calm()) ==> Calm() && ok
      ensures !ok ==> slots == old(slots)
      ensures !ok ==> exists d :: 0 <= d < SLOTS && device.leases.slots[d] == slots[i].token && device.f.held[d]
    {
      var slot := slots[i];
      ghost var tokens := device.leases.slots[..];
      var r := device.ReleaseFrame(Handle(true, true, slot.token));
      ok := r == Ok;
      if ok {
        assert device.leases.slots[..] == tokens[slot.data := 0];
        MatchedFree(slots, tokens, i);
        CountUpdate(slots, i, Free);
        slots := slots[i := Free];
      } else {
        assert device.leases.slots[..] == tokens && tokens[slot.data] == slot.token;
      }
    }

    /** Retries every release that failed when its handle went away, in slot order, up to the first that fails
        again. Nothing that has a handle is touched. */
    method RetryPending() returns (ok: bool)
      requires Valid()
      modifies this`slots, device`f, device.sdk`asked, device.sdk`hw, device.leases`active, device.leases.slots
      ensures Valid() && Retried(old(slots), slots) && NoneDisturbed()
      ensures ok <==> NonePending(slots)
      ensures device.f.state == old(device.f.state)
      ensures old(Calm()) ==> Calm()
    {
      ghost var before := slots;
      var i := 0;
      while i < |slots|
        invariant Valid() && device.gray == old(device.gray) && Retried(before, slots) && SettledBelow(slots, i)
        invariant (old(Calm()) ==> Calm()) && device.f.state == old(device.f.state)
      {
        ghost var now := slots;
        ok := RetrySlot(i);
        RetriedOneMore(before, now, slots, i);
        if !ok {
          return;
        }
        i := i + 1;
      }
      ok := true;
    }

    method RetrySlot(i: nat) returns (ok: bool)
      requires Valid() && i < |slots|
      modifies this`slots, device`f, device.sdk`asked, device.sdk`hw, device.leases`active, device.leases.slots
      ensures Valid() && device.gray == old(device.gray) && device.f.state == old(device.f.state)
      ensures slots == old(slots) || (Pending(old(slots)[i]) && slots == old(slots)[i := Free])
      ensures ok <==> !Pending(slots[i])
      ensures old(Calm()) ==> Calm() && slots == old(slots)
    {
      ok := true;
      if Pending(slots[i]) {
        ok := ReleaseSlot(i);
      }
    }

    method FreeSlot() returns (i: nat)
      ensures i <= |slots| && (i < |slots| ==> slots[i].Free?)
      ensures i == |slots| ==> forall j :: 0 <= j < |slots| ==> slots[j].Taken?
    {
      i := 0;
      while i < |slots| && slots[i].Taken?
        invariant i <= |slots| && forall j :: 0 <= j < i ==> slots[j].Taken?
      {
        i := i + 1;
      }
    }

    /** Takes a frame into slot `i`. While a slot is free here, the C pool has room as well. */
    method TakeFrame(i: nat, timeout: nat, shot: Shot) returns (r: Result)
      requires Books() && i < |slots| && slots[i].Free?
      modifies this`slots, device`f, device`gray, device.sdk`asked, device.sdk`hw, device.leases`nextToken,
        device.leases`active, device.leases.slots
      ensures Books() && r != Busy
      ensures old(Calm()) ==> Calm()
      ensures r == Ok ==>
                && |slots| == |old(slots)| && slots[i].Taken? && slots == old(slots)[i := slots[i]] && !slots[i].pending
                && slots[i].token == old(device.leases.nextToken) + 1 == device.leases.nextToken
                && Depicts(device.view, shot.raw, View(i))
      ensures r != Ok ==> slots == old(slots)
      ensures forall j :: 0 <= j < |slots| && old(slots)[j].Taken? ==>
                slots[j] == old(slots)[j] && View(j) == old(View(j))
    {
      FreeCounts(slots, i);
      var frame;
      ghost var tokens, before, gray := device.leases.slots[..], slots, device.gray;
      r, frame := device.AcquireFrame(timeout, shot);
      if frame.Leased? {
        Enter(i, frame.token, frame.slot, tokens);
      }
      OthersSeeTheSame(before, slots, tokens, gray, device.gray, i);
    }

    /** Notes a new lease of the C pool in slot `i`. */
    method Enter(i: nat, token: nat, data: nat, ghost tokens: seq<nat>)
      requires i < |slots| <= SLOTS && slots[i].Free? && Matched(slots, tokens) && device.Valid()
      requires device.f.state != Empty ==> device.leases.capacity == |slots|
      requires data < |tokens| && tokens[data] == 0 != token && device.leases.slots[..] == tokens[data := token]
      requires device.leases.active == CountTaken(slots) + 1
      modifies this`slots
      ensures Books() && slots == old(slots)[i := Taken(token, data, false)]
    {
      MatchedTake(slots, tokens, i, data, token);
      CountUpdate(slots, i, Taken(token, data, false));
      slots := slots[i := Taken(token, data, false)];
    }

    /** A handle for a new frame, or why there is none. A lost frame costs no capacity, a frame someone holds
        keeps its pixels, and exhaustion is reported exactly when every slot here is taken. */
    method Acquire(timeout: int, shot: Shot) returns (status: AcquireStatus, lease: FrameLease?)
      requires Valid()
      modifies this`slots, this`holders, device`f, device`gray, device.sdk`asked, device.sdk`hw,
        device.leases`nextToken, device.leases`active, device.leases.slots
      ensures Valid() && NoneDisturbed() && (old(Calm()) ==> Calm())
      ensures status == Frame <==> lease != null
      ensures lease != null ==>
                && fresh(lease) && lease.Owns() && lease.camera == this
                && Depicts(device.view, shot.raw, View(lease.slot))
                && lease.slot < |slots| && slots[lease.slot].Taken?
                && slots[lease.slot].token > old(device.leases.nextToken)
      ensures Retried(old(slots), if lease == null then slots else slots[lease.slot := Free])
      ensures status == LeaseExhausted ==> slots == old(slots) && forall i :: 0 <= i < |slots| ==> slots[i].Taken?
      ensures 0 <= timeout <= 1000 && AllLent(old(slots)) ==> status == LeaseExhausted
    {
      lease := null;
      ghost var before := slots;
      var retried := RetryPending();
      RetryFindsNone(before, slots);
      if !retried || timeout < 0 || timeout > 1000 {
        return Error, null;
      }
      ghost var now, kept, gray := slots, holders, device.gray;
      status, lease := AcquireFree(timeout, shot);
      UndisturbedTwice(before, old(holders), old(device.gray), now, kept, gray, slots, holders, device.gray);
      if lease != null {
        PutBack(now, slots, lease.slot);
      }
    }

    method AcquireFree(timeout: nat, shot: Shot)
      returns (status: AcquireStatus, lease: FrameLease?)
      requires Valid()
      modifies this`slots, this`holders, device`f, device`gray, device.sdk`asked, device.sdk`hw,
        device.leases`nextToken, device.leases`active, device.leases.slots
      ensures Valid() && NoneDisturbed() && (old(Calm()) ==> Calm())
      ensures status == Frame <==> lease != null
      ensures lease != null ==>
                && fresh(lease) && lease.Owns() && lease.camera == this
                && Depicts(device.view, shot.raw, View(lease.slot))
                && lease.slot < |slots| && slots[lease.slot].Taken?
                && slots[lease.slot].token > old(device.leases.nextToken)
      ensures status == LeaseExhausted <==> forall i :: 0 <= i < |old(slots)| ==> old(slots)[i].Taken?
      ensures lease == null ==> slots == old(slots)
      ensures lease != null ==> old(slots)[lease.slot].Free? && slots == old(slots)[lease.slot := slots[lease.slot]]
    {
      var i := FreeSlot();
      if i == |slots| {
        return LeaseExhausted, null;
      }
      var r;
      r, lease := Lend(i, timeout, shot);
      // The C pool never runs out here: the sizes agree, and so do the books.
      status := if r == Ok then Frame else if r == NoFrameYet then AcquireStatus.NoFrame
                else if r == Busy then LeaseExhausted else Error;
    }

    /** Takes a frame into a free slot and makes its handle. */
    method Lend(i: nat, timeout: nat, shot: Shot) returns (r: Result, lease: FrameLease?)
      requires Valid() && i < |slots| && slots[i].Free?
      modifies this`slots, this`holders, device`f, device`gray, device.sdk`asked, device.sdk`hw,
        device.leases`nextToken, device.leases`active, device.leases.slots
      ensures Valid() && NoneDisturbed() && r != Busy && (r == Ok <==> lease != null)
      ensures old(Calm()) ==> Calm()
      ensures slots == if r == Ok then old(slots)[i := slots[i]] else old(slots)
      ensures lease != null ==>
                && fresh(lease) && lease.camera == this && lease.slot == i && lease.Owns()
                && slots[i].Taken? && slots[i].token > old(device.leases.nextToken)
                && Depicts(device.view, shot.raw, View(i))
    {
      lease := null;
      r := TakeUnowned(i, timeout, shot);
      if r == Ok {
        ghost var kept := holders;
        lease := MakeHandle(i);
        UndisturbedByHandle(old(slots), old(holders), old(device.gray), slots, kept, device.gray, i, lease);
      }
    }

    method TakeUnowned(i: nat, timeout: nat, shot: Shot) returns (r: Result)
      requires Valid() && i < |slots| && slots[i].Free?
      modifies this`slots, device`f, device`gray, device.sdk`asked, device.sdk`hw, device.leases`nextToken,
        device.leases`active, device.leases.slots
      ensures Books() && OwnedBut(i) && holders[i] == null && NoneDisturbed() && r != Busy
      ensures old(Calm()) ==> Calm()
      ensures slots == if r == Ok then old(slots)[i := slots[i]] else old(slots)
      ensures r == Ok ==>
                && slots[i].Taken? && !slots[i].pending && slots[i].token > old(device.leases.nextToken)
                && Depicts(device.view, shot.raw, View(i))
    {
      ghost var before, gray := slots, device.gray;
      assert forall j :: 0 <= j < |slots| && holders[j] != null ==> slots[j].Taken?;
      r := TakeFrame(i, timeout, shot);
      UndisturbedByTake(before, holders, gray, slots, device.gray);
    }

    /** The stream is not stopped under anyone: stopping succeeds only with every slot free. */
    method Stop() returns (r: Result)
      requires Valid()
      modifies this`slots, device`f, device.sdk`asked, device.sdk`hw, device.leases`active, device.leases.slots
      ensures Valid() && NoneDisturbed() && Retried(old(slots), slots)
      ensures old(Calm()) ==> Calm()
      ensures r == Busy ==> device.f.state != Empty && AnyTaken(slots)
      ensures NonePending(old(slots)) && old(device.f.state) != Empty && AnyTaken(old(slots)) ==> r == Busy
      ensures r == Ok ==> forall i :: 0 <= i < |slots| ==> slots[i].Free?
    {
      ghost var before := slots;
      var retried := RetryPending();
      RetryFindsNone(before, slots);
      if !retried {
        return Failed;
      }
      r := StopDevice();
    }

    method StopDevice() returns (r: Result)
      requires Valid()
      modifies device`f, device.sdk`asked, device.sdk`hw
      ensures Valid() && (old(Calm()) ==> Calm())
      ensures r == Busy <==> old(device.f.state) != Empty && AnyTaken(slots)
      ensures r == Busy ==> device.f.state != Empty
      ensures r == Ok ==> forall i :: 0 <= i < |slots| ==> slots[i].Free?
    {
      SomeTaken(slots);
      r := device.Stop();
    }

    /** The handle of a slot is going away although its frame could not be given back. */
    method KeepForRetry(i: nat)
      requires Valid() && i < |slots| && slots[i].Taken?
      modifies this`slots, this`holders
      ensures Valid() && slots == old(slots)[i := old(slots)[i].(pending := true)]
      ensures holders == old(holders)[i := null]
    {
      MatchedPending(slots, device.leases.slots[..], i);
      slots := slots[i := slots[i].(pending := true)];
      holders := holders[i := null];
    }

    method MakeHandle(i: nat) returns (lease: FrameLease)
      requires OwnedBut(i) && i < |slots| && slots[i].Taken? && !slots[i].pending
      modifies this`holders
      ensures fresh(lease) && lease.camera == this && lease.slot == i && holders == old(holders)[i := lease] && Owned()
    {
      lease := new FrameLease(this, i);
      holders := holders[i := lease];
    }
  }

  lemma {:induction false} SomeTaken(slots: seq<Slot>)
    ensures CountTaken(slots) > 0 <==> exists i :: 0 <= i < |slots| && slots[i].Taken?
    decreases |slots|
  {
    if slots != [] {
      var front := slots[..|slots| - 1];
      SomeTaken(front);
      if i :| 0 <= i < |front| && front[i].Taken? {
        assert slots[i].Taken?;
      }
      if i :| 0 <= i < |slots| && slots[i].Taken? {
        assert i == |front| || front[i].Taken?;
      }
    }
  }

  lemma MatchedPending(slots: seq<Slot>, tokens: seq<nat>, i: nat)
    requires Matched(slots, tokens) && i < |slots| && slots[i].Taken?
    ensures Matched(slots[i := slots[i].(pending := true)], tokens)
    ensures CountTaken(slots[i := slots[i].(pending := true)]) == CountTaken(slots)
  {
    var s := slots[i := slots[i].(pending := true)];
    CountUpdate(slots, i, s[i]);
    forall e | 0 <= e < |tokens| && tokens[e] != 0
      ensures HeldAt(s, e)
    {
      var k :| 0 <= k < |slots| && slots[k].Taken? && slots[k].data == e;
      assert s[k].data == e;
    }
  }

  lemma {:induction false} CountNone(slots: seq<Slot>)
    requires forall i :: 0 <= i < |slots| ==> slots[i] == Free
    ensures CountTaken(slots) == 0
  {
    if slots != [] {
      CountNone(slots[..|slots| - 1]);
    }
  }

  class FrameLease {
    const camera: LeasedCamera
    var slot: int

    /** Refers to a slot that refers back. */
    ghost predicate Owns()
      reads this, camera
    {
      0 <= slot < |camera.holders| && camera.holders[slot] == this
    }

    /** Empty, or the one owner of its slot. */
    ghost predicate Proper()
      reads this, camera
    {
      slot == -1 || Owns()
    }

    constructor (c: LeasedCamera, s: int)
      ensures camera == c && slot == s
    {
      camera, slot := c, s;
    }

    /** The new handle takes over; the other one is left empty. */
    constructor Move(other: FrameLease)
      requires other.camera.Valid() && other.Proper()
      modifies other, other.camera`holders
      ensures camera == other.camera && slot == old(other.slot) && other.slot == -1
      ensures camera.Valid() && Proper() && camera.slots == old(other.camera.slots)
      ensures slot >= 0 ==> camera.holders == old(other.camera.holders)[slot := this]
      ensures slot == -1 ==> camera.holders == old(other.camera.holders)
      ensures old(other.camera.Calm()) ==> camera.Calm()
    {
      camera, slot := other.camera, other.slot;
      new;
      if slot >= 0 {
        camera.holders := camera.holders[slot := this];
      }
      other.slot := -1;
    }

    /** Gives the frame back. The handle is empty afterwards, unless the C camera could not take the frame back:
        then it still owns it and can try again. Releasing an empty handle does nothing. */
    method Release() returns (ok: bool)
      requires camera.Valid() && Proper()
      modifies this, camera`slots, camera`holders, camera.device`f, camera.device.sdk`asked,
        camera.device.sdk`hw, camera.device.leases`active, camera.device.leases.slots
      ensures camera.Valid() && Proper() && camera.device.gray == old(camera.device.gray)
      ensures old(slot) == -1 ==> ok && camera.slots == old(camera.slots) && camera.holders == old(camera.holders)
      ensures old(camera.Calm()) ==> camera.Calm() && ok
      ensures ok ==> slot == -1
      ensures ok && old(slot) >= 0 ==>
                && camera.slots == old(camera.slots)[old(slot) := Free]
                && camera.holders == old(camera.holders)[old(slot) := null]
                && camera.device.leases.Retired(old(camera.slots)[old(slot)].token)
      ensures !ok ==> slot == old(slot) && camera.slots == old(camera.slots) && camera.holders == old(camera.holders)
    {
      if slot == -1 {
        return true;
      }
      ok := camera.ReleaseSlot(slot);
      if ok {
        Forget();
      }
    }

    method Forget()
      requires camera.Books() && camera.OwnedBut(slot) && 0 <= slot < |camera.slots| && camera.slots[slot].Free?
      requires camera.holders[slot] == this
      modifies this, camera`holders
      ensures camera.Valid() && slot == -1 && camera.holders == old(camera.holders)[old(slot) := null]
      ensures old(camera.Calm()) ==> camera.Calm()
    {
      camera.holders := camera.holders[slot := null];
      slot := -1;
    }

    /** The end of a handle's life: its frame is given back, or left to the camera to retry. */
    method Drop()
      requires camera.Valid() && Proper()
      modifies this, camera`slots, camera`holders, camera.device`f, camera.device.sdk`asked,
        camera.device.sdk`hw, camera.device.leases`active, camera.device.leases.slots
      ensures camera.Valid() && slot == -1 && camera.device.gray == old(camera.device.gray)
      ensures old(camera.Calm()) ==>
                camera.Calm() && (old(slot) >= 0 ==> camera.slots == old(camera.slots)[old(slot) := Free])
      ensures old(slot) == -1 ==> camera.slots == old(camera.slots) && camera.holders == old(camera.holders)
      ensures old(slot) >= 0 ==>
                && camera.holders == old(camera.holders)[old(slot) := null]
                && (camera.slots == old(camera.slots)[old(slot) := Free]
                    || camera.slots == old(camera.slots)[old(slot) := old(camera.slots)[old(slot)].(pending := true)])
    {
      var ok := Release();
      if !ok {
        LeaveToCamera();
      }
    }

    method LeaveToCamera()
      requires camera.Valid() && Owns() && camera.slots[slot].Taken?
      modifies this, camera`slots, camera`holders
      ensures camera.Valid() && slot == -1
      ensures camera.slots == old(camera.slots)[old(slot) := old(camera.slots)[old(slot)].(pending := true)]
      ensures camera.holders == old(camera.holders)[old(slot) := null]
    {
      camera.KeepForRetry(slot);
      slot := -1;
    }

    /** Move assignment: the frame held so far goes back, then the other handle's frame moves over. Assigning a
        handle to itself does nothing. */
    method Assign(other: FrameLease)
      requires camera.Valid() && Proper() && other.Proper() && other.camera == camera
      modifies this, other, camera`slots, camera`holders, camera.device`f, camera.device.sdk`asked,
        camera.device.sdk`hw, camera.device.leases`active, camera.device.leases.slots
      ensures camera.Valid() && Proper() && slot == old(other.slot) && (other != this ==> other.slot == -1)
      ensures slot >= 0 ==> camera.slots[slot] == old(camera.slots)[slot] && camera.holders[slot] == this
      ensures other == this || old(slot) == -1 ==> camera.slots == old(camera.slots)
      ensures old(camera.Calm()) ==>
                && camera.Calm()
                && (other != this && old(slot) >= 0 ==> camera.slots == old(camera.slots)[old(slot) := Free])
      ensures other != this && old(slot) >= 0 ==>
                && (camera.slots == old(camera.slots)[old(slot) := Free]
                    || camera.slots == old(camera.slots)[old(slot) := old(camera.slots)[old(slot)].(pending := true)])
                && camera.holders[old(slot)] == null
    {
      if other == this {
        return;
      }
      Drop();
      TakeOver(other);
    }

    method TakeOver(other: FrameLease)
      requires camera.Valid() && slot == -1 && other.Proper() && other != this && other.camera == camera
      modifies this, other, camera`holders
      ensures camera.Valid() && Proper() && slot == old(other.slot) && other.slot == -1
      ensures slot >= 0 ==> camera.holders == old(camera.holders)[slot := this]
      ensures slot == -1 ==> camera.holders == old(camera.holders)
      ensures old(camera.Calm()) ==> camera.Calm()
    {
      slot := other.slot;
      if slot >= 0 {
        camera.holders := camera.holders[slot := this];
      }
      other.slot := -1;
    }
  }
}
