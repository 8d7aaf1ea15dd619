/** The camera hardware behind the vendor SDK, as far as its teardown order matters. Every call may fail; which
    do is fixed by `answers`, about which nothing is assumed. A call may only be made where its precondition
    allows, so whoever calls these methods is proved to keep the order. Only unmapping is allowed out of order, and
    `early` counts how often that happens. */
module SensorSdk {

  const BUFFERS: nat := 10
  const DUMPS: nat := 10

  datatype Answer = Done | NoFrame | Refused

  /** What the hardware may be holding or doing. A request to switch something on counts from when it is made,
      whatever the answer, for power, pixels and VICAP; everything counts until its release succeeded. */
  datatype Hardware = Hardware(
    attached: bool, pool: bool, vicap: bool, power: bool, receiver: bool, pixels: bool,
    mapped: seq<bool>, dumps: seq<bool>)

  function NoFlags(): (s: seq<bool>)
    ensures |s| == 10 && forall i :: 0 <= i < 10 ==> !s[i]
  {
    seq(10, i => false)
  }

  const OFF: Hardware := Hardware(false, false, false, false, false, false, NoFlags(), NoFlags())

  predicate AllClear(flags: seq<bool>) {
    forall i :: 0 <= i < |flags| ==> !flags[i]
  }

  /** Pixels flow only into a started receiver, the receiver runs only with the sensor powered and VICAP set up,
      VICAP is set up only on a pool, which belongs to an attached camera, and mappings live within VICAP. */
  predicate InOrder(h: Hardware) {
    && |h.mapped| == BUFFERS && |h.dumps| == DUMPS
    && (h.pixels ==> h.receiver)
    && (h.receiver ==> h.power && h.vicap)
    && (h.vicap ==> h.pool)
    && (h.pool ==> h.attached)
    && (!AllClear(h.mapped) ==> h.vicap)
  }

  /** Frames may still arrive, or one is still out. */
  predicate Flowing(h: Hardware) { h.receiver || !AllClear(h.dumps) }

  /** The `n` calls from number `from` on succeed. */
  predicate DoneFrom(answers: nat -> Answer, from: nat, n: nat) {
    forall i :: from <= i < from + n ==> answers(i) == Done
  }

  class Sdk {
    const answers: nat -> Answer
    var asked: nat
    var hw: Hardware
    // How many buffers were unmapped while frames could still arrive.
    ghost var early: nat

    constructor (a: nat -> Answer)
      ensures answers == a && hw == OFF && asked == 0 && early == 0
    {
      answers, asked, hw, early := a, 0, OFF, 0;
    }

    /** Did every call from number `since` on succeed? */
    predicate AllDone(since: nat)
      reads this
    {
      forall i :: since <= i < asked ==> answers(i) == Done
    }

    method Next() returns (done: bool)
      modifies this`asked
      ensures asked == old(asked) + 1 && done == (answers(old(asked)) == Done)
    {
      done := answers(asked) == Done;
      asked := asked + 1;
    }

    /** Probing, attributes, clocks: calls that hold nothing. */
    method Query() returns (done: bool)
      modifies this`asked
      ensures asked == old(asked) + 1 && done == (answers(old(asked)) == Done)
    {
      done := Next();
    }

    method Attach() returns (done: bool)
      requires InOrder(hw) && !hw.attached
      modifies this`asked, this`hw
      ensures InOrder(hw) && hw == old(hw).(attached := done)
      ensures asked == old(asked) + 1 && done == (answers(old(asked)) == Done)
    {
      done := Next();
      hw := hw.(attached := done);
    }

    method CreatePool() returns (done: bool)
      requires InOrder(hw) && hw.attached && !hw.pool
      modifies this`asked, this`hw
      ensures InOrder(hw) && hw == old(hw).(pool := done)
      ensures asked == old(asked) + 1 && done == (answers(old(asked)) == Done)
    {
      done := Next();
      hw := hw.(pool := done);
    }

    method InitVicap() returns (done: bool)
      requires InOrder(hw) && hw.pool && !hw.vicap
      modifies this`asked, this`hw
      ensures InOrder(hw) && hw == old(hw).(vicap := true)
      ensures asked == old(asked) + 1 && done == (answers(old(asked)) == Done)
    {
      done := Next();
      hw := hw.(vicap := true);
    }

    method PowerOn() returns (done: bool)
      requires InOrder(hw) && !hw.power
      modifies this`asked, this`hw
      ensures InOrder(hw) && hw == old(hw).(power := true)
      ensures asked == old(asked) + 1 && done == (answers(old(asked)) == Done)
    {
      done := Next();
      hw := hw.(power := true);
    }

    method StartReceiver() returns (done: bool)
      requires InOrder(hw) && hw.power && hw.vicap && !hw.receiver
      modifies this`asked, this`hw
      ensures InOrder(hw) && hw == old(hw).(receiver := done)
      ensures asked == old(asked) + 1 && done == (answers(old(asked)) == Done)
    {
      done := Next();
      hw := hw.(receiver := done);
    }

    method StartPixels() returns (done: bool)
      requires InOrder(hw) && hw.receiver && !hw.pixels
      modifies this`asked, this`hw
      ensures InOrder(hw) && hw == old(hw).(pixels := true)
      ensures asked == old(asked) + 1 && done == (answers(old(asked)) == Done)
    {
      done := Next();
      hw := hw.(pixels := true);
    }

    method Map(i: nat) returns (done: bool)
      requires InOrder(hw) && hw.vicap && i < BUFFERS && !hw.mapped[i]
      modifies this`asked, this`hw
      ensures InOrder(hw) && hw == old(hw).(mapped := old(hw).mapped[i := done])
      ensures asked == old(asked) + 1 && done == (answers(old(asked)) == Done)
    {
      done := Next();
      hw := hw.(mapped := hw.mapped[i := done]);
    }

    method Dump(slot: nat) returns (a: Answer)
      requires InOrder(hw) && hw.receiver && slot < DUMPS && !hw.dumps[slot]
      modifies this`asked, this`hw
      ensures InOrder(hw) && hw == old(hw).(dumps := old(hw).dumps[slot := a == Done])
      ensures asked == old(asked) + 1 && a == answers(old(asked))
    {
      a := answers(asked);
      asked := asked + 1;
      hw := hw.(dumps := hw.dumps[slot := a == Done]);
    }

    // ---- the way back: only what is held, in reverse order ------------------------------------------

    method ReleaseDump(slot: nat) returns (done: bool)
      requires InOrder(hw) && slot < DUMPS && hw.dumps[slot]
      modifies this`asked, this`hw
      ensures InOrder(hw) && hw == old(hw).(dumps := old(hw).dumps[slot := !done])
      ensures asked == old(asked) + 1 && done == (answers(old(asked)) == Done)
    {
      done := Next();
      hw := hw.(dumps := hw.dumps[slot := !done]);
    }

    method StopPixels() returns (done: bool)
      requires InOrder(hw) && hw.pixels && AllClear(hw.dumps)
      modifies this`asked, this`hw
      ensures InOrder(hw) && hw == old(hw).(pixels := !done)
      ensures asked == old(asked) + 1 && done == (answers(old(asked)) == Done)
    {
      done := Next();
      hw := hw.(pixels := !done);
    }

    method StopReceiver() returns (done: bool)
      requires InOrder(hw) && hw.receiver && !hw.pixels && AllClear(hw.dumps)
      modifies this`asked, this`hw
      ensures InOrder(hw) && hw == old(hw).(receiver := !done)
      ensures asked == old(asked) + 1 && done == (answers(old(asked)) == Done)
    {
      done := Next();
      hw := hw.(receiver := !done);
    }

    method PowerOff() returns (done: bool)
      requires InOrder(hw) && hw.power && !hw.receiver
      modifies this`asked, this`hw
      ensures InOrder(hw) && hw == old(hw).(power := !done)
      ensures asked == old(asked) + 1 && done == (answers(old(asked)) == Done)
    {
      done := Next();
      hw := hw.(power := !done);
    }

    /** Allowed at any time, but counted if the stream or a dump has not been stopped first. */
    method Unmap(i: nat) returns (done: bool)
      requires InOrder(hw) && i < BUFFERS && hw.mapped[i]
      modifies this`asked, this`hw, this`early
      ensures InOrder(hw) && hw == old(hw).(mapped := old(hw).mapped[i := !done])
      ensures early == old(early) + (if Flowing(old(hw)) then 1 else 0)
      ensures asked == old(asked) + 1 && done == (answers(old(asked)) == Done)
    {
      early := early + (if Flowing(hw) then 1 else 0);
      done := Next();
      hw := hw.(mapped := hw.mapped[i := !done]);
    }

    method DeinitVicap() returns (done: bool)
      requires InOrder(hw) && hw.vicap && !hw.receiver && AllClear(hw.mapped) && AllClear(hw.dumps)
      modifies this`asked, this`hw
      ensures InOrder(hw) && hw == old(hw).(vicap := !done)
      ensures asked == old(asked) + 1 && done == (answers(old(asked)) == Done)
    {
      done := Next();
      hw := hw.(vicap := !done);
    }

    method DestroyPool() returns (done: bool)
      requires InOrder(hw) && hw.pool && !hw.vicap
      modifies this`asked, this`hw
      ensures InOrder(hw) && hw == old(hw).(pool := !done)
      ensures asked == old(asked) + 1 && done == (answers(old(asked)) == Done)
    {
      done := Next();
      hw := hw.(pool := !done);
    }

    method Detach() returns (done: bool)
      requires InOrder(hw) && hw.attached && !hw.pool && !hw.power
      modifies this`asked, this`hw
      ensures InOrder(hw) && hw == old(hw).(attached := !done)
      ensures asked == old(asked) + 1 && done == (answers(old(asked)) == Done)
    {
      done := Next();
      hw := hw.(attached := !done);
    }
  }
}
