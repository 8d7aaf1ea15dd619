/** The bounded pool of frame leases: one token per held slot, from a counter that only goes up. */
module LeasePools {
  const SLOTS: nat := 10
  const MAX_TOKEN: nat := 0xFFFF_FFFF_FFFF_FFFF

  /** How many slots hold a token. */
  function Held(tokens: seq<nat>): (n: nat)
    ensures n <= |tokens|
  {
    if tokens == [] then 0
    else Held(tokens[..|tokens| - 1]) + (if tokens[|tokens| - 1] != 0 then 1 else 0)
  }

  lemma {:induction false} HeldUpdate(tokens: seq<nat>, i: nat, token: nat)
    requires i < |tokens|
    ensures Held(tokens[i := token])
         == Held(tokens) - (if tokens[i] != 0 then 1 else 0) + (if token != 0 then 1 else 0)
    decreases |tokens|
  {
    var last := |tokens| - 1;
    if i == last {
      assert tokens[i := token][..last] == tokens[..last];
    } else {
      HeldUpdate(tokens[..last], i, token);
      assert tokens[i := token][..last] == tokens[..last][i := token];
    }
  }

  /** If every slot up to `n` holds a token, at least `n` are counted. */
  lemma {:induction false} HeldFull(tokens: seq<nat>, n: nat)
    requires n <= |tokens| && forall i :: 0 <= i < n ==> tokens[i] != 0
    ensures Held(tokens) >= n
    decreases |tokens|
  {
    if tokens != [] {
      var last := |tokens| - 1;
      HeldFull(tokens[..last], if n <= last then n else last);
    }
  }

  lemma {:induction false} HeldNone(tokens: seq<nat>)
    ensures Held(tokens) == 0 <==> forall i :: 0 <= i < |tokens| ==> tokens[i] == 0
  {
    if tokens != [] {
      HeldNone(tokens[..|tokens| - 1]);
    }
  }

  datatype Acquired = Exhausted | OutOfTokens | Leased(slot: nat, token: nat)

  /** A frame handed back: are its interface version and size the current ones, is the camera its owner, and its
      token. */
  datatype Handle = Handle(current: bool, ours: bool, token: nat)

  datatype Resolved = Mismatch | Stale | Slot(slot: nat)

  class LeasePool {
    const slots: array<nat>
    var nextToken: nat
    var capacity: nat
    var active: nat

    ghost predicate Valid()
      reads this, slots
    {
      && slots.Length == SLOTS && capacity <= SLOTS && active == Held(slots[..]) && nextToken <= MAX_TOKEN
      && (forall i :: capacity <= i < SLOTS ==> slots[i] == 0)
      && (forall i :: 0 <= i < SLOTS ==> slots[i] <= nextToken)
      && (forall i, j :: 0 <= i < j < SLOTS && slots[i] == slots[j] ==> slots[i] == 0)
    }

    /** A token this pool has issued since it was last initialised and that is no longer held. */
    ghost predicate Retired(token: nat)
      requires slots.Length == SLOTS
      reads this, slots
    {
      0 < token <= nextToken && forall i :: 0 <= i < SLOTS ==> slots[i] != token
    }

    constructor ()
      ensures Valid() && fresh(slots) && active == 0
    {
      slots := new nat[SLOTS](i => 0);
      nextToken, capacity, active := 0, 0, 0;
      new;
      HeldNone(slots[..]);
    }

    /** Forgets every token. Tokens start over, so they are distinct only between two calls of this. */
    method Init(limit: nat)
      requires slots.Length == SLOTS
      modifies this, slots
      ensures Valid() && capacity == (if limit > SLOTS then SLOTS else limit) && active == 0 && nextToken == 0
      ensures forall i :: 0 <= i < SLOTS ==> slots[i] == 0
    {
      forall i | 0 <= i < SLOTS {
        slots[i] := 0;
      }
      nextToken, active := 0, 0;
      capacity := if limit > SLOTS then SLOTS else limit;
      HeldNone(slots[..]);
    }

    /** The first free slot gets a token never issued before; nothing else changes. */
    method Acquire() returns (r: Acquired)
      requires Valid()
      modifies this`nextToken, this`active, slots
      ensures Valid()
      ensures r == Exhausted <==> old(active) >= capacity
      ensures r == OutOfTokens <==> old(active) < capacity && old(nextToken) >= MAX_TOKEN
      ensures !r.Leased? ==> slots[..] == old(slots[..]) && nextToken == old(nextToken) && active == old(active)
      ensures r.Leased? ==>
                && r.slot < capacity && r.token == nextToken == old(nextToken) + 1 && active == old(active) + 1
                && old(slots[..])[r.slot] == 0 && slots[..] == old(slots[..])[r.slot := r.token]
                && forall i :: 0 <= i < r.slot ==> old(slots[..])[i] != 0
      ensures forall t :: old(Retired(t)) ==> Retired(t)
    {
      if active >= capacity {
        return Exhausted;
      }
      if nextToken >= MAX_TOKEN {
        return OutOfTokens;
      }
      var slot := 0;
      while slot < capacity && slots[slot] != 0
        invariant slot <= capacity && forall i :: 0 <= i < slot ==> slots[i] != 0
      {
        slot := slot + 1;
      }
      if slot == capacity {
        HeldFull(slots[..], capacity);
        assert false;
      }
      HeldUpdate(slots[..], slot, nextToken + 1);
      nextToken := nextToken + 1;
      slots[slot] := nextToken;
      active := active + 1;
      assert slots[..] == old(slots[..])[slot := nextToken];
      r := Leased(slot, nextToken);
    }

    /** Finds the slot of a frame that is handed back: a frame of another interface version is told apart, and a
        retired, foreign or zero token belongs to no slot. */
    method Resolve(h: Handle) returns (r: Resolved)
      requires Valid()
      ensures r == Mismatch <==> !h.current
      ensures r == Stale <==>
                h.current && (!h.ours || h.token == 0 || forall i :: 0 <= i < SLOTS ==> slots[i] != h.token)
      ensures r.Slot? ==> r.slot < capacity && slots[r.slot] == h.token != 0
    {
      if !h.current {
        return Mismatch;
      }
      if !h.ours || h.token == 0 {
        return Stale;
      }
      var i := 0;
      while i < capacity
        invariant i <= capacity && forall j :: 0 <= j < i ==> slots[j] != h.token
      {
        if slots[i] == h.token {
          return Slot(i);
        }
        i := i + 1;
      }
      r := Stale;
    }

    /** Frees a slot; freeing a free or missing slot does nothing. */
    method Commit(slot: nat)
      requires Valid()
      modifies this`active, slots
      ensures Valid()
      ensures slot >= SLOTS || old(slots[..])[slot] == 0 ==> slots[..] == old(slots[..]) && active == old(active)
      ensures slot < SLOTS && old(slots[..])[slot] != 0 ==>
                && slots[..] == old(slots[..])[slot := 0] && active == old(active) - 1
                && Retired(old(slots[..])[slot])
      ensures forall t :: old(Retired(t)) ==> Retired(t)
    {
      if slot >= SLOTS || slots[slot] == 0 {
        return;
      }
      HeldUpdate(slots[..], slot, 0);
      HeldNone(slots[..]);
      ghost var freed := slots[slot];
      slots[slot] := 0;
      assert slots[..] == old(slots[..])[slot := 0];
      if active > 0 {
        active := active - 1;
      }
    }
  }
}
