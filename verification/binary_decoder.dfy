/** The DBV1 decoder object: two buffers, of which only the scratch one is touched until a record has been
    accepted as a whole. */
module BinaryDecoders {
  import opened BinaryCodec
  import opened BinaryFormat
  import opened Bytes

  class BinaryDecoder {
    const zlib: Zlib
    var size: nat
    var bits: array<Byte>
    var scratch: array<Byte>
    var previous: bool

    ghost predicate Ready()
      reads this
    {
      bits.Length == scratch.Length == size && bits != scratch
    }

    /** The decoded image, once there is one. */
    ghost function Image(): (image: Option<seq<Byte>>)
      reads this, bits
      requires Ready()
      ensures image.Some? ==> |image.value| == size
    {
      if previous then Some(bits[..]) else None
    }

    constructor (z: Zlib)
      ensures Ready() && zlib == z && fresh(bits) && fresh(scratch) && size == 0
    {
      zlib := z;
      size := 0;
      bits := new Byte[0];
      scratch := new Byte[0];
      previous := false;
    }

    /** New buffers for a geometry; unsupported geometries are refused. */
    method Prepare(width: nat, height: nat) returns (ok: bool)
      modifies this
      ensures Ready() && fresh(bits) && fresh(scratch)
      ensures size == PackedBytes(width, height) && ok == (size != 0)
      ensures Image() == None
    {
      size := PackedBytes(width, height);
      previous := false;
      bits := new Byte[size];
      scratch := new Byte[size];
      ok := size != 0;
    }

    /** Accepts exactly the records `DecodeRecord` accepts; a rejected record leaves the image as it was. */
    method Decode(code: nat, payload: seq<Byte>) returns (ok: bool)
      requires Ready()
      modifies this`previous, bits, scratch
      ensures Ready()
      ensures var r := DecodeRecord(zlib, size, old(Image()), code, payload);
              ok == r.Some? && Image() == if ok then r else old(Image())
    {
      ghost var was, r := bits[..], DecodeRecord(zlib, size, Image(), code, payload);
      if !Valid(code, size, previous) || |payload| != code / 4 {
        return false;
      }
      var kind := code % 4;
      if kind == REPEAT {
        assert r == if payload == [] then Some(was) else SparseApply(was, payload, 0);
        ok := DecodeSparse(payload);
        return;
      }
      var whole := Some(payload);
      if kind != RAW {
        whole := zlib.inflate(payload);
        if whole.None? || |whole.value| != size {
          return false;
        }
      }
      assert r == Some(if kind == DELTA then XorAll(was, whole.value) else whole.value);
      Commit(kind, whole.value);
      ok := true;
    }

    /** Nothing to do for a repeat; otherwise the patched copy replaces the image if all of it applies. */
    method DecodeSparse(payload: seq<Byte>) returns (ok: bool)
      requires Ready()
      modifies bits, scratch
      ensures Ready()
      ensures var r := if payload == [] then Some(old(bits[..])) else SparseApply(old(bits[..]), payload, 0);
              ok == r.Some? && bits[..] == if ok then r.value else old(bits[..])
    {
      if payload == [] {
        return true;
      }
      CopyInto(scratch, bits);
      ok := Patch(payload);
      if ok {
        CopyInto(bits, scratch);
      }
    }

    /** Replaces the image by the new one, or combines both for a delta record. */
    method Commit(kind: nat, whole: seq<Byte>)
      requires Ready() && |whole| == size
      modifies this`previous, bits, scratch
      ensures Ready() && previous
      ensures bits[..] == if kind == DELTA then XorAll(old(bits[..]), whole) else whole
    {
      forall i | 0 <= i < size { scratch[i] := whole[i]; }
      Combine(kind, whole);
      previous := true;
    }

    method Combine(kind: nat, ghost whole: seq<Byte>)
      requires Ready() && |whole| == size && forall k :: 0 <= k < size ==> scratch[k] == whole[k]
      modifies bits
      ensures bits[..] == if kind == DELTA then XorAll(old(bits[..]), whole) else whole
    {
      ghost var was, goal := bits[..], if kind == DELTA then XorAll(bits[..], whole) else whole;
      var i := 0;
      while i < size
        invariant i <= size && |was| == |goal| == size
        invariant forall k :: 0 <= k < i ==> bits[k] == goal[k]
        invariant forall k :: i <= k < size ==> bits[k] == was[k]
      {
        bits[i] := if kind == DELTA then Xor(bits[i], scratch[i]) else scratch[i];
        i := i + 1;
      }
    }

    /** Walks gaps and masks over the scratch copy. */
    method Patch(payload: seq<Byte>) returns (ok: bool)
      requires Ready()
      modifies scratch
      ensures var r := SparseApply(old(scratch[..]), payload, 0);
              ok == r.Some? && (ok ==> scratch[..] == r.value)
    {
      ghost var goal := SparseApply(scratch[..], payload, 0);
      var offset: nat, position: nat := 0, 0;
      while offset < |payload|
        invariant offset <= |payload| && position <= size
        invariant goal == SparseApply(scratch[..], payload[offset..], position)
        decreases |payload| - offset
      {
        ok, offset, position := PatchItem(payload, offset, position);
        if !ok {
          return;
        }
      }
      ok := true;
    }

    /** One gap and its mask. */
    method PatchItem(payload: seq<Byte>, offset: nat, position: nat) returns (ok: bool, after: nat, next: nat)
      requires Ready() && offset < |payload| && position <= size
      modifies scratch
      ensures !ok ==> SparseApply(old(scratch[..]), payload[offset..], position) == None
      ensures ok ==>
                && offset < after <= |payload| && next <= size
                && SparseApply(old(scratch[..]), payload[offset..], position)
                   == SparseApply(scratch[..], payload[after..], next)
    {
      ok, after, next := false, offset, position;
      var found, gap, mask := ReadItem(payload, offset, size - position);
      if !found {
        SparseStop(scratch[..], payload[offset..], position);
        return;
      }
      SparseStepAt(scratch[..], payload, offset, position, gap, mask - offset);
      FlipAt(position + gap, payload[mask]);
      ok, after, next := true, mask + 1, position + gap + 1;
    }

    method FlipAt(at: nat, mask: Byte)
      requires Ready() && at < size
      modifies scratch
      ensures scratch[..] == old(scratch[..])[at := Xor(old(scratch[at]), mask)]
    {
      scratch[at] := Xor(scratch[at], mask);
    }
  }

  /** A gap that leaves room, and where its mask is. */
  method ReadItem(payload: seq<Byte>, offset: nat, room: nat) returns (found: bool, gap: nat, mask: nat)
    requires offset < |payload|
    ensures found <==> var p := Parse(payload[offset..]);
                       p.Value? && p.value < room && offset + p.size < |payload| && payload[offset + p.size] != 0
    ensures found ==> mask >= offset && Parse(payload[offset..]) == Value(gap, mask - offset)
  {
    var parsed := ReadPrefix(payload[offset..]);
    if parsed.Value? && parsed.value < room {
      gap, mask := parsed.value, offset + parsed.size;
      found := mask < |payload| && payload[mask] != 0;
    } else {
      found, gap, mask := false, 0, offset;
    }
  }

  method CopyInto(to: array<Byte>, from: array<Byte>)
    requires to.Length == from.Length
    modifies to
    ensures to[..] == old(from[..])
  {
    forall i | 0 <= i < to.Length { to[i] := from[i]; }
  }
}
