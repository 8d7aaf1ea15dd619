/** Random access into a DBV1 file: replay from an indexed whole image, with one decoded frame cached. */
module BinaryReader {
  import opened BinaryCodec
  import opened BinaryDecoders
  import opened BinaryFormat
  import opened Bytes
  import opened RecordingIndex

  datatype Found = Found(image: seq<Byte>, next: nat)

  /** Decodes the record at `pos` on top of `image`. A short read at the end of the file is a bad record. */
  function ReplayStep(z: Zlib, data: seq<Byte>, packed: nat, pos: nat, image: Option<seq<Byte>>)
    : (r: Option<Found>)
    requires pos <= |data| && (image.Some? ==> |image.value| == packed)
    ensures r.Some? ==> pos < r.value.next <= |data| && |r.value.image| == packed
  {
    PeekSize(data, pos);
    match Parse(Peek(data, pos))
    case Incomplete => None
    case Invalid => None
    case Value(code, n) =>
      if code / 4 > packed then None
      else
        var end := if pos + n + code / 4 <= |data| then pos + n + code / 4 else |data|;
        match DecodeRecord(z, packed, image, code, data[pos + n..end])
        case None => None
        case Some(now) => Some(Found(now, end))
  }

  /** Decodes record after record from `pos` until the one at `target` is done. */
  function Replay(z: Zlib, data: seq<Byte>, packed: nat, pos: nat, target: nat, image: Option<seq<Byte>>)
    : (r: Option<Found>)
    requires pos <= |data| && (image.Some? ==> |image.value| == packed)
    ensures r.Some? ==> target < r.value.next <= |data| && |r.value.image| == packed
    decreases |data| - pos
  {
    if pos > target then None
    else
      match ReplayStep(z, data, packed, pos, image)
      case None => None
      case Some(f) => if pos == target then Some(f) else Replay(z, data, packed, f.next, target, Some(f.image))
  }

  /** Stopping at a record on the way and going on later is the same as going straight through. */
  lemma {:induction false} ReplayContinues(
      z: Zlib, data: seq<Byte>, packed: nat, pos: nat, stop: nat, target: nat, image: Option<seq<Byte>>)
    requires pos <= |data| && (image.Some? ==> |image.value| == packed) && stop < target
    requires Replay(z, data, packed, pos, stop, image).Some?
    ensures var f := Replay(z, data, packed, pos, stop, image).value;
            Replay(z, data, packed, pos, target, image)
              == Replay(z, data, packed, f.next, target, Some(f.image))
    decreases |data| - pos
  {
    if pos < stop {
      var f := ReplayStep(z, data, packed, pos, image).value;
      ReplayContinues(z, data, packed, f.next, stop, target, Some(f.image));
    }
  }

  /** What is on disk when the reader looks. */
  datatype File = File(path: string, modified: int, data: seq<Byte>)

  /** A frame as the index describes it. */
  datatype Frame = Frame(path: string, width: nat, height: nat, keyOffset: nat, decodeOffset: nat)

  /** The frame's packed image by replay from its key record, with no cache at all. */
  function Fetch(z: Zlib, data: seq<Byte>, frame: Frame): Option<seq<Byte>> {
    if PackedBytes(frame.width, frame.height) == 0 || frame.keyOffset > |data| then None
    else
      match Replay(z, data, PackedBytes(frame.width, frame.height), frame.keyOffset, frame.decodeOffset, None)
      case None => None
      case Some(f) => Some(f.image)
  }

  class BinaryImageReader {
    const zlib: Zlib
    const decoder: BinaryDecoder
    var path: string
    var size: nat
    var modified: int
    var key: nat
    var decoded: int
    var next: nat
    var width: nat
    var height: nat
    // The bytes the cached image came from.
    ghost var source: seq<Byte>

    ghost predicate Valid()
      reads this, decoder, decoder.bits
    {
      && decoder.zlib == zlib && decoder.Ready()
      && (path != "" ==>
            && decoded >= 0 && key <= size == |source|
            && decoder.size == PackedBytes(width, height) && decoder.size != 0
            && decoder.Image().Some?
            && Replay(zlib, source, decoder.size, key, decoded, None)
               == Some(Found(decoder.Image().value, next)))
    }

    constructor (z: Zlib)
      ensures Valid() && fresh(decoder) && fresh(decoder.bits) && fresh(decoder.scratch) && path == ""
    {
      zlib := z;
      decoder := new BinaryDecoder(z);
      path, size, modified, key, decoded, next, width, height := "", 0, -1, 0, -1, 0, 0, 0;
      source := [];
    }

    /** Equal path, size and modification time are taken to mean equal contents. */
    ghost predicate Honest(file: File)
      reads this
    {
      path == file.path && size == |file.data| && modified == file.modified ==> source == file.data
    }

    /** Whatever was read before, the answer is the one replay from the key record gives. */
    method Read(file: File, frame: Frame) returns (image: Option<seq<Byte>>)
      requires Valid() && Honest(file) && file.path == frame.path != ""
      modifies this, decoder, decoder.bits, decoder.scratch
      ensures Valid()
      ensures fresh(decoder.bits) || decoder.bits == old(decoder.bits)
      ensures fresh(decoder.scratch) || decoder.scratch == old(decoder.scratch)
      ensures image == Fetch(zlib, file.data, frame)
    {
      var positioned := Position(file, frame);
      if !positioned {
        path := "";
        return None;
      }
      var found := Advance(file.data, frame);
      if !found {
        path := "";
        return None;
      }
      Remember(file, frame);
      image := Some(decoder.bits[..]);
    }

    /** The frame just decoded becomes the cached one. */
    method Remember(file: File, frame: Frame)
      requires OnTheWay(file.data, frame) && decoded == frame.decodeOffset && decoder.size != 0
      modifies this
      ensures Valid()
      ensures Fetch(zlib, file.data, frame) == decoder.Image() != None
    {
      path, size, modified, key := frame.path, |file.data|, file.modified, frame.keyOffset;
      width, height := frame.width, frame.height;
      source := file.data;
    }

    /** Continues from the cached frame when it lies on the way, otherwise starts over at the key record. */
    method Position(file: File, frame: Frame) returns (ok: bool)
      requires Valid() && Honest(file) && file.path == frame.path != ""
      modifies this, decoder
      ensures decoder.zlib == zlib && decoder.Ready()
      ensures fresh(decoder.bits) || decoder.bits == old(decoder.bits)
      ensures fresh(decoder.scratch) || decoder.scratch == old(decoder.scratch)
      ensures ok ==> OnTheWay(file.data, frame) && decoder.size != 0
      ensures !ok ==> Fetch(zlib, file.data, frame) == None
    {
      var reusable := path == frame.path && size == |file.data| && modified == file.modified
        && width == frame.width && height == frame.height && key == frame.keyOffset
        && decoded <= frame.decodeOffset;
      if reusable {
        assert source == file.data;
        if decoded < frame.decodeOffset {
          ReplayContinues(zlib, file.data, decoder.size, key, decoded, frame.decodeOffset, None);
        }
        return true;
      }
      path := "";
      ok := decoder.Prepare(frame.width, frame.height);
      next, decoded := frame.keyOffset, -1;
      ok := ok && next <= |file.data|;
    }

    /** Where the replay of `frame` stands: finished, or still to go from `next`. */
    ghost predicate OnTheWay(data: seq<Byte>, frame: Frame)
      reads this, decoder, decoder.bits
    {
      && decoder.zlib == zlib && decoder.Ready() && decoder.size == PackedBytes(frame.width, frame.height)
      && next <= |data| && frame.keyOffset <= |data| && decoded >= -1
      && Replay(zlib, data, decoder.size, frame.keyOffset, frame.decodeOffset, None)
         == (if decoded == frame.decodeOffset then
               if decoder.Image().Some? then Some(Found(decoder.Image().value, next)) else None
             else Replay(zlib, data, decoder.size, next, frame.decodeOffset, decoder.Image()))
      && (decoded == frame.decodeOffset ==> decoder.Image().Some?)
    }

    /** Decodes forward until the wanted record is done. */
    method Advance(data: seq<Byte>, frame: Frame) returns (found: bool)
      requires OnTheWay(data, frame)
      modifies this`decoded, this`next, decoder`previous, decoder.bits, decoder.scratch
      ensures found ==> OnTheWay(data, frame) && decoded == frame.decodeOffset
      ensures !found ==> Replay(zlib, data, decoder.size, frame.keyOffset, frame.decodeOffset, None) == None
    {
      while decoded != frame.decodeOffset
        invariant OnTheWay(data, frame)
        decreases |data| - next, decoded != frame.decodeOffset
      {
        var offset := next;
        if offset > frame.decodeOffset {
          return false;
        }
        ghost var before := decoder.Image();
        var accepted, end := DecodeAt(data, offset);
        if !accepted {
          return false;
        }
        decoded, next := offset, end;
      }
      found := true;
    }

    /** Reads the record header at `offset` and hands the payload to the decoder. */
    method DecodeAt(data: seq<Byte>, offset: nat) returns (accepted: bool, end: nat)
      requires decoder.zlib == zlib && decoder.Ready() && offset <= |data|
      modifies decoder`previous, decoder.bits, decoder.scratch
      ensures decoder.Ready()
      ensures var r := ReplayStep(zlib, data, decoder.size, offset, old(decoder.Image()));
              && accepted == r.Some?
              && (accepted ==> r == Some(Found(decoder.bits[..], end)) && decoder.previous)
    {
      PeekSize(data, offset);
      var prefix := ReadPrefix(Peek(data, offset));
      if !prefix.Value? || prefix.value / 4 > decoder.size {
        return false, offset;
      }
      var start := offset + prefix.size;
      end := if start + prefix.value / 4 <= |data| then start + prefix.value / 4 else |data|;
      accepted := decoder.Decode(prefix.value, data[start..end]);
    }
  }
}
