/** The DBV1 encoder object. It packs a frame, tries every form, keeps the smallest payload at a fixed place
    in the record buffer, and finally moves it down behind its length prefix. */
module BinaryEncoders {
  import opened BinaryCodec
  import opened BinaryDecoders
  import opened BinaryFormat
  import opened Bytes
  import opened Products

  class BinaryEncoder {
    const zlib: Zlib
    const width: nat
    const height: nat
    const threshold: Byte
    const packed: nat
    const bits: array<Byte>
    const previous: array<Byte>
    const delta: array<Byte>
    const compressed: array<Byte>
    const record: array<Byte>
    var hasPrevious: bool

    ghost predicate Valid() {
      && packed == PackedBytes(width, height) && packed != 0
      && bits.Length == previous.Length == delta.Length == packed
      && compressed.Length >= packed && record.Length == packed + 5
      && bits != previous && bits != delta && bits != compressed && bits != record
      && previous != delta && previous != compressed && previous != record
      && delta != compressed && delta != record && compressed != record
    }

    /** The frame the next delta refers to, if any. */
    ghost function Previous(): (p: Option<seq<Byte>>)
      requires Valid()
      reads this, previous
      ensures p.Some? ==> |p.value| == packed
    {
      if hasPrevious then Some(previous[..]) else None
    }

    /** `capacity` is the compressor's worst-case output size for one bitmap, never below the bitmap itself. */
    constructor (z: Zlib, w: nat, h: nat, t: Byte, capacity: nat)
      requires PackedBytes(w, h) != 0 && capacity >= PackedBytes(w, h)
      ensures Valid() && Previous() == None
      ensures zlib == z && width == w && height == h && threshold == t
    {
      zlib, width, height, threshold, packed := z, w, h, t, PackedBytes(w, h);
      bits := new Byte[PackedBytes(w, h)];
      previous := new Byte[PackedBytes(w, h)];
      delta := new Byte[PackedBytes(w, h)];
      compressed := new Byte[capacity];
      record := new Byte[PackedBytes(w, h) + 5];
      hasPrevious := false;
    }

    method Reset()
      requires Valid()
      modifies this`hasPrevious
      ensures Previous() == None
    {
      hasPrevious := false;
    }

    /** Does the compressor produce a stream that fits its output buffer? */
    ghost predicate Compresses(input: seq<Byte>, ok: bool)
      requires Valid()
    {
      ok && 0 < |zlib.deflate(input)| <= compressed.Length
    }

    /** Compression of the frame, or of its difference from the reference frame, gives up. */
    ghost predicate GivesUp(reference: Option<seq<Byte>>, frame: seq<Byte>, fullOk: bool, deltaOk: bool)
      requires Valid() && |frame| == packed && (reference.Some? ==> |reference.value| == packed)
    {
      || !Compresses(frame, fullOk)
      || (reference.Some? && !Compresses(XorAll(frame, reference.value), deltaOk))
    }

    /** Emits the smallest record for the frame and remembers the frame, or, when the compressor gives up,
        emits nothing and keeps the reference frame. */
    method Encode(pixels: seq<Byte>, fullOk: bool, deltaOk: bool) returns (emitted: Option<seq<Byte>>)
      requires Valid()
      modifies this`hasPrevious, bits, previous, delta, compressed, record
      ensures |pixels| < width * height ==> emitted.None?
      ensures |pixels| >= width * height ==>
                var frame := PackFrame(pixels, width, height, threshold);
                && |frame| == packed
                && (emitted.None? <==> GivesUp(old(Previous()), frame, fullOk, deltaOk))
                && (emitted.Some? ==>
                      && Previous() == Some(frame)
                      && emitted.value == Best(zlib, old(Previous()), frame).Record())
      ensures emitted.None? ==> Previous() == old(Previous())
    {
      if |pixels| < width * height {
        return None;
      }
      Pack(pixels);
      var done, kind, size := ChooseForm(fullOk, deltaOk);
      if !done {
        return None;
      }
      var n := Frame(kind, size);
      CopyInto(previous, bits);
      hasPrevious := true;
      emitted := Some(record[..n]);
    }

    /** Leaves the smallest payload in the record buffer. */
    method ChooseForm(fullOk: bool, deltaOk: bool) returns (done: bool, kind: nat, size: nat)
      requires Valid()
      modifies delta, compressed, record
      ensures done <==> !GivesUp(Previous(), bits[..], fullOk, deltaOk)
      ensures done ==> 0 < size <= packed && kind < 4
                       && Choice(kind, record[5..5 + size]) == Best(zlib, Previous(), bits[..])
    {
      kind, size := RAW, packed;
      ghost var frame, reference := bits[..], Previous();
      Keep(bits, size);
      var full := Compress(bits, fullOk);
      if full == 0 {
        return false, kind, size;
      }
      if full < size {
        kind, size := FULL, full;
        Keep(compressed, size);
      }
      ghost var whole := Choice(kind, record[5..5 + size]);
      assert whole == Shorter(Choice(RAW, frame), Choice(FULL, zlib.deflate(frame)));
      assert bits[..] == frame && Previous() == reference;
      done := true;
      if hasPrevious {
        done, kind, size := EncodeDifference(kind, size, deltaOk);
      }
    }

    /** Tries the delta and the sparse form against the best form so far. */
    method EncodeDifference(kind0: nat, size0: nat, deltaOk: bool) returns (done: bool, kind: nat, size: nat)
      requires Valid() && hasPrevious && 0 < size0 <= packed && kind0 < 4
      modifies delta, compressed, record
      ensures done <==> Compresses(XorAll(bits[..], previous[..]), deltaOk)
      ensures done ==>
                var difference := XorAll(bits[..], previous[..]);
                var before := Choice(kind0, old(record[5..5 + size0]));
                var zipped := Shorter(before, Choice(DELTA, zlib.deflate(difference)));
                var sparse := SparseFrom(difference, 0, 0);
                && 0 < size <= packed && kind < 4
                && Choice(kind, record[5..5 + size])
                   == if sparse == [] then zipped else Shorter(zipped, Choice(SPARSE, sparse))
    {
      kind, size := kind0, size0;
      forall i | 0 <= i < packed { delta[i] := Xor(bits[i], previous[i]); }
      assert delta[..] == XorAll(bits[..], previous[..]);
      var zipped := Compress(delta, deltaOk);
      if zipped == 0 {
        return false, kind, size;
      }
      if zipped < size {
        kind, size := DELTA, zipped;
        Keep(compressed, size);
      }
      var sparse := Sparse(size);
      if sparse != 0 && sparse < size {
        kind, size := SPARSE, sparse;
        Keep(compressed, size);
      }
      done := true;
    }

    method Compress(input: array<Byte>, ok: bool) returns (size: nat)
      requires Valid() && input != compressed
      modifies compressed
      ensures size == 0 <==> !Compresses(input[..], ok)
      ensures size > 0 ==> size <= compressed.Length && compressed[..size] == zlib.deflate(input[..])
    {
      ghost var data := input[..];
      var stream := zlib.deflate(input[..]);
      if !ok || |stream| == 0 || |stream| > compressed.Length {
        return 0;
      }
      forall i | 0 <= i < |stream| { compressed[i] := stream[i]; }
      assert compressed[..|stream|] == stream && input[..] == data;
      size := |stream|;
    }

    /** Places a candidate payload behind the room reserved for the longest prefix. */
    method Keep(from: array<Byte>, size: nat)
      requires Valid() && from != record && size <= from.Length && size <= packed
      modifies record
      ensures record[5..5 + size] == from[..size]
    {
      forall i | 0 <= i < size { record[5 + i] := from[i]; }
    }

    /** Writes gaps and masks into the scratch buffer, giving up as soon as they cannot win. */
    method Sparse(limit: nat) returns (sparse: nat)
      requires Valid() && 0 < limit <= packed
      modifies compressed
      ensures var form := SparseFrom(delta[..], 0, 0);
              if form != [] && |form| < limit then sparse == |form| && compressed[..sparse] == form
              else sparse == 0 || sparse >= limit
    {
      PackedBytesBound(width, height);
      sparse := 0;
      var next: nat, i: nat := 0, 0;
      ghost var d, form := delta[..], SparseFrom(delta[..], 0, 0);
      while i < packed && sparse < limit
        invariant next <= i <= packed && sparse < limit
        invariant delta[..] == d
        invariant form == compressed[..sparse] + SparseFrom(d, i, next)
        decreases packed - i
      {
        sparse, next := SparseByte(limit, sparse, next, i);
        if sparse >= limit {
          return limit;
        }
        i := i + 1;
      }
      assert SparseFrom(d, packed, next) == [];
    }

    /** What one byte of the difference adds. */
    method SparseByte(limit: nat, sparse: nat, next: nat, i: nat) returns (grown: nat, after: nat)
      requires Valid() && sparse < limit <= packed <= 0x200_0000 && next <= i < packed
      modifies compressed
      ensures after <= i + 1
      ensures grown <= sparse + |SparseFrom(delta[..], i, next)|
      ensures grown < limit ==>
                compressed[..grown] + SparseFrom(delta[..], i + 1, after)
                == old(compressed[..sparse]) + SparseFrom(delta[..], i, next)
    {
      SparseFirst(compressed[..sparse], delta[..], i, next);
      if delta[i] == 0 {
        return sparse, next;
      }
      grown := SparseItem(limit, sparse, i - next, delta[i]);
      after := i + 1;
    }

    /** Appends one gap and mask, if they leave the form below the limit. */
    method SparseItem(limit: nat, sparse: nat, gap: nat, mask: Byte) returns (grown: nat)
      requires Valid() && sparse < limit <= packed && gap < TWO_32
      modifies compressed
      ensures grown == sparse + |Leb(gap)| + 1
      ensures grown < limit ==> compressed[..grown] == old(compressed[..sparse]) + (Leb(gap) + [mask])
    {
      var prefix := new Byte[5];
      var count := WritePrefix(prefix, gap);
      grown := sparse + count + 1;
      if grown < limit {
        ghost var leb := prefix[..count];
        forall k | 0 <= k < count { compressed[sparse + k] := prefix[k]; }
        compressed[sparse + count] := mask;
        assert compressed[sparse..sparse + count] == leb;
      }
    }

    /** Writes the length prefix and moves the payload down behind it. */
    method Frame(kind: nat, size: nat) returns (n: nat)
      requires Valid() && kind < 4 && size <= packed
      modifies record
      ensures n <= record.Length
      ensures record[..n] == Choice(kind, old(record[5..5 + size])).Record()
    {
      PackedBytesBound(width, height);
      ghost var payload := record[5..5 + size];
      var prefix := WritePrefix(record, 4 * size + kind);
      assert record[5..5 + size] == payload;
      n := MoveDown(prefix, size);
      assert record[..n] == record[..prefix] + record[prefix..n];
    }

    method MoveDown(prefix: nat, size: nat) returns (n: nat)
      requires Valid() && prefix <= 5 && size <= packed
      modifies record
      ensures n == prefix + size
      ensures record[..prefix] == old(record[..prefix]) && record[prefix..n] == old(record[5..5 + size])
    {
      forall i | 0 <= i < size { record[prefix + i] := record[5 + i]; }
      n := prefix + size;
    }

    method Pack(pixels: seq<Byte>)
      requires Valid() && |pixels| >= width * height
      modifies bits
      ensures bits[..] == PackFrame(pixels, width, height, threshold)
    {
      ghost var goal := PackFrame(pixels, width, height, threshold);
      var y := 0;
      while y < height
        invariant y <= height && 0 <= y * RowBytes(width) <= packed
        invariant forall i :: 0 <= i < y * RowBytes(width) ==> bits[i] == goal[i]
      {
        PackRow(pixels, y);
        OneMoreStep(y, RowBytes(width));
        ScaleMonotone(y + 1, height, RowBytes(width));
        y := y + 1;
      }
      assert height * RowBytes(width) == packed;
      assert |goal| == packed;
    }

    method PackRow(pixels: seq<Byte>, y: nat)
      requires Valid() && |pixels| >= width * height && y < height
      modifies bits
      ensures 0 <= y * RowBytes(width) && (y + 1) * RowBytes(width) <= packed
      ensures forall i :: 0 <= i < packed ==>
                bits[i] == if y * RowBytes(width) <= i < (y + 1) * RowBytes(width)
                           then PackFrame(pixels, width, height, threshold)[i] else old(bits[i])
    {
      var rowBytes := RowBytes(width);
      OneMoreStep(y, rowBytes);
      ScaleMonotone(y + 1, height, rowBytes);
      ScaleMonotone(0, y, rowBytes);
      var start := y * rowBytes;
      var j := 0;
      while j < rowBytes
        invariant j <= rowBytes
        invariant forall i :: 0 <= i < packed ==>
                    bits[i] == if start <= i < start + j
                               then PackFrame(pixels, width, height, threshold)[i] else old(bits[i])
      {
        var byte := PackGroup(pixels, y, j);
        BytePosition(y, j, rowBytes, height);
        bits[start + j] := byte;
        j := j + 1;
      }
    }

    /** Builds one byte from up to eight pixels, leftmost pixel in the highest bit. */
    method PackGroup(pixels: seq<Byte>, y: nat, j: nat) returns (byte: Byte)
      requires Valid() && |pixels| >= width * height && y < height && j < RowBytes(width)
      ensures byte == PackedAt(pixels, width, threshold, y, j)
    {
      var count := GroupSize(width, j);
      ghost var on := GroupOn(pixels, width, threshold, y, j);
      byte := 0;
      var bit := 0;
      while bit < count
        invariant bit <= count
        invariant byte == PackedByte(on, bit)
      {
        GroupPixel(pixels, width, height, threshold, y, j, bit);
        PackNextBit(on, bit);
        var i := y * width + 8 * j + bit;
        byte := byte + (if pixels[i] >= threshold then Power(7 - bit) else 0);
        bit := bit + 1;
      }
    }
  }
}
