/** The DBV1 frame codec as functions of values: packing, the sparse form, what a record means to the
    decoder, and which record the encoder picks. */
module BinaryCodec {
  import opened BinaryFormat
  import opened Bytes
  import opened Products

  /** zlib as an abstract pair: streams are never empty, and `inflate` answers only for a complete stream with
      nothing after it. */
  datatype Zlib = Zlib(deflate: seq<Byte> -> seq<Byte>, inflate: seq<Byte> -> Option<seq<Byte>>)

  ghost predicate Lawful(z: Zlib) {
    forall x :: z.inflate(z.deflate(x)) == Some(x) && z.deflate(x) != []
  }

  // ---- packing ------------------------------------------------------------------------------------

  /** Bit `m` of a number, counted from the lowest. */
  predicate BitAt(b: nat, m: nat)
    decreases m, b
  {
    if m == 0 then b % 2 == 1 else BitAt(b / 2, m - 1)
  }

  /** The pixel at column `k` of a packed byte: the leftmost pixel is the highest bit. */
  predicate Bit(b: Byte, k: nat)
    requires k < 8
  {
    BitAt(b, 7 - k)
  }

  function RowBytes(width: nat): nat { (width + 7) / 8 }

  /** The first `n` bits read as a binary number. */
  function Binary(on: nat -> bool, n: nat): (b: nat)
    ensures b < Power(n)
  {
    if n == 0 then 0 else 2 * Binary(on, n - 1) + (if on(n - 1) then 1 else 0)
  }

  /** The first `n` bits at the top of a byte, the rest zero. */
  function PackedByte(on: nat -> bool, n: nat): Byte
    requires n <= 8
  {
    ShiftBound(Binary(on, n), n);
    Binary(on, n) * Power(8 - n)
  }

  lemma ShiftBound(b: nat, n: nat)
    requires n <= 8 && b < Power(n)
    ensures 0 <= b * Power(8 - n) < 256
  {
    PowersOfByte();
    ScaleMonotone(b, Power(n) - 1, Power(8 - n));
    ScaleMonotone(0, b, Power(8 - n));
  }

  lemma PowersOfByte()
    ensures Power(0) == 1 && Power(1) == 2 && Power(2) == 4 && Power(3) == 8 && Power(4) == 16
    ensures Power(5) == 32 && Power(6) == 64 && Power(7) == 128 && Power(8) == 256
  {
  }

  /** Setting the next bit of the byte under construction. */
  lemma PackNextBit(on: nat -> bool, n: nat)
    requires n < 8
    ensures PackedByte(on, n + 1) == PackedByte(on, n) + (if on(n) then Power(7 - n) else 0)
  {
    assert Power(8 - n) == 2 * Power(7 - n);
    ShiftedOnce(Binary(on, n), Power(7 - n));
  }

  lemma ShiftedOnce(b: nat, p: nat)
    ensures 2 * b * p == b * (2 * p) && (2 * b + 1) * p == b * (2 * p) + p
  {
  }

  lemma {:induction false} BinaryBit(on: nat -> bool, n: nat, m: nat)
    ensures BitAt(Binary(on, n), m) <==> m < n && on(n - 1 - m)
    decreases n
  {
    if n == 0 {
      ZeroBit(m);
    } else if m > 0 {
      BinaryBit(on, n - 1, m - 1);
    }
  }

  lemma {:induction false} ZeroBit(m: nat)
    ensures !BitAt(0, m)
  {
    if m > 0 {
      ZeroBit(m - 1);
    }
  }

  lemma {:induction false} ShiftedBit(b: nat, p: nat, m: nat)
    ensures BitAt(b * Power(p), m) <==> m >= p && BitAt(b, m - p)
    decreases p
  {
    if p == 0 {
      assert b * Power(0) == b;
    } else {
      var half := b * Power(p - 1);
      assert b * Power(p) == 2 * half by {
        assert b * (2 * Power(p - 1)) == 2 * (b * Power(p - 1));
      }
      if m > 0 {
        ShiftedBit(b, p - 1, m - 1);
      }
    }
  }

  lemma PackedByteBit(on: nat -> bool, n: nat, k: nat)
    requires n <= 8 && k < 8
    ensures Bit(PackedByte(on, n), k) <==> k < n && on(k)
  {
    ShiftedBit(Binary(on, n), 8 - n, 7 - k);
    if k < n {
      var m := n - 1 - k;
      BinaryBit(on, n, m);
      assert n - 1 - m == k && 7 - k - (8 - n) == m;
    }
  }

  /** Which pixels of group `j` in row `y` reach the threshold. */
  function GroupOn(pixels: seq<Byte>, width: nat, threshold: Byte, y: nat, j: nat): nat -> bool {
    (k: nat) => var i := y * width + 8 * j + k; i < |pixels| && pixels[i] >= threshold
  }

  lemma GroupPixel(pixels: seq<Byte>, width: nat, height: nat, threshold: Byte, y: nat, j: nat, k: nat)
    requires |pixels| >= width * height && y < height && 8 * j + k < width
    ensures 0 <= y * width + 8 * j + k < |pixels|
    ensures GroupOn(pixels, width, threshold, y, j)(k) <==> pixels[y * width + 8 * j + k] >= threshold
  {
    BytePosition(y, 8 * j + k, width, height);
  }

  function GroupSize(width: nat, j: nat): (n: nat)
    requires j < RowBytes(width)
    ensures 1 <= n <= 8
  {
    if width - 8 * j < 8 then width - 8 * j else 8
  }

  function PackedAt(pixels: seq<Byte>, width: nat, threshold: Byte, y: nat, j: nat): Byte
    requires j < RowBytes(width)
  {
    PackedByte(GroupOn(pixels, width, threshold, y, j), GroupSize(width, j))
  }

  /** The packed bitmap of a frame, row by row. */
  function PackFrame(pixels: seq<Byte>, width: nat, height: nat, threshold: Byte): (bits: seq<Byte>)
    requires width > 0
    ensures |bits| == RowBytes(width) * height
  {
    seq(RowBytes(width) * height, i requires 0 <= i =>
      PackedAt(pixels, width, threshold, i / RowBytes(width), i % RowBytes(width)))
  }

  /** The byte that holds column `x` of row `y`. */
  lemma BytePosition(y: nat, j: nat, row: nat, height: nat)
    requires j < row && y < height
    ensures y * row + j < row * height
    ensures (y * row + j) / row == y && (y * row + j) % row == j
  {
    ScaleMonotone(y + 1, height, row);
    OneMoreStep(y, row);
    QuotientUnique(y * row + j, row, y, j);
  }

  /** What a viewer sees at (x, y) of a packed bitmap. */
  predicate White(bits: seq<Byte>, width: nat, x: nat, y: nat)
    requires y * RowBytes(width) + x / 8 < |bits|
  {
    Bit(bits[y * RowBytes(width) + x / 8], x % 8)
  }

  /** Packing loses nothing but the gray level: the viewer's pixel is white exactly when the source pixel
      reached the threshold. */
  lemma PackedPixel(pixels: seq<Byte>, width: nat, height: nat, threshold: Byte, x: nat, y: nat)
    requires x < width && y < height && |pixels| >= width * height
    ensures y * RowBytes(width) + x / 8 < RowBytes(width) * height
    ensures 0 <= y * width + x < |pixels|
    ensures White(PackFrame(pixels, width, height, threshold), width, x, y)
            <==> pixels[y * width + x] >= threshold
  {
    var row := RowBytes(width);
    BytePosition(y, x / 8, row, height);
    GroupPixel(pixels, width, height, threshold, y, x / 8, x % 8);
    assert PackFrame(pixels, width, height, threshold)[y * row + x / 8]
        == PackedAt(pixels, width, threshold, y, x / 8);
    assert y * width + 8 * (x / 8) + x % 8 == y * width + x;
    PackedByteBit(GroupOn(pixels, width, threshold, y, x / 8), GroupSize(width, x / 8), x % 8);
  }

  // ---- sparse form --------------------------------------------------------------------------------

  /** Gap and mask for every changed byte from `i` on; gaps count from `next`. */
  function SparseFrom(delta: seq<Byte>, i: nat, next: nat): seq<Byte>
    requires next <= i <= |delta|
    decreases |delta| - i
  {
    if i == |delta| then []
    else if delta[i] == 0 then SparseFrom(delta, i + 1, next)
    else Leb(i - next) + [delta[i]] + SparseFrom(delta, i + 1, i + 1)
  }

  /** What the byte at `i` adds to the form. */
  lemma SparseFirst(before: seq<Byte>, delta: seq<Byte>, i: nat, next: nat)
    requires next <= i < |delta|
    ensures before + SparseFrom(delta, i, next)
         == if delta[i] == 0 then before + SparseFrom(delta, i + 1, next)
            else before + (Leb(i - next) + [delta[i]]) + SparseFrom(delta, i + 1, i + 1)
  {
  }

  /** The decoder's walk over gaps and masks; a malformed payload gives nothing. */
  function SparseApply(bits: seq<Byte>, payload: seq<Byte>, position: nat): (r: Option<seq<Byte>>)
    requires position <= |bits|
    ensures r.Some? ==> |r.value| == |bits|
    decreases |payload|
  {
    if payload == [] then Some(bits)
    else
      match Parse(payload)
      case Incomplete => None
      case Invalid => None
      case Value(gap, n) =>
        ParseSize(payload);
        if gap >= |bits| - position then None
        else if n >= |payload| || payload[n] == 0 then None
        else
          var at := position + gap;
          SparseApply(bits[at := Xor(bits[at], payload[n])], payload[n + 1..], at + 1)
  }

  lemma ParseSize(data: seq<Byte>)
    ensures Parse(data).Value? ==> 1 <= Parse(data).size <= |data|
  {
    if Parse(data).Value? {
      ParseExact(data, Parse(data).value, Parse(data).size);
    }
  }

  lemma SparseStep(bits: seq<Byte>, payload: seq<Byte>, position: nat, gap: nat, n: nat)
    requires position <= |bits| && payload != [] && Parse(payload) == Value(gap, n)
    requires gap < |bits| - position && n < |payload| && payload[n] != 0
    ensures SparseApply(bits, payload, position)
         == SparseApply(bits[position + gap := Xor(bits[position + gap], payload[n])], payload[n + 1..],
                        position + gap + 1)
  {
  }

  /** The same step where the payload is the rest of a longer one. */
  lemma SparseStepAt(bits: seq<Byte>, payload: seq<Byte>, offset: nat, position: nat, gap: nat, n: nat)
    requires position <= |bits| && offset < |payload| && Parse(payload[offset..]) == Value(gap, n)
    requires gap < |bits| - position && offset + n < |payload| && payload[offset + n] != 0
    ensures SparseApply(bits, payload[offset..], position)
         == SparseApply(bits[position + gap := Xor(bits[position + gap], payload[offset + n])],
                        payload[offset + n + 1..], position + gap + 1)
  {
    var rest := payload[offset..];
    assert rest[n] == payload[offset + n] && rest[n + 1..] == payload[offset + n + 1..];
    SparseStep(bits, rest, position, gap, n);
  }

  lemma SparseStop(bits: seq<Byte>, payload: seq<Byte>, position: nat)
    requires position <= |bits| && payload != []
    requires var p := Parse(payload);
             !p.Value? || p.value >= |bits| - position || p.size >= |payload| || payload[p.size] == 0
    ensures SparseApply(bits, payload, position) == None
  {
  }

  /** Walking the sparse form of a delta applies the whole delta from byte `i` on. */
  lemma {:induction false} SparseApplies(bits: seq<Byte>, delta: seq<Byte>, i: nat, next: nat)
    requires |bits| == |delta| < TWO_32 && next <= i <= |delta|
    requires forall k :: next <= k < i ==> delta[k] == 0
    ensures SparseApply(bits, SparseFrom(delta, i, next), next)
         == Some(bits[..i] + XorAll(bits[i..], delta[i..]))
    decreases |delta| - i
  {
    if i == |delta| {
      assert bits[..i] + XorAll(bits[i..], delta[i..]) == bits;
    } else if delta[i] == 0 {
      SparseApplies(bits, delta, i + 1, next);
      XorWithZero(bits[i]);
      XorSplit(bits, bits, delta, i);
    } else {
      var flipped := bits[i := Xor(bits[i], delta[i])];
      ChangeApplies(bits, delta, i, next);
      SparseApplies(flipped, delta, i + 1, i + 1);
      XorSplit(bits, flipped, delta, i);
    }
  }

  lemma ChangeApplies(bits: seq<Byte>, delta: seq<Byte>, i: nat, next: nat)
    requires next <= i < |bits| == |delta| < TWO_32 && delta[i] != 0
    ensures SparseApply(bits, SparseFrom(delta, i, next), next)
         == SparseApply(bits[i := Xor(bits[i], delta[i])], SparseFrom(delta, i + 1, i + 1), i + 1)
  {
    ItemApplies(bits, next, i, delta[i], SparseFrom(delta, i + 1, i + 1));
  }

  /** Gap and mask in front of a payload flip one byte. */
  lemma ItemApplies(bits: seq<Byte>, next: nat, i: nat, mask: Byte, rest: seq<Byte>)
    requires next <= i < |bits| < TWO_32 && mask != 0
    ensures SparseApply(bits, Leb(i - next) + [mask] + rest, next)
         == SparseApply(bits[i := Xor(bits[i], mask)], rest, i + 1)
  {
    var gap, payload := Leb(i - next), Leb(i - next) + [mask] + rest;
    assert payload == gap + ([mask] + rest);
    PrefixRoundTrip(i - next, [mask] + rest);
    assert payload[|gap| + 1..] == rest;
    SparseStep(bits, payload, next, i - next, |gap|);
  }

  lemma XorSplit(bits: seq<Byte>, flipped: seq<Byte>, delta: seq<Byte>, i: nat)
    requires |bits| == |delta| && i < |delta| && flipped == bits[i := Xor(bits[i], delta[i])]
    ensures flipped[..i + 1] + XorAll(flipped[i + 1..], delta[i + 1..]) == bits[..i] + XorAll(bits[i..], delta[i..])
  {
  }

  lemma XorWithZero(a: Byte)
    ensures Xor(a, 0) == a
  {
    XorUndo(a, a);
    assert Xor(a, a) == 0;
  }

  /** A nonempty sparse form has at least a gap byte and a mask byte. */
  lemma {:induction false} SparseLength(delta: seq<Byte>, i: nat, next: nat)
    requires next <= i <= |delta|
    ensures SparseFrom(delta, i, next) == [] <==> forall k :: i <= k < |delta| ==> delta[k] == 0
    ensures SparseFrom(delta, i, next) != [] ==> |SparseFrom(delta, i, next)| >= 2
    decreases |delta| - i
  {
    if i < |delta| && delta[i] == 0 {
      SparseLength(delta, i + 1, next);
    }
  }

  // ---- one record ---------------------------------------------------------------------------------

  /** What a record does to the decoder. The state is the last image, if any; `None` rejects the record. */
  function DecodeRecord(z: Zlib, size: nat, image: Option<seq<Byte>>, code: nat, payload: seq<Byte>)
    : (r: Option<seq<Byte>>)
    requires image.Some? ==> |image.value| == size
    ensures r.Some? ==> |r.value| == size
  {
    if !Valid(code, size, image.Some?) || |payload| != code / 4 then None
    else if code % 4 == REPEAT then
      if payload == [] then image else SparseApply(image.value, payload, 0)
    else if code % 4 == RAW then Some(payload)
    else
      match z.inflate(payload)
      case None => None
      case Some(x) =>
        if |x| != size then None
        else if code % 4 == DELTA then Some(XorAll(image.value, x)) else Some(x)
  }

  datatype Choice = Choice(kind: nat, payload: seq<Byte>) {
    function Code(): nat { 4 * |payload| + kind }

    function Record(): seq<Byte> { Leb(Code()) + payload }
  }

  function Shorter(a: Choice, b: Choice): Choice {
    if |b.payload| < |a.payload| then b else a
  }

  /** The record the encoder picks: the smallest form, the earlier one on a tie. */
  function Best(z: Zlib, previous: Option<seq<Byte>>, bits: seq<Byte>): Choice
    requires previous.Some? ==> |previous.value| == |bits|
  {
    var full := Shorter(Choice(RAW, bits), Choice(FULL, z.deflate(bits)));
    match previous
    case None => full
    case Some(before) =>
      var delta := XorAll(bits, before);
      var zipped := Shorter(full, Choice(DELTA, z.deflate(delta)));
      var sparse := SparseFrom(delta, 0, 0);
      if sparse == [] then zipped else Shorter(zipped, Choice(SPARSE, sparse))
  }

  lemma CodeParts(c: Choice)
    requires c.kind < 4
    ensures c.Code() % 4 == c.kind && c.Code() / 4 == |c.payload|
  {
  }

  lemma WholeImageDecodes(z: Zlib, previous: Option<seq<Byte>>, bits: seq<Byte>, c: Choice)
    requires Lawful(z) && (previous.Some? ==> |previous.value| == |bits|)
    requires c == Choice(RAW, bits) || (c == Choice(FULL, z.deflate(bits)) && |c.payload| <= |bits|)
    ensures DecodeRecord(z, |bits|, previous, c.Code(), c.payload) == Some(bits)
  {
    CodeParts(c);
  }

  lemma DeltaDecodes(z: Zlib, before: seq<Byte>, bits: seq<Byte>, c: Choice)
    requires Lawful(z) && |before| == |bits|
    requires c == Choice(DELTA, z.deflate(XorAll(bits, before))) && |c.payload| <= |bits|
    ensures DecodeRecord(z, |bits|, Some(before), c.Code(), c.payload) == Some(bits)
  {
    CodeParts(c);
    XorAllUndo(bits, before);
  }

  lemma SparseDecodes(z: Zlib, before: seq<Byte>, bits: seq<Byte>, c: Choice)
    requires |before| == |bits| < TWO_32
    requires c == Choice(SPARSE, SparseFrom(XorAll(bits, before), 0, 0)) && c.payload != [] && |c.payload| <= |bits|
    ensures DecodeRecord(z, |bits|, Some(before), c.Code(), c.payload) == Some(bits)
  {
    CodeParts(c);
    var delta := XorAll(bits, before);
    XorAllUndo(bits, before);
    SparseApplies(before, delta, 0, 0);
    SparseLength(delta, 0, 0);
    assert before[..0] + XorAll(before[0..], delta[0..]) == XorAll(before, delta);
  }

  /** Decoding the chosen record gives the frame back, and the record is well formed and small. */
  lemma BestDecodes(z: Zlib, previous: Option<seq<Byte>>, bits: seq<Byte>)
    requires Lawful(z) && 0 < |bits| <= 0x200_0000
    requires previous.Some? ==> |previous.value| == |bits|
    ensures var c := Best(z, previous, bits);
            && DecodeRecord(z, |bits|, previous, c.Code(), c.payload) == Some(bits)
            && Valid(c.Code(), |bits|, previous.Some?)
            && 0 < |c.payload| <= |bits| && c.Code() < TWO_32
            && |c.Record()| <= |bits| + 5
  {
    var c := Best(z, previous, bits);
    if c.kind == RAW || c.kind == FULL {
      WholeImageDecodes(z, previous, bits, c);
    } else if c.kind == DELTA {
      DeltaDecodes(z, previous.value, bits, c);
    } else {
      SparseDecodes(z, previous.value, bits, c);
    }
    LebLength(c.Code());
  }

  /** No form the encoder considers is smaller than the one it picks. */
  lemma BestIsSmallest(z: Zlib, previous: Option<seq<Byte>>, bits: seq<Byte>)
    requires previous.Some? ==> |previous.value| == |bits|
    ensures var n := |Best(z, previous, bits).payload|;
            && n <= |bits| && n <= |z.deflate(bits)|
            && (previous.Some? ==>
                  var delta := XorAll(bits, previous.value);
                  && n <= |z.deflate(delta)|
                  && (SparseFrom(delta, 0, 0) != [] ==> n <= |SparseFrom(delta, 0, 0)|))
  {
  }

  // ---- whole recordings ---------------------------------------------------------------------------

  /** A frame offered to the encoder; compression of it may fail, and then nothing is emitted. */
  datatype Offer = Offer(bits: seq<Byte>, compresses: bool)

  function Emitted(offers: seq<Offer>): seq<seq<Byte>> {
    if offers == [] then []
    else (if offers[0].compresses then [offers[0].bits] else []) + Emitted(offers[1..])
  }

  /** The encoder's state moves only with the records it emits. */
  function EncodeRun(z: Zlib, previous: Option<seq<Byte>>, offers: seq<Offer>, size: nat): seq<Choice>
    requires forall i :: 0 <= i < |offers| ==> |offers[i].bits| == size
    requires previous.Some? ==> |previous.value| == size
    decreases |offers|
  {
    if offers == [] then []
    else if !offers[0].compresses then EncodeRun(z, previous, offers[1..], size)
    else [Best(z, previous, offers[0].bits)] + EncodeRun(z, Some(offers[0].bits), offers[1..], size)
  }

  /** All images in order, if every record is accepted. */
  function DecodeRun(z: Zlib, size: nat, image: Option<seq<Byte>>, records: seq<Choice>)
    : (r: Option<seq<seq<Byte>>>)
    requires image.Some? ==> |image.value| == size
    ensures r.Some? ==> |r.value| == |records|
    decreases |records|
  {
    if records == [] then Some([])
    else
      match DecodeRecord(z, size, image, records[0].Code(), records[0].payload)
      case None => None
      case Some(now) =>
        match DecodeRun(z, size, Some(now), records[1..])
        case None => None
        case Some(rest) => Some([now] + rest)
  }

  lemma DecodeFirst(z: Zlib, size: nat, image: Option<seq<Byte>>, first: Choice, rest: seq<Choice>)
    requires image.Some? ==> |image.value| == size
    ensures var now := DecodeRecord(z, size, image, first.Code(), first.payload);
            && (now.None? ==> DecodeRun(z, size, image, [first] + rest).None?)
            && (now.Some? && DecodeRun(z, size, now, rest).None? ==> DecodeRun(z, size, image, [first] + rest).None?)
            && (now.Some? && DecodeRun(z, size, now, rest).Some? ==>
                  DecodeRun(z, size, image, [first] + rest) == Some([now.value] + DecodeRun(z, size, now, rest).value))
  {
    assert ([first] + rest)[1..] == rest;
  }

  /** Lossless over whole recordings: whatever was offered, and whichever offers failed to compress, a fresh
      decoder fed the emitted records reproduces exactly the emitted frames. */
  lemma {:induction false} RecordingRoundTrip(z: Zlib, previous: Option<seq<Byte>>, offers: seq<Offer>, size: nat)
    requires Lawful(z) && 0 < size <= 0x200_0000
    requires forall i :: 0 <= i < |offers| ==> |offers[i].bits| == size
    requires previous.Some? ==> |previous.value| == size
    ensures DecodeRun(z, size, previous, EncodeRun(z, previous, offers, size)) == Some(Emitted(offers))
    decreases |offers|
  {
    if offers != [] {
      if offers[0].compresses {
        var bits, tail := offers[0].bits, offers[1..];
        var first, rest := Best(z, previous, bits), EncodeRun(z, Some(bits), tail, size);
        assert DecodeRecord(z, size, previous, first.Code(), first.payload) == Some(bits) by {
          BestDecodes(z, previous, bits);
        }
        RecordingRoundTrip(z, Some(bits), tail, size);
        DecodeFirst(z, size, previous, first, rest);
        assert EncodeRun(z, previous, offers, size) == [first] + rest;
        assert Emitted(offers) == [bits] + Emitted(tail);
      } else {
        RecordingRoundTrip(z, previous, offers[1..], size);
        assert Emitted(offers) == Emitted(offers[1..]);
      }
    }
  }
}
