/** Ten-bit samples in four layouts: the camera's conversion to mirrored 8-bit gray, and the capture tool's
    independent unpacker, which it is proved to agree with. */
module Raw10 {
  import opened Bytes
  import opened Products

  datatype Layout = Le16Lsb | Le16Msb | Mipi | PackedLsb

  predicate Packed(l: Layout) { l.Mipi? || l.PackedLsb? }

  function RowBytes(l: Layout, width: nat): nat { if Packed(l) then width / 4 * 5 else width * 2 }

  /** Dropping the low `n` bits. */
  function Shift(b: nat, n: nat): nat
    decreases n
  {
    if n == 0 then b else Shift(b / 2, n - 1)
  }

  function At(row: seq<Byte>, i: nat): (b: nat)
    requires i < |row|
    ensures b < 256
  {
    row[i]
  }

  // ---- one sample ---------------------------------------------------------------------------------

  function Word(row: seq<Byte>, i: nat): (w: nat)
    requires i + 1 < |row|
    ensures w < 0x10000
  {
    At(row, i) + 0x100 * At(row, i + 1)
  }

  /** The camera's reading of sample `x` of a row; nothing if a bit that has to be zero is not. */
  function Sample(l: Layout, row: seq<Byte>, width: nat, x: nat): (s: Option<nat>)
    requires x < width && RowBytes(l, width) <= |row| && (Packed(l) ==> width % 4 == 0)
    ensures s.Some? ==> s.value < 1024
  {
    match l
    case Le16Lsb => var w := Word(row, 2 * x); if w / 0x400 != 0 then None else Some(w)
    case Le16Msb => var w := Word(row, 2 * x); if w % 0x40 != 0 then None else Some(w / 0x40)
    case Mipi => Some(MipiSample(row, x / 4 * 5, x % 4))
    case PackedLsb => Some(WindowSample(row, x / 4 * 5, x % 4))
  }

  /** Four high bytes, then the low bits of all four (section 11.4.4 of MIPI CSI-2 v1.01). */
  function MipiSample(row: seq<Byte>, group: nat, k: nat): (s: nat)
    requires k < 4 && group + 5 <= |row|
    ensures s < 1024
  {
    At(row, group + k) * 4 + Shift(At(row, group + 4), k * 2) % 4
  }

  /** The two bytes a ten-bit sample lies in, shifted down. */
  function WindowSample(row: seq<Byte>, group: nat, k: nat): (s: nat)
    requires k < 4 && group + 5 <= |row|
    ensures s < 1024
  {
    var bit := k * 10;
    Shift(Word(row, group + bit / 8), bit % 8) % 1024
  }

  // ---- the other reading --------------------------------------------------------------------------

  /** Five bytes as one little-endian number. */
  function Word40(row: seq<Byte>, group: nat): nat
    requires group + 5 <= |row|
  {
    At(row, group) + 0x100 * At(row, group + 1) + 0x1_0000 * At(row, group + 2) + 0x100_0000 * At(row, group + 3)
    + 0x1_0000_0000 * At(row, group + 4)
  }

  function SliceSample(row: seq<Byte>, group: nat, k: nat): nat
    requires k < 4 && group + 5 <= |row|
  {
    Shift(Word40(row, group), 10 * k) % 1024
  }

  lemma {:induction false} ShiftTwice(b: nat, m: nat, n: nat)
    ensures Shift(b, m + n) == Shift(Shift(b, m), n)
    decreases m
  {
    if m > 0 {
      ShiftTwice(b / 2, m - 1, n);
    }
  }

  lemma Shifts(b: nat)
    ensures Shift(b, 0) == b && Shift(b, 2) == b / 4 && Shift(b, 4) == b / 16 && Shift(b, 6) == b / 64
    ensures Shift(b, 10) == b / 0x400
  {
    ShiftTwice(b, 2, 2);
    ShiftTwice(b, 4, 2);
    ShiftTwice(b, 6, 4);
    assert Shift(b / 64, 4) == Shift(Shift(b / 64, 2), 2) by {
      ShiftTwice(b / 64, 2, 2);
    }
  }

  /** The two-byte window is the ten-bit slice of the 40-bit word. */
  lemma WindowIsSlice(row: seq<Byte>, group: nat, k: nat)
    requires k < 4 && group + 5 <= |row|
    ensures WindowSample(row, group, k) == SliceSample(row, group, k)
  {
    SliceShift(Word40(row, group), k);
    SliceAt(At(row, group), At(row, group + 1), At(row, group + 2), At(row, group + 3), At(row, group + 4), k);
    WindowAt(row, group, k);
  }

  function Unit(k: nat): nat { if k == 0 then 1 else if k == 1 then 4 else if k == 2 then 16 else 64 }

  lemma WindowAt(row: seq<Byte>, group: nat, k: nat)
    requires k < 4 && group + 5 <= |row|
    ensures WindowSample(row, group, k) == Word(row, group + k) / Unit(k) % 1024
  {
    assert k * 10 / 8 == k && k * 10 % 8 == 2 * k;
    Shifts(Word(row, group + k));
  }

  /** Dropping ten bits `k` times. */
  function Tens(w: nat, k: nat): nat
    decreases k
  {
    if k == 0 then w else Tens(w, k - 1) / 0x400
  }

  lemma {:induction false} SliceShift(w: nat, k: nat)
    ensures Shift(w, 10 * k) == Tens(w, k)
    decreases k
  {
    if k > 0 {
      SliceShift(w, k - 1);
      ShiftTwice(w, 10 * (k - 1), 10);
      Shifts(Tens(w, k - 1));
    }
  }

  lemma SliceAt(a: nat, b: nat, c: nat, d: nat, e: nat, k: nat)
    requires a < 256 && b < 256 && c < 256 && k < 4
    ensures var w := a + 0x100 * b + 0x1_0000 * c + 0x100_0000 * d + 0x1_0000_0000 * e;
            var pair := if k == 0 then a + 0x100 * b else if k == 1 then b + 0x100 * c
                        else if k == 2 then c + 0x100 * d else d + 0x100 * e;
            Tens(w, k) % 1024 == pair / Unit(k) % 1024
  {
    var w := a + 0x100 * b + 0x1_0000 * c + 0x100_0000 * d + 0x1_0000_0000 * e;
    assert Tens(w, 1) == w / 0x400;
    if k == 0 {
      assert w == a + 256 * b + 1024 * (64 * c + 16384 * d + 4194304 * e);
    } else if k == 1 {
      SliceOne(a, b, c, d, e);
    } else if k == 2 {
      SliceTwo(a, b, c, d, e);
      assert Tens(w, 2) == w / 0x400 / 0x400;
    } else {
      SliceThree(a, b, c, d, e);
      assert Tens(w, 2) == w / 0x400 / 0x400;
      assert Tens(w, 3) == w / 0x400 / 0x400 / 0x400;
    }
  }

  lemma SliceOne(a: nat, b: nat, c: nat, d: nat, e: nat)
    requires a < 256
    ensures (a + 0x100 * b + 0x1_0000 * c + 0x100_0000 * d + 0x1_0000_0000 * e) / 0x400 % 1024
         == (b + 256 * c) / 4 % 1024
  {
    var pair, rest := b + 256 * c, 16 * d + 4096 * e;
    var z := pair / 4 + 1024 * rest;
    Within(a + 0x100 * (pair % 4) + 0x400 * z, 0x400, z, a + 0x100 * (pair % 4), (pair / 4) / 1024 + rest,
           pair / 4 % 1024);
  }

  lemma SliceTwo(a: nat, b: nat, c: nat, d: nat, e: nat)
    requires a < 256 && b < 256
    ensures (a + 0x100 * b + 0x1_0000 * c + 0x100_0000 * d + 0x1_0000_0000 * e) / 0x400 / 0x400 % 1024
         == (c + 256 * d) / 16 % 1024
  {
    var pair := c + 256 * d;
    var z := pair / 16 + 1024 * (4 * e);
    var below := a + 0x100 * b + 0x1_0000 * (pair % 16);
    QuotientUnique(below + 0x10_0000 * z, 0x400, below / 0x400 + 0x400 * z, below % 0x400);
    Within(below / 0x400 + 0x400 * z, 0x400, z, below / 0x400, (pair / 16) / 1024 + 4 * e, pair / 16 % 1024);
  }

  lemma SliceThree(a: nat, b: nat, c: nat, d: nat, e: nat)
    requires a < 256 && b < 256 && c < 256
    ensures (a + 0x100 * b + 0x1_0000 * c + 0x100_0000 * d + 0x1_0000_0000 * e) / 0x400 / 0x400 / 0x400 % 1024
         == (d + 256 * e) / 64 % 1024
  {
    var pair := d + 256 * e;
    var z := pair / 64;
    var below := a + 0x100 * b + 0x1_0000 * c + 0x100_0000 * (pair % 64);
    var middle := below / 0x400;
    QuotientUnique(below + 0x4000_0000 * z, 0x400, middle + 0x10_0000 * z, below % 0x400);
    QuotientUnique(middle + 0x10_0000 * z, 0x400, middle / 0x400 + 0x400 * z, middle % 0x400);
    QuotientUnique(middle / 0x400 + 0x400 * z, 0x400, z, middle / 0x400);
  }

  // ---- packing ------------------------------------------------------------------------------------

  /** Four samples in five bytes, little-endian. */
  function PackLsb(p: nat, q: nat, r: nat, s: nat): (bytes: seq<Byte>)
    requires p < 1024 && q < 1024 && r < 1024 && s < 1024
  {
    [p % 256, p / 256 + q % 64 * 4, q / 64 + r % 16 * 16, r / 16 + s % 4 * 64, s / 4]
  }

  function PackMipi(p: nat, q: nat, r: nat, s: nat): (bytes: seq<Byte>)
    requires p < 1024 && q < 1024 && r < 1024 && s < 1024
  {
    [p / 4, q / 4, r / 4, s / 4, p % 4 + q % 4 * 4 + r % 4 * 16 + s % 4 * 64]
  }

  function PackWord(s: nat, msb: bool): (bytes: seq<Byte>)
    requires s < 1024
  {
    var w := if msb then s * 64 else s;
    [w % 256, w / 256]
  }

  /** Whatever is packed is read back, in every layout. */
  lemma MipiReadsBack(p: nat, q: nat, r: nat, s: nat, k: nat)
    requires p < 1024 && q < 1024 && r < 1024 && s < 1024 && k < 4
    ensures MipiSample(PackMipi(p, q, r, s), 0, k) == [p, q, r, s][k]
  {
    LowBits(p % 4, q % 4, r % 4, s % 4, k);
    Shifts(PackMipi(p, q, r, s)[4]);
  }

  lemma LowBits(p: nat, q: nat, r: nat, s: nat, k: nat)
    requires p < 4 && q < 4 && r < 4 && s < 4 && k < 4
    ensures (p + q * 4 + r * 16 + s * 64) / Unit(k) % 4 == [p, q, r, s][k]
  {
    var b := p + q * 4 + r * 16 + s * 64;
    if k == 1 {
      assert b / 4 == q + r * 4 + s * 16;
    } else if k == 2 {
      assert b / 16 == r + s * 4;
    } else if k == 3 {
      assert b / 64 == s;
    }
  }

  lemma LsbReadsBack(p: nat, q: nat, r: nat, s: nat, k: nat)
    requires p < 1024 && q < 1024 && r < 1024 && s < 1024 && k < 4
    ensures WindowSample(PackLsb(p, q, r, s), 0, k) == [p, q, r, s][k]
  {
    WindowAt(PackLsb(p, q, r, s), 0, k);
    if k == 0 {
      Within(p + 1024 * (q % 64), 1, p + 1024 * (q % 64), 0, q % 64, p);
    } else if k == 1 {
      var z := q + 1024 * (r % 16);
      Within(p / 256 + 4 * z, 4, z, p / 256, r % 16, q);
    } else if k == 2 {
      var z := r + 1024 * (s % 4);
      Within(q / 64 + 16 * z, 16, z, q / 64, s % 4, r);
    } else {
      Within(r / 16 + 64 * s, 64, s, r / 16, 0, s);
    }
  }

  /** A ten-bit sample `z` holds at its low end, inside a word that starts with other bits. */
  lemma Within(t: nat, unit: nat, z: nat, below: nat, above: nat, sample: nat)
    requires t == z * unit + below && below < unit && z == above * 1024 + sample && sample < 1024
    ensures t / unit % 1024 == sample
  {
    QuotientUnique(t, unit, z, below);
    QuotientUnique(z, 1024, above, sample);
  }

  lemma WordReadsBack(s: nat)
    requires s < 1024
    ensures Sample(Le16Lsb, PackWord(s, false), 1, 0) == Some(s)
    ensures Sample(Le16Msb, PackWord(s, true), 1, 0) == Some(s)
  {
  }

  // ---- whole frames -------------------------------------------------------------------------------

  /** Dimensions that fit the data and the output. */
  predicate Fits(l: Layout, width: nat, height: nat, stride: nat, rawBytes: nat, grayBytes: nat) {
    && width > 0 && height > 0 && (Packed(l) ==> width % 4 == 0) && RowBytes(l, width) <= stride
    && stride * height <= rawBytes && width * height <= grayBytes
  }

  function Flip(mirror: bool, i: nat, n: nat): (f: nat)
    requires i < n
    ensures f < n
  {
    if mirror then n - 1 - i else i
  }

  lemma RowStart(stride: nat, height: nat, y: nat)
    requires y < height
    ensures 0 <= stride * y && stride * y + stride <= stride * height
  {
    ScaleMonotone(0, y, stride);
    OneMoreStep(y, stride);
    ScaleMonotone(y + 1, height, stride);
  }

  function RowOf(raw: seq<Byte>, stride: nat, height: nat, y: nat): (row: seq<Byte>)
    requires y < height && stride * height <= |raw|
    ensures |row| == stride
  {
    RowStart(stride, height, y);
    raw[stride * y..stride * y + stride]
  }

  function SampleAt(l: Layout, raw: seq<Byte>, width: nat, height: nat, stride: nat, x: nat, y: nat): (s: Option<nat>)
    requires Fits(l, width, height, stride, |raw|, width * height) && x < width && y < height
    ensures s.Some? ==> s.value < 1024
  {
    Sample(l, RowOf(raw, stride, height, y), width, x)
  }

  datatype Status = Ok | InvalidArgument | GeometryMismatch

  datatype View = View(layout: Layout, width: nat, height: nat, stride: nat, mirrorX: bool, mirrorY: bool)

  ghost predicate Readable(v: View, raw: seq<Byte>) {
    Fits(v.layout, v.width, v.height, v.stride, |raw|, v.width * v.height)
  }

  /** The output position of sample (x, y). */
  function Place(v: View, x: nat, y: nat): int
    requires x < v.width && y < v.height
  {
    v.width * Flip(v.mirrorY, y, v.height) + Flip(v.mirrorX, x, v.width)
  }

  /** Row `y` is in the output: every sample readable, its upper eight bits at its mirrored place. */
  ghost predicate RowDone(v: View, raw: seq<Byte>, gray: seq<Byte>, y: nat)
    requires Readable(v, raw) && y < v.height
  {
    forall x :: 0 <= x < v.width ==>
      && SampleAt(v.layout, raw, v.width, v.height, v.stride, x, y).Some?
      && 0 <= Place(v, x, y) < |gray|
      && gray[Place(v, x, y)] == SampleAt(v.layout, raw, v.width, v.height, v.stride, x, y).value / 4
  }

  /** Rows do not overlap, so writing one leaves the others alone. */
  lemma RowKept(v: View, raw: seq<Byte>, before: seq<Byte>, after: seq<Byte>, y: nat, now: nat)
    requires Readable(v, raw) && y < v.height && now < v.height && y != now && |before| == |after|
    requires RowDone(v, raw, before, y)
    requires var start := v.width * Flip(v.mirrorY, now, v.height);
             forall p :: 0 <= p < |before| && !(start <= p < start + v.width) ==> after[p] == before[p]
    ensures RowDone(v, raw, after, y)
  {
    forall x | 0 <= x < v.width
      ensures after[Place(v, x, y)] == before[Place(v, x, y)]
    {
      Apart(v.width, Flip(v.mirrorY, y, v.height), Flip(v.mirrorY, now, v.height), Flip(v.mirrorX, x, v.width));
    }
  }

  lemma Apart(width: nat, a: nat, b: nat, i: nat)
    requires a != b && i < width
    ensures !(width * b <= width * a + i < width * b + width)
  {
    if a < b {
      Below(width, a, b);
    } else {
      Below(width, b, a);
    }
  }

  lemma Below(width: nat, a: nat, b: nat)
    requires a < b
    ensures width * a + width <= width * b
  {
    ScaleMonotone(a + 1, b, width);
    OneMoreStep(a, width);
  }

  /** No two samples share a place, so every output position is written once. */
  lemma PlacesDiffer(v: View, x: nat, y: nat, i: nat, j: nat)
    requires x < v.width && i < v.width && y < v.height && j < v.height && (x != i || y != j)
    ensures Place(v, x, y) != Place(v, i, j) && 0 <= Place(v, x, y) < v.width * v.height
  {
    RowStart(v.width, v.height, Flip(v.mirrorY, y, v.height));
    if y != j {
      Apart(v.width, Flip(v.mirrorY, y, v.height), Flip(v.mirrorY, j, v.height), Flip(v.mirrorX, x, v.width));
    }
  }

  /** Every output position of the frame is some sample's place. */
  lemma PlacesCover(v: View, p: nat) returns (x: nat, y: nat)
    requires v.width > 0 && p < v.width * v.height
    ensures x < v.width && y < v.height && Place(v, x, y) == p
  {
    var row := p / v.width;
    assert p == row * v.width + p % v.width;
    if row >= v.height {
      ScaleMonotone(v.height, row, v.width);
      assert false;
    }
    x, y := Flip(v.mirrorX, p % v.width, v.width), Flip(v.mirrorY, row, v.height);
  }

  /** Converts a frame. Every output pixel is the sample at its mirrored place without its two low bits; only an
      unused bit that is set can stop it. */
  method Gray(raw: seq<Byte>, v: View, gray: array<Byte>) returns (r: Status)
    modifies gray
    ensures r == InvalidArgument <==> !Fits(v.layout, v.width, v.height, v.stride, |raw|, gray.Length)
    ensures r == InvalidArgument ==> gray[..] == old(gray[..])
    ensures r == GeometryMismatch ==>
              && Readable(v, raw)
              && exists x, y :: 0 <= x < v.width && 0 <= y < v.height
                                && SampleAt(v.layout, raw, v.width, v.height, v.stride, x, y).None?
    ensures r == Ok ==> Readable(v, raw) && forall y :: 0 <= y < v.height ==> RowDone(v, raw, gray[..], y)
    ensures r != InvalidArgument ==> gray[v.width * v.height..] == old(gray[v.width * v.height..])
  {
    if !Fits(v.layout, v.width, v.height, v.stride, |raw|, gray.Length) {
      return InvalidArgument;
    }
    var y := 0;
    while y < v.height
      invariant y <= v.height
      invariant forall j :: 0 <= j < y ==> RowDone(v, raw, gray[..], j)
      invariant gray[v.width * v.height..] == old(gray[v.width * v.height..])
    {
      var ok := GrayRow(raw, v, y, gray);
      if !ok {
        return GeometryMismatch;
      }
      y := y + 1;
    }
    r := Ok;
  }

  /** Converts one row, as long as no unused bit is set. */
  method GrayRow(raw: seq<Byte>, v: View, y: nat, gray: array<Byte>) returns (ok: bool)
    requires Readable(v, raw) && y < v.height && v.width * v.height <= gray.Length
    modifies gray
    ensures !ok ==>
              exists x :: 0 <= x < v.width && SampleAt(v.layout, raw, v.width, v.height, v.stride, x, y).None?
    ensures ok ==> RowDone(v, raw, gray[..], y)
    ensures ok ==> forall j :: 0 <= j < v.height && j != y && RowDone(v, raw, old(gray[..]), j) ==>
                     RowDone(v, raw, gray[..], j)
    ensures gray[v.width * v.height..] == old(gray[v.width * v.height..])
  {
    ghost var before := gray[..];
    var row, target := RowOf(raw, v.stride, v.height, y), Flip(v.mirrorY, y, v.height);
    RowStart(v.width, v.height, target);
    var start, x := v.width * target, 0;
    while x < v.width
      invariant x <= v.width
      invariant forall i :: 0 <= i < x ==>
                  Sample(v.layout, row, v.width, i).Some?
                  && gray[start + Flip(v.mirrorX, i, v.width)] == Sample(v.layout, row, v.width, i).value / 4
      invariant forall p :: 0 <= p < gray.Length && !(start <= p < start + v.width) ==> gray[p] == before[p]
    {
      var sample := Sample(v.layout, row, v.width, x);
      if sample.None? {
        assert SampleAt(v.layout, raw, v.width, v.height, v.stride, x, y).None?;
        return false;
      }
      gray[start + Flip(v.mirrorX, x, v.width)] := sample.value / 4;
      x := x + 1;
    }
    ok := true;
    forall j | 0 <= j < v.height && j != y && RowDone(v, raw, before, j)
      ensures RowDone(v, raw, gray[..], j)
    {
      RowKept(v, raw, before, gray[..], j, y);
    }
  }

  // ---- the capture tool ---------------------------------------------------------------------------

  /** The tool's reading of the samples of one row, all of them or none. */
  method UnpackRow(l: Layout, row: seq<Byte>, width: nat) returns (samples: Option<seq<nat>>)
    requires RowBytes(l, width) <= |row| && (Packed(l) ==> width % 4 == 0)
    ensures samples.Some? <==> forall x :: 0 <= x < width ==> Sample(l, row, width, x).Some?
    ensures samples.Some? ==>
              && |samples.value| == width
              && forall x :: 0 <= x < width ==> Some(samples.value[x]) == Sample(l, row, width, x)
  {
    var s: seq<nat> := [];
    if Packed(l) {
      var group := 0;
      while group < width / 4
        invariant group <= width / 4 && |s| == 4 * group
        invariant forall x :: 0 <= x < |s| ==> Some(s[x]) == Sample(l, row, width, x)
      {
        var four := UnpackGroup(l, row, 5 * group);
        GroupSamples(l, row, width, group);
        s := s + four;
        group := group + 1;
      }
      return Some(s);
    }
    while |s| < width
      invariant |s| <= width && forall x :: 0 <= x < |s| ==> Some(s[x]) == Sample(l, row, width, x)
    {
      var word := Word(row, 2 * |s|);
      if (if l.Le16Lsb? then word / 0x400 else word % 0x40) != 0 {
        assert Sample(l, row, width, |s|).None?;
        return None;
      }
      s := s + [if l.Le16Lsb? then word else word / 0x40];
    }
    samples := Some(s);
  }

  /** Four samples of a packed group: slices of its 40-bit word, or high bytes with low bits added. */
  method UnpackGroup(l: Layout, row: seq<Byte>, at: nat) returns (four: seq<nat>)
    requires Packed(l) && at + 5 <= |row|
    ensures |four| == 4
    ensures forall k :: 0 <= k < 4 ==>
              four[k] == if l.Mipi? then MipiSample(row, at, k) else WindowSample(row, at, k)
  {
    four := [];
    while |four| < 4
      invariant |four| <= 4
      invariant forall k :: 0 <= k < |four| ==>
                  four[k] == if l.Mipi? then MipiSample(row, at, k) else WindowSample(row, at, k)
    {
      var k := |four|;
      if l.Mipi? {
        four := four + [MipiSample(row, at, k)];
      } else {
        WindowIsSlice(row, at, k);
        four := four + [SliceSample(row, at, k)];
      }
    }
  }

  lemma GroupSamples(l: Layout, row: seq<Byte>, width: nat, group: nat)
    requires Packed(l) && width % 4 == 0 && RowBytes(l, width) <= |row| && group < width / 4
    ensures forall k :: 0 <= k < 4 ==>
              Sample(l, row, width, 4 * group + k)
              == Some(if l.Mipi? then MipiSample(row, 5 * group, k) else WindowSample(row, 5 * group, k))
  {
    forall k | 0 <= k < 4
      ensures Sample(l, row, width, 4 * group + k)
           == Some(if l.Mipi? then MipiSample(row, 5 * group, k) else WindowSample(row, 5 * group, k))
    {
      assert (4 * group + k) / 4 == group && (4 * group + k) % 4 == k;
    }
  }

  /** What the tool demands of the dimensions: the exact byte count, and no odd end only for the MIPI layout. */
  predicate Accepted(l: Layout, width: nat, height: nat, stride: nat, bytes: nat) {
    && width > 0 && height > 0 && stride > 0 && bytes == stride * height
    && (l.Mipi? ==> width % 4 == 0) && RowBytes(l, width) <= stride
  }

  /** The samples it lists of each row: those of whole groups. */
  function Columns(l: Layout, width: nat): (c: nat)
    ensures c <= width && RowBytes(l, c) == RowBytes(l, width) && (Packed(l) ==> c % 4 == 0)
  {
    if Packed(l) then width / 4 * 4 else width
  }

  ghost predicate Clean(l: Layout, data: seq<Byte>, width: nat, height: nat, stride: nat)
    requires Fits(l, width, height, stride, |data|, width * height)
  {
    forall x, y :: 0 <= x < width && 0 <= y < height ==> SampleAt(l, data, width, height, stride, x, y).Some?
  }

  /** The first `rows` rows are listed: every pixel (x, y) among them is the sample there. */
  ghost predicate Listed(l: Layout, data: seq<Byte>, width: nat, height: nat, stride: nat, s: seq<nat>, rows: nat)
    requires Fits(l, width, height, stride, |data|, width * height) && rows <= height
  {
    && |s| == width * rows
    && forall x, y :: 0 <= x < width && 0 <= y < rows ==> Reads(l, data, width, height, stride, s, x, y)
  }

  /** Pixel (x, y) of a row-by-row list is the sample there. */
  ghost predicate Reads(
      l: Layout, data: seq<Byte>, width: nat, height: nat, stride: nat, s: seq<nat>, x: nat, y: nat)
    requires Fits(l, width, height, stride, |data|, width * height) && x < width && y < height
  {
    && 0 <= width * y + x < |s| && Some(s[width * y + x]) == SampleAt(l, data, width, height, stride, x, y)
  }

  /** The whole frame row by row: the samples the camera reads, in the same order, or nothing exactly when the
      dimensions do not fit or an unused bit is set. A width that is no multiple of four loses its last samples in
      the packed layout that the camera refuses. */
  method Unpack(data: seq<Byte>, width: nat, height: nat, stride: nat, l: Layout) returns (pixels: Option<seq<nat>>)
    ensures !Accepted(l, width, height, stride, |data|) ==> pixels == None
    ensures Accepted(l, width, height, stride, |data|) && Columns(l, width) == 0 ==> pixels == Some([])
    ensures Accepted(l, width, height, stride, |data|) && Columns(l, width) > 0 ==>
              && Fits(l, Columns(l, width), height, stride, |data|, Columns(l, width) * height)
              && (pixels.Some? <==> Clean(l, data, Columns(l, width), height, stride))
              && (pixels.Some? ==> Listed(l, data, Columns(l, width), height, stride, pixels.value, height))
  {
    if !Accepted(l, width, height, stride, |data|) {
      return None;
    }
    var columns := Columns(l, width);
    if columns == 0 {
      return Some([]);
    }
    pixels := UnpackRows(l, data, columns, height, stride);
  }

  method UnpackRows(l: Layout, data: seq<Byte>, width: nat, height: nat, stride: nat)
    returns (pixels: Option<seq<nat>>)
    requires Fits(l, width, height, stride, |data|, width * height)
    ensures pixels.Some? <==> Clean(l, data, width, height, stride)
    ensures pixels.Some? ==> Listed(l, data, width, height, stride, pixels.value, height)
  {
    var s: seq<nat>, y := [], 0;
    while y < height
      invariant y <= height && Listed(l, data, width, height, stride, s, y)
    {
      var row := UnpackRow(l, RowOf(data, stride, height, y), width);
      if row.None? {
        ghost var x :| 0 <= x < width && Sample(l, RowOf(data, stride, height, y), width, x).None?;
        assert SampleAt(l, data, width, height, stride, x, y).None?;
        return None;
      }
      RowListed(l, data, width, height, stride, s, row.value, y);
      s := s + row.value;
      y := y + 1;
    }
    ListedIsClean(l, data, width, height, stride, s);
    pixels := Some(s);
  }

  lemma ListedIsClean(l: Layout, data: seq<Byte>, width: nat, height: nat, stride: nat, s: seq<nat>)
    requires Fits(l, width, height, stride, |data|, width * height)
    requires Listed(l, data, width, height, stride, s, height)
    ensures Clean(l, data, width, height, stride)
  {
    forall x, y | 0 <= x < width && 0 <= y < height
      ensures SampleAt(l, data, width, height, stride, x, y).Some?
    {
      assert Reads(l, data, width, height, stride, s, x, y);
    }
  }

  lemma RowListed(
      l: Layout, data: seq<Byte>, width: nat, height: nat, stride: nat, s: seq<nat>, row: seq<nat>, y: nat)
    requires Fits(l, width, height, stride, |data|, width * height) && y < height && |row| == width
    requires Listed(l, data, width, height, stride, s, y)
    requires forall x :: 0 <= x < width ==> Some(row[x]) == SampleAt(l, data, width, height, stride, x, y)
    ensures Listed(l, data, width, height, stride, s + row, y + 1)
  {
    var longer := s + row;
    assert width * (y + 1) == width * y + width;
    forall x, j | 0 <= x < width && 0 <= j <= y
      ensures Reads(l, data, width, height, stride, longer, x, j)
    {
      if j < y {
        assert Reads(l, data, width, height, stride, s, x, j);
      } else {
        assert longer[width * y + x] == row[x];
      }
    }
  }

  /** The two programs agree: what the camera shows at a sample's mirrored place is what the tool lists for that
      sample, without its two low bits. */
  lemma ProgramsAgree(v: View, raw: seq<Byte>, gray: seq<Byte>, s: seq<nat>, x: nat, y: nat)
    requires Readable(v, raw) && x < v.width && y < v.height
    requires forall j :: 0 <= j < v.height ==> RowDone(v, raw, gray, j)
    requires Listed(v.layout, raw, v.width, v.height, v.stride, s, v.height)
    ensures 0 <= Place(v, x, y) < |gray| && 0 <= v.width * y + x < |s|
    ensures gray[Place(v, x, y)] == s[v.width * y + x] / 4
  {
    assert RowDone(v, raw, gray, y);
    assert Reads(v.layout, raw, v.width, v.height, v.stride, s, x, y);
  }
}
