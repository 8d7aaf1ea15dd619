/** DBV1 framing: the 12-byte file header, the canonical LEB128 prefix of every record, and the record
    header's validity rule. */
module BinaryFormat {
  import opened Bytes
  import opened Products

  const REPEAT: nat := 0
  const SPARSE: nat := 0
  const RAW: nat := 1
  const FULL: nat := 2
  const DELTA: nat := 3
  const HEADER_BYTES: nat := 12
  const MAX_DIMENSION: nat := 16384
  const MAX_PIXELS: nat := 67108864
  const TWO_32: nat := 0x1_0000_0000

  /** Zero means the geometry is not supported. */
  function PackedBytes(width: nat, height: nat): nat {
    if width == 0 || height == 0 || width > MAX_DIMENSION || height > MAX_DIMENSION || width * height > MAX_PIXELS
    then 0
    else (width + 7) / 8 * height
  }

  /** A supported geometry always packs into at least one byte and a size that survives `size << 2` in 32 bits. */
  lemma PackedBytesBound(width: nat, height: nat)
    ensures PackedBytes(width, height) != 0 <==>
              0 < width <= MAX_DIMENSION && 0 < height <= MAX_DIMENSION && width * height <= MAX_PIXELS
    ensures PackedBytes(width, height) <= 0x200_0000
  {
    var row := (width + 7) / 8;
    if 0 < width <= MAX_DIMENSION && 0 < height <= MAX_DIMENSION {
      ScaleMonotone(1, row, height);
      assert 1 * height == height;
      ScaleMonotone(row, 2048, height);
    }
  }

  // ---- LEB128 -------------------------------------------------------------------------------------

  /** The canonical unsigned LEB128 encoding (section 7.6 of DWARF Version 5). */
  function Leb(value: nat): (bytes: seq<Byte>)
    ensures |bytes| > 0
  {
    if value < 128 then [value] else [value % 128 + 128] + Leb(value / 128)
  }

  datatype Parsed = Incomplete | Invalid | Value(value: nat, size: nat)

  /** Reads a prefix from byte `i` on, least significant group first. */
  function ParseFrom(data: seq<Byte>, i: nat): Parsed
    requires i <= |data| && i <= 5
    decreases 5 - i, data
  {
    if i == |data| || i == 5 then
      if |data| >= 5 then Invalid else Incomplete
    else if i == 4 && data[i] > 15 then Invalid
    else if data[i] < 128 then
      if i != 0 && data[i] == 0 then Invalid else Value(data[i], i + 1)
    else
      match ParseFrom(data, i + 1)
      case Value(v, n) => Value(data[i] - 128 + 128 * v, n)
      case Incomplete => Incomplete
      case Invalid => Invalid
  }

  function Parse(data: seq<Byte>): Parsed { ParseFrom(data, 0) }

  /** How many bits a value may still have when its parse starts at byte `i`. */
  function Room(i: nat): (r: nat)
    requires i <= 4
    ensures r >= 16 && (i < 4 ==> r >= 128)
    decreases 4 - i
  {
    if i == 4 then 16 else 128 * Room(i + 1)
  }

  lemma {:induction false} ParseFromReads(data: seq<Byte>, i: nat, v: nat, n: nat)
    requires i <= 4 && i <= |data|
    requires i == 0 || v != 0
    ensures ParseFrom(data, i) == Value(v, n) <==> v < Room(i) && n == i + |Leb(v)| && Leb(v) <= data[i..]
    decreases 5 - i
  {
    if i == |data| {
      assert data[i..] == [];
    } else {
      var b := data[i];
      assert data[i..] == [b] + data[i + 1..];
      if v < 128 {
        assert Leb(v) <= data[i..] <==> b == v;
        if i < 4 && b >= 128 && ParseFrom(data, i + 1).Value? {
          ParsedIsNonzero(data, i + 1);
        }
      } else if i < 4 {
        var high := v / 128;
        assert Leb(v) == [v % 128 + 128] + Leb(high);
        assert Leb(v) <= data[i..] <==> b == v % 128 + 128 && Leb(high) <= data[i + 1..];
        ParseFromReads(data, i + 1, high, n);
        assert v < Room(i) <==> high < Room(i + 1);
        if b >= 128 && ParseFrom(data, i + 1).Value? {
          SevenBits(b - 128, ParseFrom(data, i + 1).value, v);
        }
      }
    }
  }

  lemma SevenBits(low: nat, high: nat, v: nat)
    requires low < 128
    ensures low + 128 * high == v <==> v / 128 == high && v % 128 == low
  {
  }

  lemma {:induction false} ParsedIsNonzero(data: seq<Byte>, i: nat)
    requires 0 < i <= 5 && i <= |data| && ParseFrom(data, i).Value?
    ensures ParseFrom(data, i).value != 0
    decreases 5 - i
  {
    if data[i] >= 128 {
      ParsedIsNonzero(data, i + 1);
    }
  }

  lemma {:induction false} IncompleteFrom(data: seq<Byte>, i: nat)
    requires i <= |data| && i <= 5
    requires forall k :: 0 <= k < i ==> data[k] >= 128
    ensures ParseFrom(data, i).Incomplete? <==> |data| < 5 && forall k :: 0 <= k < |data| ==> data[k] >= 128
    decreases 5 - i
  {
    if i < |data| && i < 5 && data[i] >= 128 && !(i == 4 && data[i] > 15) {
      IncompleteFrom(data, i + 1);
    }
  }

  /** `Parse` is the exact inverse of the canonical encoding: it returns a value and its length exactly when
      the input starts with that value's encoding and the value fits 32 bits. Overlong and oversized forms
      are therefore rejected. */
  lemma ParseExact(data: seq<Byte>, v: nat, n: nat)
    ensures Parse(data) == Value(v, n) <==> v < TWO_32 && n == |Leb(v)| && Leb(v) <= data
  {
    ParseFromReads(data, 0, v, n);
    assert Room(2) == 262144;
    assert data[0..] == data;
  }

  /** More input is asked for exactly when fewer than five bytes are there and all continue. */
  lemma ParseIncomplete(data: seq<Byte>)
    ensures Parse(data).Incomplete? <==> |data| < 5 && forall k :: 0 <= k < |data| ==> data[k] >= 128
  {
    IncompleteFrom(data, 0);
  }

  /** Parsing an encoding followed by anything returns the value and the encoding's length. */
  lemma PrefixRoundTrip(v: nat, rest: seq<Byte>)
    requires v < TWO_32
    ensures Parse(Leb(v) + rest) == Value(v, |Leb(v)|)
  {
    ParseExact(Leb(v) + rest, v, |Leb(v)|);
  }

  lemma {:induction false} LebLength(v: nat)
    requires v < TWO_32
    ensures |Leb(v)| <= 5
  {
    assert v / 128 / 128 / 128 / 128 < 128;
    assert |Leb(v / 128 / 128 / 128 / 128)| == 1;
    assert |Leb(v / 128 / 128 / 128)| <= 2;
    assert |Leb(v / 128 / 128)| <= 3;
    assert |Leb(v / 128)| <= 4;
  }

  /** Every byte of an encoding but the last carries the continuation bit. */
  lemma {:induction false} LebContinues(v: nat, k: nat)
    requires k < |Leb(v)| - 1
    ensures Leb(v)[k] >= 128
  {
    if k > 0 {
      LebContinues(v / 128, k - 1);
    }
  }

  /** Writes the prefix into the front of a buffer and returns its length. */
  method WritePrefix(out: array<Byte>, value: nat) returns (size: nat)
    requires value < TWO_32 && out.Length >= 5
    modifies out
    ensures size == |Leb(value)| <= 5
    ensures out[..] == Leb(value) + old(out[size..])
  {
    LebLength(value);
    size := 0;
    var rest := value;
    var low := rest % 128;
    rest := rest / 128;
    out[size] := if rest != 0 then low + 128 else low;
    size := size + 1;
    while rest != 0
      invariant 1 <= size <= |Leb(value)|
      invariant rest != 0 ==> Leb(value) == out[..size] + Leb(rest)
      invariant rest == 0 ==> Leb(value) == out[..size]
      invariant forall k :: size <= k < out.Length ==> out[k] == old(out[k])
      decreases rest
    {
      ghost var written, before := out[..size], rest;
      low := rest % 128;
      rest := rest / 128;
      out[size] := if rest != 0 then low + 128 else low;
      size := size + 1;
      assert out[..size] == written + [out[size - 1]];
      assert rest != 0 ==> Leb(before) == [out[size - 1]] + Leb(rest);
    }
    SameTail(out[..], old(out[..]), size);
  }

  lemma SameTail(now: seq<Byte>, before: seq<Byte>, size: nat)
    requires size <= |now| == |before| && forall k :: size <= k < |now| ==> now[k] == before[k]
    ensures now == now[..size] + before[size..]
  {
  }

  /** The seven payload bits of a prefix byte. */
  function Group(b: Byte): (g: nat)
    ensures g == if b < 128 then b else b - 128
  {
    b % 128
  }

  /** The reading loop: five bytes at most, seven bits each. */
  method ReadPrefix(data: seq<Byte>) returns (parsed: Parsed)
    ensures parsed == Parse(data)
  {
    var value: nat, scale: nat, i: nat := 0, 1, 0;
    while i < |data| && i < 5
      invariant i <= |data| && i <= 5
      invariant Parse(data) == Above(value, scale, ParseFrom(data, i))
      decreases 5 - i
    {
      var byte := data[i];
      if i == 4 && byte > 15 {
        return Invalid;
      }
      var group := Group(byte);
      if byte < 128 {
        return if i != 0 && byte == 0 then Invalid else Value(Raised(value, group, scale), i + 1);
      }
      AboveStep(value, scale, group, ParseFrom(data, i + 1));
      value, scale, i := Raised(value, group, scale), 128 * scale, i + 1;
    }
    parsed := if |data| >= 5 then Invalid else Incomplete;
  }

  /** A parse result whose value sits above `value` at bit weight `scale`. */
  function Above(value: nat, scale: nat, p: Parsed): Parsed {
    match p
    case Value(v, n) => Value(Raised(value, v, scale), n)
    case Incomplete => Incomplete
    case Invalid => Invalid
  }

  function Raised(value: nat, v: nat, scale: nat): nat {
    ScaleMonotone(0, v, scale);
    value + v * scale
  }

  lemma AboveStep(value: nat, scale: nat, low: nat, p: Parsed)
    ensures var step := if p.Value? then Value(low + 128 * p.value, p.size) else p;
            Above(value, scale, step) == Above(Raised(value, low, scale), 128 * scale, p)
  {
    if p.Value? {
      RaisedTwice(value, low, p.value, scale);
    }
  }

  lemma RaisedTwice(value: nat, low: nat, v: nat, scale: nat)
    ensures Raised(value, low + 128 * v, scale) == Raised(Raised(value, low, scale), v, 128 * scale)
  {
    assert (low + 128 * v) * scale == low * scale + v * (128 * scale);
  }

  // ---- file header and record header --------------------------------------------------------------

  function Put32(v: nat): (b: seq<Byte>)
    requires v < TWO_32
    ensures |b| == 4
  {
    [v % 256, v / 0x100 % 256, v / 0x1_0000 % 256, v / 0x100_0000]
  }

  function Get32(b: seq<Byte>): nat
    requires |b| == 4
  {
    b[0] as int + b[1] as int * 0x100 + b[2] as int * 0x1_0000 + b[3] as int * 0x100_0000
  }

  const MAGIC: seq<Byte> := [0x44, 0x42, 0x56, 0x31] // "DBV1"

  lemma Put32ReadsBack(v: nat)
    requires v < TWO_32
    ensures Get32(Put32(v)) == v
  {
    var first := v / 0x100;
    var second := first / 0x100;
    var third := second / 0x100;
    QuotientUnique(v, 0x1_0000, second, first % 0x100 * 0x100 + v % 0x100);
    QuotientUnique(v, 0x100_0000, third, second % 0x100 * 0x1_0000 + first % 0x100 * 0x100 + v % 0x100);
  }

  function Header(width: nat, height: nat): (b: seq<Byte>)
    requires width < TWO_32 && height < TWO_32
    ensures |b| == HEADER_BYTES
  {
    MAGIC + Put32(width) + Put32(height)
  }

  function Geometry(data: seq<Byte>): Option<(nat, nat)> {
    if |data| != HEADER_BYTES || data[..4] != MAGIC then None
    else
      var width, height := Get32(data[4..8]), Get32(data[8..]);
      if PackedBytes(width, height) != 0 then Some((width, height)) else None
  }

  /** The header reads back exactly when the geometry is supported. */
  lemma HeaderReadsBack(width: nat, height: nat)
    requires width < TWO_32 && height < TWO_32
    ensures Geometry(Header(width, height)) ==
            if PackedBytes(width, height) != 0 then Some((width, height)) else None
  {
    var h := Header(width, height);
    Put32ReadsBack(width);
    Put32ReadsBack(height);
    assert h[..4] == MAGIC && h[4..8] == Put32(width) && h[8..] == Put32(height);
  }

  /** Is a record header acceptable, given whether an image has been decoded before? */
  predicate Valid(code: nat, packed: nat, previous: bool) {
    var kind, bytes := code % 4, code / 4;
    if kind == REPEAT then previous && (bytes == 0 || (2 <= bytes <= packed))
    else if kind == RAW then bytes == packed
    else 0 < bytes <= packed && (kind == DELTA ==> previous)
  }
}
