/** Why seeking is sound: for a well-formed recording, the replay the reader performs for frame k gives the
    same image as decoding every record from the first one. */
module RandomAccess {
  import opened BinaryCodec
  import opened BinaryFormat
  import opened BinaryReader
  import opened Bytes
  import opened RecordingIndex

  /** The image a sequential decoder holds before record `k`. */
  function Before(images: seq<seq<Byte>>, k: nat): Option<seq<Byte>>
    requires k <= |images|
  {
    if k == 0 then None else Some(images[k - 1])
  }

  /** `images` is what sequential decoding from nothing gives. */
  ghost predicate Decodes(z: Zlib, packed: nat, records: seq<Choice>, images: seq<seq<Byte>>) {
    && |images| == |records|
    && (forall k :: 0 <= k < |images| ==> |images[k]| == packed)
    && (forall k :: 0 <= k < |images| ==>
          DecodeRecord(z, packed, Before(images, k), records[k].Code(), records[k].payload) == Some(images[k]))
  }

  lemma {:induction false} DecodeRunDecodes(
      z: Zlib, packed: nat, image: Option<seq<Byte>>, records: seq<Choice>, images: seq<seq<Byte>>, k: nat)
    requires image.Some? ==> |image.value| == packed
    requires DecodeRun(z, packed, image, records) == Some(images) && k < |images|
    ensures |images| == |records| && |images[k]| == packed && (k > 0 ==> |images[k - 1]| == packed)
    ensures DecodeRecord(z, packed, if k == 0 then image else Some(images[k - 1]), records[k].Code(),
                         records[k].payload)
            == Some(images[k])
    decreases k
  {
    var now := DecodeRecord(z, packed, image, records[0].Code(), records[0].payload);
    var rest := DecodeRun(z, packed, now, records[1..]);
    assert images == [now.value] + rest.value;
    if k > 0 {
      DecodeRunDecodes(z, packed, now, records[1..], rest.value, k - 1);
    }
  }

  /** At a record that is in the file, one replay step is one decoding step. */
  lemma StepDecodes(
      z: Zlib, data: seq<Byte>, packed: nat, pos: nat, end: nat, c: Choice, image: Option<seq<Byte>>)
    requires ReadsAt(data, pos, end, c) && c.kind < 4
    requires image.Some? ==> |image.value| == packed
    requires DecodeRecord(z, packed, image, c.Code(), c.payload).Some?
    ensures ReplayStep(z, data, packed, pos, image)
         == Some(Found(DecodeRecord(z, packed, image, c.Code(), c.payload).value, end))
  {
    CodeParts(c);
  }

  /** Each offset's replay step, on top of the image before it, gives the image there and the next offset. */
  ghost predicate Steps(z: Zlib, data: seq<Byte>, packed: nat, off: seq<nat>, images: seq<seq<Byte>>) {
    && |off| == |images| + 1
    && (forall k :: 0 <= k < |off| ==> off[k] <= |data|)
    && (forall k :: 0 <= k < |images| ==> |images[k]| == packed && off[k] < off[k + 1])
    && (forall k :: 0 < k < |images| ==>
          ReplayStep(z, data, packed, off[k], Some(images[k - 1])) == Some(Found(images[k], off[k + 1])))
  }

  lemma RecordsGiveSteps(
      z: Zlib, data: seq<Byte>, packed: nat, records: seq<Choice>, off: seq<nat>, images: seq<seq<Byte>>)
    requires Tiled(data, records, off) && InFormat(records) && Decodes(z, packed, records, images)
    ensures Steps(z, data, packed, off, images)
  {
    forall k | 0 < k < |images|
      ensures ReplayStep(z, data, packed, off[k], Some(images[k - 1])) == Some(Found(images[k], off[k + 1]))
    {
      assert Before(images, k) == Some(images[k - 1]);
      StepDecodes(z, data, packed, off[k], off[k + 1], records[k], Some(images[k - 1]));
    }
  }

  lemma ReplayOnward(
      z: Zlib, data: seq<Byte>, packed: nat, pos: nat, target: nat, image: Option<seq<Byte>>, f: Found)
    requires pos <= |data| && (image.Some? ==> |image.value| == packed) && pos <= target
    requires ReplayStep(z, data, packed, pos, image) == Some(f)
    ensures Replay(z, data, packed, pos, target, image)
         == if pos == target then Some(f) else Replay(z, data, packed, f.next, target, Some(f.image))
  {
  }

  /** Replay over records i .. c ends with the image sequential decoding has after record c. */
  lemma {:induction false} ReplayRecords(
      z: Zlib, data: seq<Byte>, packed: nat, off: seq<nat>, images: seq<seq<Byte>>, i: nat, c: nat,
      image: Option<seq<Byte>>)
    requires Steps(z, data, packed, off, images)
    requires i <= c < |images| && (image.Some? ==> |image.value| == packed)
    requires ReplayStep(z, data, packed, off[i], image) == Some(Found(images[i], off[i + 1]))
    ensures Replay(z, data, packed, off[i], off[c], image) == Some(Found(images[c], off[c + 1]))
    decreases c - i
  {
    OffsetsRise(off, i, c);
    ReplayOnward(z, data, packed, off[i], off[c], image, Found(images[i], off[i + 1]));
    if i < c {
      ReplayRecords(z, data, packed, off, images, i + 1, c, Some(images[i]));
    }
  }

  lemma {:induction false} OffsetsRise(off: seq<nat>, i: nat, k: nat)
    requires i <= k < |off| && forall j :: 0 <= j < |off| - 1 ==> off[j] < off[j + 1]
    ensures off[i] <= off[k] && (i < k ==> off[i] < off[k])
    decreases k - i
  {
    if i < k {
      OffsetsRise(off, i, k - 1);
      assert off[k - 1] < off[k - 1 + 1];
    }
  }

  /** A whole image does not depend on what was decoded before. */
  lemma WholeIgnoresImage(z: Zlib, packed: nat, c: Choice, image: Option<seq<Byte>>)
    requires Whole(c.Code()) && (image.Some? ==> |image.value| == packed)
    ensures DecodeRecord(z, packed, image, c.Code(), c.payload) == DecodeRecord(z, packed, None, c.Code(), c.payload)
  {
  }

  lemma RepeatKeepsImage(z: Zlib, packed: nat, c: Choice, image: seq<Byte>)
    requires c.Code() == 0 && |image| == packed
    ensures DecodeRecord(z, packed, Some(image), c.Code(), c.payload) in {None, Some(image)}
  {
  }

  /** Empty repeats leave the image alone. */
  lemma {:induction false} RepeatsKeepImage(
      z: Zlib, packed: nat, records: seq<Choice>, images: seq<seq<Byte>>, c: nat, k: nat)
    requires Decodes(z, packed, records, images) && c <= k < |records|
    requires forall i :: c < i <= k ==> records[i].Code() == 0
    ensures images[c] == images[k]
    decreases k - c
  {
    if c < k {
      RepeatsKeepImage(z, packed, records, images, c, k - 1);
      assert Before(images, k) == Some(images[k - 1]);
      RepeatKeepsImage(z, packed, records[k], images[k - 1]);
    }
  }

  /** The first record of a recording is a whole image. */
  lemma FirstIsWhole(records: seq<Choice>, packed: nat, k: nat)
    requires WellFormed(records, packed) && k < |records|
    ensures 0 <= LastWhole(records, k) <= LastChanged(records, k) <= k
  {
    assert Valid(records[0].Code(), packed, LastWhole(records, -1) >= 0);
    assert Whole(records[0].Code());
  }

  /** Replaying from the indexed key record to the last changed record gives frame k's image. */
  lemma SeekGivesImage(
      z: Zlib, data: seq<Byte>, packed: nat, records: seq<Choice>, off: seq<nat>, images: seq<seq<Byte>>, k: nat)
    requires Tiled(data, records, off) && WellFormed(records, packed) && Decodes(z, packed, records, images)
    requires k < |records|
    ensures 0 <= LastWhole(records, k) <= LastChanged(records, k) <= k
    ensures var r := Replay(z, data, packed, off[LastWhole(records, k)], off[LastChanged(records, k)], None);
            r.Some? && r.value.image == images[k]
  {
    FirstIsWhole(records, packed, k);
    var j, c := LastWhole(records, k), LastChanged(records, k);
    WholeIgnoresImage(z, packed, records[j], Before(images, j));
    StepDecodes(z, data, packed, off[j], off[j + 1], records[j], None);
    RecordsGiveSteps(z, data, packed, records, off, images);
    ReplayRecords(z, data, packed, off, images, j, c, None);
    RepeatsKeepImage(z, packed, records, images, c, k);
  }

  /** Which frame a player asks the reader for when the user selects index entry `e`. */
  function FrameOf(path: string, width: nat, height: nat, e: Entry): Frame
    requires e.keyOffset >= 0 && e.decodeOffset >= 0
  {
    Frame(path, width, height, e.keyOffset, e.decodeOffset)
  }

  lemma RunDecodes(z: Zlib, packed: nat, records: seq<Choice>, images: seq<seq<Byte>>)
    requires DecodeRun(z, packed, None, records) == Some(images)
    ensures Decodes(z, packed, records, images)
  {
    forall i | 0 <= i < |images|
      ensures |images[i]| == packed
    {
      DecodeRunDecodes(z, packed, None, records, images, i);
    }
    forall i | 0 <= i < |images|
      ensures DecodeRecord(z, packed, Before(images, i), records[i].Code(), records[i].payload) == Some(images[i])
    {
      DecodeRunDecodes(z, packed, None, records, images, i);
    }
  }

  /** The index entry of a record leads the reader to that record's image. */
  lemma EntryFetches(
      z: Zlib, data: seq<Byte>, width: nat, height: nat, records: seq<Choice>, off: seq<nat>,
      images: seq<seq<Byte>>, path: string, k: nat)
    requires var packed := PackedBytes(width, height);
             && packed != 0 && Tiled(data, records, off) && WellFormed(records, packed)
             && Decodes(z, packed, records, images)
    requires k < |records|
    ensures var e := EntryOf(records, off, k);
            && e.keyOffset >= 0 && e.decodeOffset >= 0
            && Fetch(z, data, FrameOf(path, width, height, e)) == Some(images[k])
  {
    SeekGivesImage(z, data, PackedBytes(width, height), records, off, images, k);
  }

  /** For any well-formed recording that decodes sequentially, torn at the end or not: the index lists its
      records, and fetching any listed frame gives the sequential image. Together with the reader's contract
      this holds for any sequence of requests in any order. */
  lemma RandomEqualsSequential(
      z: Zlib, width: nat, height: nat, records: seq<Choice>, tail: seq<Byte>, images: seq<seq<Byte>>,
      path: string, k: nat)
    requires width < TWO_32 && height < TWO_32 && PackedBytes(width, height) != 0
    requires WellFormed(records, PackedBytes(width, height)) && Torn(tail)
    requires DecodeRun(z, PackedBytes(width, height), None, records) == Some(images) && k < |images|
    ensures var index := IndexOf(FileOf(width, height, records, tail));
            && index.Indexed? && index.width == width && index.height == height
            && |index.outcome.entries| == |records| == |images|
            && var e := index.outcome.entries[k];
            && e.keyOffset >= 0 && e.decodeOffset >= 0
            && Fetch(z, FileOf(width, height, records, tail), FrameOf(path, width, height, e)) == Some(images[k])
  {
    var data, off := FileOf(width, height, records, tail), Offsets(Parts(records));
    IndexOfRecording(width, height, records, tail);
    RunDecodes(z, PackedBytes(width, height), records, images);
    EntryFetches(z, data, width, height, records, off, images, path, k);
  }

  // ---- from camera pixels to the viewer -----------------------------------------------------------

  /** Every record an encoder emits is one the format accepts at its place. */
  lemma {:induction false} EncodedIsWellFormed(z: Zlib, offers: seq<Offer>, size: nat)
    requires Lawful(z) && 0 < size <= 0x200_0000
    requires forall i :: 0 <= i < |offers| ==> |offers[i].bits| == size
    ensures WellFormed(EncodeRun(z, None, offers, size), size)
  {
    var records := EncodeRun(z, None, offers, size);
    forall k | 0 <= k < |records|
      ensures records[k].kind < 4 && records[k].Code() < TWO_32
      ensures Valid(records[k].Code(), size, LastWhole(records, k - 1) >= 0)
    {
      EncodedRecord(z, None, offers, size, k);
      if k > 0 {
        EncodedRecord(z, None, offers, size, 0);
        assert Whole(records[0].Code());
      }
    }
  }

  lemma {:induction false} EncodedRecord(z: Zlib, previous: Option<seq<Byte>>, offers: seq<Offer>, size: nat, k: nat)
    requires Lawful(z) && 0 < size <= 0x200_0000
    requires forall i :: 0 <= i < |offers| ==> |offers[i].bits| == size
    requires previous.Some? ==> |previous.value| == size
    requires k < |EncodeRun(z, previous, offers, size)|
    ensures var c := EncodeRun(z, previous, offers, size)[k];
            && c.kind < 4 && c.Code() < TWO_32 && Valid(c.Code(), size, previous.Some? || k > 0)
    decreases |offers|
  {
    if !offers[0].compresses {
      EncodedRecord(z, previous, offers[1..], size, k);
    } else {
      var bits := offers[0].bits;
      BestDecodes(z, previous, bits);
      if k > 0 {
        EncodedRecord(z, Some(bits), offers[1..], size, k - 1);
      }
    }
  }

  /** End to end: whatever frames were offered and whichever compressions failed, selecting any entry of the
      recording shows exactly the thresholded pixels of the corresponding emitted frame. */
  lemma ViewerShowsThreshold(
      z: Zlib, width: nat, height: nat, threshold: Byte, frames: seq<seq<Byte>>, compresses: seq<bool>,
      tail: seq<Byte>, path: string, k: nat, x: nat, y: nat)
    requires Lawful(z) && PackedBytes(width, height) != 0 && |compresses| == |frames| && Torn(tail)
    requires forall i :: 0 <= i < |frames| ==> |frames[i]| >= width * height
    requires x < width && y < height && k < |Kept(frames, compresses)|
    ensures width < TWO_32 && height < TWO_32 && PackedBytes(width, height) == RowBytes(width) * height
    ensures forall i :: 0 <= i < |frames| ==>
              |Offers(frames, compresses, width, height, threshold)[i].bits| == PackedBytes(width, height)
    ensures var records := EncodeRun(z, None, Offers(frames, compresses, width, height, threshold),
                                     PackedBytes(width, height));
            var index := IndexOf(FileOf(width, height, records, tail));
            && index.Indexed? && |index.outcome.entries| == |Kept(frames, compresses)|
            && var e := index.outcome.entries[k];
            && e.keyOffset >= 0 && e.decodeOffset >= 0
            && var shown := Fetch(z, FileOf(width, height, records, tail), FrameOf(path, width, height, e));
            && shown.Some? && y * RowBytes(width) + x / 8 < |shown.value|
            && 0 <= y * width + x < |Kept(frames, compresses)[k]|
            && (White(shown.value, width, x, y) <==> Kept(frames, compresses)[k][y * width + x] >= threshold)
  {
    var size, offers := PackedBytes(width, height), Offers(frames, compresses, width, height, threshold);
    PackedBytesBound(width, height);
    EncodedIsWellFormed(z, offers, size);
    RecordingRoundTrip(z, None, offers, size);
    EmittedAreKept(frames, compresses, width, height, threshold);
    var records := EncodeRun(z, None, offers, size);
    RandomEqualsSequential(z, width, height, records, tail, Emitted(offers), path, k);
    KeptAreFrames(frames, compresses, width, height);
    PackedPixel(Kept(frames, compresses)[k], width, height, threshold, x, y);
  }

  function Offers(frames: seq<seq<Byte>>, compresses: seq<bool>, width: nat, height: nat, threshold: Byte)
    : (offers: seq<Offer>)
    requires width > 0 && |compresses| == |frames|
    ensures |offers| == |frames|
    ensures forall i :: 0 <= i < |frames| ==>
              offers[i] == Offer(PackFrame(frames[i], width, height, threshold), compresses[i])
  {
    seq(|frames|, i requires 0 <= i < |frames| => Offer(PackFrame(frames[i], width, height, threshold), compresses[i]))
  }

  /** The frames that made it into the file. */
  function Kept(frames: seq<seq<Byte>>, compresses: seq<bool>): seq<seq<Byte>>
    requires |compresses| == |frames|
  {
    if frames == [] then []
    else (if compresses[0] then [frames[0]] else []) + Kept(frames[1..], compresses[1..])
  }

  lemma {:induction false} KeptAreFrames(frames: seq<seq<Byte>>, compresses: seq<bool>, width: nat, height: nat)
    requires |compresses| == |frames|
    requires forall i :: 0 <= i < |frames| ==> |frames[i]| >= width * height
    ensures forall i :: 0 <= i < |Kept(frames, compresses)| ==> |Kept(frames, compresses)[i]| >= width * height
  {
    if frames != [] {
      KeptAreFrames(frames[1..], compresses[1..], width, height);
    }
  }

  lemma {:induction false} EmittedAreKept(
      frames: seq<seq<Byte>>, compresses: seq<bool>, width: nat, height: nat, threshold: Byte)
    requires width > 0 && |compresses| == |frames|
    ensures var emitted := Emitted(Offers(frames, compresses, width, height, threshold));
            var kept := Kept(frames, compresses);
            |emitted| == |kept|
            && forall i :: 0 <= i < |kept| ==> emitted[i] == PackFrame(kept[i], width, height, threshold)
  {
    if frames != [] {
      EmittedAreKept(frames[1..], compresses[1..], width, height, threshold);
      assert Offers(frames, compresses, width, height, threshold)[1..]
          == Offers(frames[1..], compresses[1..], width, height, threshold);
    }
  }
}
