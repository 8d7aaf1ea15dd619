/** Writing a DBV1 recording: one header, then the encoder's records, within the session's budget, on a disk
    that may refuse or cut short any write. What the writer reports is what a player finds in the file. */
module ImageWriters {
  import opened BinaryCodec
  import opened BinaryEncoders
  import opened BinaryFormat
  import opened BinaryReader
  import opened Bytes
  import opened RandomAccess
  import opened RecordingIndex
  import opened Slices

  /** How a write goes: is there space, how many bytes arrive, is a sync due, and does it succeed. */
  datatype Disk = Disk(space: bool, arrive: nat, due: bool, synced: bool)

  datatype Report = Report(offset: nat, bytes: nat)

  function AllOffered(images: seq<seq<Byte>>): (offers: seq<Offer>)
    ensures |offers| == |images|
    ensures forall i :: 0 <= i < |images| ==> offers[i] == Offer(images[i], true)
  {
    seq(|images|, i requires 0 <= i < |images| => Offer(images[i], true))
  }

  /** The records of a session that wrote these images. */
  function RecordsOf(z: Zlib, images: seq<seq<Byte>>, packed: nat): seq<Choice>
    requires forall i :: 0 <= i < |images| ==> |images[i]| == packed
  {
    EncodeRun(z, None, AllOffered(images), packed)
  }

  function LastImage(images: seq<seq<Byte>>): Option<seq<Byte>> {
    if images == [] then None else Some(images[|images| - 1])
  }

  lemma OfferedTail(images: seq<seq<Byte>>, bits: seq<Byte>)
    requires images != []
    ensures AllOffered(images + [bits])[1..] == AllOffered(images[1..] + [bits])
    ensures AllOffered(images)[1..] == AllOffered(images[1..])
  {
  }

  lemma {:induction false} EncodeOneMore(z: Zlib, previous: Option<seq<Byte>>, images: seq<seq<Byte>>, bits: seq<Byte>,
                                         packed: nat)
    requires forall i :: 0 <= i < |images| ==> |images[i]| == packed
    requires |bits| == packed && (previous.Some? ==> |previous.value| == packed)
    ensures EncodeRun(z, previous, AllOffered(images + [bits]), packed)
         == EncodeRun(z, previous, AllOffered(images), packed)
              + [Best(z, if images == [] then previous else LastImage(images), bits)]
    decreases |images|
  {
    var longer := AllOffered(images + [bits]);
    if images == [] {
      assert EncodeRun(z, Some(bits), longer[1..], packed) == [];
    } else {
      OfferedTail(images, bits);
      EncodeOneMore(z, Some(images[0]), images[1..], bits, packed);
      var first, tail := Best(z, previous, images[0]), EncodeRun(z, Some(images[0]), AllOffered(images[1..]), packed);
      assert EncodeRun(z, previous, AllOffered(images), packed) == [first] + tail;
      assert EncodeRun(z, previous, longer, packed)
          == [first] + EncodeRun(z, Some(images[0]), AllOffered(images[1..] + [bits]), packed);
    }
  }

  lemma {:induction false} EmittedAll(images: seq<seq<Byte>>)
    ensures Emitted(AllOffered(images)) == images
  {
    if images != [] {
      assert AllOffered(images)[1..] == AllOffered(images[1..]);
      EmittedAll(images[1..]);
    }
  }

  lemma {:induction false} ConcatExtends<T>(parts: seq<seq<T>>, more: seq<seq<T>>, k: nat)
    requires k <= |parts|
    ensures Concat(parts + more, k) == Concat(parts, k)
  {
    if k > 0 {
      ConcatExtends(parts, more, k - 1);
    }
  }

  lemma FileOneMore(width: nat, height: nat, records: seq<Choice>, c: Choice)
    requires width < TWO_32 && height < TWO_32
    ensures FileOf(width, height, records + [c], []) == FileOf(width, height, records, []) + c.Record()
    ensures Parts(records + [c]) == Parts(records) + [c.Record()]
  {
    assert Parts(records + [c]) == Parts(records) + [c.Record()];
    ConcatExtends(Parts(records), [c.Record()], |records|);
  }

  /** The header goes out with the first record. */
  function Chunk(width: nat, height: nat, first: bool, c: Choice): seq<Byte>
    requires width < TWO_32 && height < TWO_32
  {
    (if first then Header(width, height) else []) + c.Record()
  }

  /** Nothing before the first record, a whole recording from then on. */
  function FileSoFar(width: nat, height: nat, records: seq<Choice>): seq<Byte>
    requires width < TWO_32 && height < TWO_32
  {
    if records == [] then [] else FileOf(width, height, records, [])
  }

  /** Where and how long the records are, as the writer counts them. */
  ghost predicate Reported(parts: seq<seq<Byte>>, reports: seq<Report>) {
    && |reports| == |parts|
    && forall k :: 0 <= k < |parts| ==> reports[k] == Place(Offsets(parts)[k], Offsets(parts)[k + 1])
  }

  function Place(pos: nat, end: nat): Report {
    Report(FileOffset(pos), if FileOffset(pos) <= end then end - FileOffset(pos) else 0)
  }

  lemma ReportsOneMore(parts: seq<seq<Byte>>, part: seq<Byte>, reports: seq<Report>)
    requires Reported(parts, reports) && (parts != [] ==> |parts[0]| > 0)
    ensures var start := if parts == [] then 0 else HEADER_BYTES + |Concat(parts, |parts|)|;
            var size := |part| + if parts == [] then HEADER_BYTES else 0;
            Reported(parts + [part], reports + [Report(start, size)])
  {
    var longer := parts + [part];
    forall k | 0 <= k <= |parts|
      ensures Offsets(longer)[k] == Offsets(parts)[k]
    {
      ConcatExtends(parts, [part], k);
    }
    assert Concat(longer, |longer|) == Concat(longer, |parts|) + part;
    if parts != [] {
      LaterOffset(parts, |parts|);
    }
  }

  lemma FileSize(width: nat, height: nat, records: seq<Choice>, c: Choice)
    requires width < TWO_32 && height < TWO_32
    ensures |FileSoFar(width, height, records)|
         == if records == [] then 0 else HEADER_BYTES + |Concat(Parts(records), |records|)|
    ensures |Chunk(width, height, records == [], c)| == |c.Record()| + if records == [] then HEADER_BYTES else 0
  {
  }

  lemma NothingAround<T>(a: seq<T>)
    ensures a + [] + [] == a
  {
  }

  lemma FileGrows(width: nat, height: nat, records: seq<Choice>, c: Choice)
    requires width < TWO_32 && height < TWO_32
    ensures FileSoFar(width, height, records + [c])
         == FileSoFar(width, height, records) + Chunk(width, height, records == [], c)
  {
    FileOneMore(width, height, records, c);
    assert records + [c] != [];
    if records == [] {
      NothingAround(Header(width, height));
      assert FileOf(width, height, records, []) == Header(width, height);
    }
  }

  /** Writing one more record extends the file by one chunk and the reports by where it went. */
  lemma WriteOneMore(width: nat, height: nat, records: seq<Choice>, c: Choice, reports: seq<Report>)
    requires width < TWO_32 && height < TWO_32 && Reported(Parts(records), reports)
    ensures var before, chunk := FileSoFar(width, height, records), Chunk(width, height, records == [], c);
            && FileSoFar(width, height, records + [c]) == before + chunk
            && Reported(Parts(records + [c]), reports + [Report(|before|, |chunk|)])
  {
    FileGrows(width, height, records, c);
    assert Parts(records + [c]) == Parts(records) + [c.Record()];
    ReportsOneMore(Parts(records), c.Record(), reports);
    FileSize(width, height, records, c);
  }

  lemma {:induction false} RecordCount(z: Zlib, images: seq<seq<Byte>>, packed: nat)
    requires forall i :: 0 <= i < |images| ==> |images[i]| == packed
    ensures |RecordsOf(z, images, packed)| == |images|
    decreases |images|
  {
    if images != [] {
      var front := images[..|images| - 1];
      RecordCount(z, front, packed);
      EncodeOneMore(z, None, front, images[|images| - 1], packed);
      assert front + [images[|images| - 1]] == images;
    }
  }

  /** Only the first record starts right behind the header. */
  lemma LaterOffset(parts: seq<seq<Byte>>, k: nat)
    requires 0 < k <= |parts| && |parts[0]| > 0
    ensures Offsets(parts)[k] > HEADER_BYTES
  {
    ConcatPrefix(parts, 1, k);
    assert Concat(parts, 1) == Concat(parts, 0) + parts[0];
  }

  lemma ImageOneMore(
      z: Zlib, width: nat, height: nat, images: seq<seq<Byte>>, bits: seq<Byte>, packed: nat, reports: seq<Report>)
    requires width < TWO_32 && height < TWO_32 && |bits| == packed
    requires forall i :: 0 <= i < |images| ==> |images[i]| == packed
    requires Reported(Parts(RecordsOf(z, images, packed)), reports)
    ensures var c, records := Best(z, LastImage(images), bits), RecordsOf(z, images, packed);
            var longer := RecordsOf(z, images + [bits], packed);
            var before, chunk := FileSoFar(width, height, records), Chunk(width, height, records == [], c);
            && |records| == |images| && longer == records + [c]
            && FileSoFar(width, height, longer) == before + chunk
            && Reported(Parts(longer), reports + [Report(|before|, |chunk|)])
  {
    RecordCount(z, images, packed);
    EncodeOneMore(z, None, images, bits, packed);
    WriteOneMore(width, height, RecordsOf(z, images, packed), Best(z, LastImage(images), bits), reports);
  }

  // ---- the writer ---------------------------------------------------------------------------------

  class ImageWriter {
    const encoder: BinaryEncoder
    const limit: nat
    var file: seq<Byte>
    var bytesWritten: nat
    var lastOffset: nat
    var lastRecordBytes: nat
    // The images reported as written, the reports, and after a failure the image that was being written.
    ghost var images: seq<seq<Byte>>
    ghost var reports: seq<Report>
    ghost var stopped: bool
    ghost var lost: seq<Byte>

    ghost predicate Shape() {
      encoder.Valid() && encoder.width < TWO_32 && encoder.height < TWO_32
    }

    ghost predicate Sized()
      reads this
    {
      && (forall i :: 0 <= i < |images| ==> |images[i]| == encoder.packed)
      && (stopped ==> |lost| == encoder.packed)
    }

    ghost function Records(): seq<Choice>
      requires Sized()
      reads this
    {
      RecordsOf(encoder.zlib, images, encoder.packed)
    }

    ghost function Whole(): seq<Byte>
      requires Shape() && Sized()
      reads this
    {
      FileSoFar(encoder.width, encoder.height, Records())
    }

    /** The file holds exactly the reported records; after a failure, also a piece of the next one. */
    ghost predicate Valid()
      reads this, encoder, encoder.previous
    {
      && Shape() && Sized() && |file| <= limit
      && Reported(Parts(Records()), reports)
      && (!stopped ==>
            && file == Whole() && bytesWritten == |file| && |Records()| == |images|
            && encoder.Previous() == LastImage(images))
      && (stopped ==> Cut(encoder.zlib, encoder.width, encoder.height, encoder.packed, images, lost, file))
    }

    constructor (e: BinaryEncoder, budget: nat)
      requires e.Valid() && e.Previous() == None
      ensures Valid() && encoder == e && limit == budget && images == [] && !stopped
    {
      encoder, limit := e, budget;
      file, bytesWritten, lastOffset, lastRecordBytes := [], 0, 0, 0;
      images, reports, stopped, lost := [], [], false, [];
      new;
      PackedBytesBound(encoder.width, encoder.height);
    }

    /** Encodes and appends one frame. On success it is reported where it went; on failure nothing is
        reported and the writer is not used again in this session. */
    method WriteBinary(pixels: seq<Byte>, fullOk: bool, deltaOk: bool, disk: Disk) returns (ok: bool)
      requires Valid() && !stopped
      modifies this, encoder`hasPrevious, encoder.bits, encoder.previous, encoder.delta, encoder.compressed,
        encoder.record
      ensures Valid() && stopped == !ok
      ensures |PackFrame(pixels, encoder.width, encoder.height, encoder.threshold)| == encoder.packed
      ensures ok <==>
                && |pixels| >= encoder.width * encoder.height
                && old(Lands(PackFrame(pixels, encoder.width, encoder.height, encoder.threshold), fullOk, deltaOk,
                             disk))
      ensures ok ==>
                && images == old(images) + [PackFrame(pixels, encoder.width, encoder.height, encoder.threshold)]
                && reports == old(reports) + [Report(lastOffset, lastRecordBytes)]
      ensures !ok ==> images == old(images) && reports == old(reports)
    {
      ghost var frame := PackFrame(pixels, encoder.width, encoder.height, encoder.threshold);
      var chunk := Encode(pixels, fullOk, deltaOk);
      ok := chunk.Some? && |chunk.value| <= limit - bytesWritten && disk.space;
      if ok {
        ok := Store(chunk.value, disk, frame);
      } else {
        stopped, lost := true, frame;
      }
    }

    /** Appends a chunk that fits, and takes note of what became of it. */
    method Store(chunk: seq<Byte>, disk: Disk, ghost frame: seq<Byte>) returns (ok: bool)
      requires Shape() && Sized() && |frame| == encoder.packed && !stopped && Reported(Parts(Records()), reports)
      requires |Records()| == |images| && bytesWritten == |Whole()| && file == Whole()
      requires chunk == NextChunk(frame) && |chunk| <= limit - bytesWritten && encoder.Previous() == Some(frame)
      modifies this
      ensures Valid() && stopped == !ok && (ok <==> Appends(chunk, disk, old(bytesWritten)))
      ensures ok ==> images == old(images) + [frame] && reports == old(reports) + [Report(lastOffset, lastRecordBytes)]
      ensures !ok ==> images == old(images) && reports == old(reports)
    {
      ok := Append(chunk, disk);
      if ok {
        Settle(|chunk|, frame);
      } else {
        stopped, lost := true, frame;
      }
    }

    /** A frame is stored: the compressor does its part, the chunk is within the budget and the space, all of it
        arrives, and the sync that the first and every due chunk needs succeeds. */
    ghost predicate Lands(frame: seq<Byte>, fullOk: bool, deltaOk: bool, disk: Disk)
      requires Valid() && !stopped && |frame| == encoder.packed
      reads this, encoder, encoder.previous
    {
      && !encoder.GivesUp(LastImage(images), frame, fullOk, deltaOk)
      && |NextChunk(frame)| <= limit - bytesWritten && disk.space
      && Appends(NextChunk(frame), disk, bytesWritten)
    }

    /** Takes note of a chunk that reached the file. */
    method Settle(size: nat, ghost frame: seq<Byte>)
      requires Shape() && Sized() && |frame| == encoder.packed && !stopped && Reported(Parts(Records()), reports)
      requires |Records()| == |images| && bytesWritten == |Whole()|
      requires var chunk := NextChunk(frame); file == Whole() + chunk && |file| <= limit && size == |chunk|
      requires encoder.Previous() == Some(frame)
      modifies this`lastOffset, this`lastRecordBytes, this`bytesWritten, this`images, this`reports
      ensures Valid() && images == old(images) + [frame]
      ensures reports == old(reports) + [Report(lastOffset, lastRecordBytes)]
    {
      ImageOneMore(encoder.zlib, encoder.width, encoder.height, images, frame, encoder.packed, reports);
      lastOffset, lastRecordBytes := bytesWritten, size;
      bytesWritten := bytesWritten + size;
      images, reports := images + [frame], reports + [Report(lastOffset, lastRecordBytes)];
    }

    ghost function NextChunk(frame: seq<Byte>): seq<Byte>
      requires Shape() && Sized() && |frame| == encoder.packed
      reads this
    {
      Chunk(encoder.width, encoder.height, Records() == [], Best(encoder.zlib, LastImage(images), frame))
    }

    /** The bytes to append for a frame: its record, behind the file header if it is the first. */
    method Encode(pixels: seq<Byte>, fullOk: bool, deltaOk: bool) returns (chunk: Option<seq<Byte>>)
      requires Shape() && Sized()
      requires encoder.Previous() == LastImage(images) && (bytesWritten == 0 <==> Records() == [])
      modifies encoder`hasPrevious, encoder.bits, encoder.previous, encoder.delta, encoder.compressed, encoder.record
      ensures var frame := PackFrame(pixels, encoder.width, encoder.height, encoder.threshold);
              && |frame| == encoder.packed
              && (chunk.None? <==>
                    || |pixels| < encoder.width * encoder.height
                    || encoder.GivesUp(LastImage(images), frame, fullOk, deltaOk))
              && (chunk.Some? ==> encoder.Previous() == Some(frame) && chunk.value == NextChunk(frame))
    {
      var encoded := encoder.Encode(pixels, fullOk, deltaOk);
      chunk := match encoded
        case None => None
        case Some(record) =>
          Some((if bytesWritten == 0 then Header(encoder.width, encoder.height) else []) + record);
    }

    /** The writes and the sync: on failure any beginning of the chunk may have reached the file. */
    method Append(chunk: seq<Byte>, disk: Disk) returns (ok: bool)
      modifies this`file
      ensures ok <==> Appends(chunk, disk, bytesWritten)
      ensures ok ==> file == old(file) + chunk
      ensures !ok ==> old(file) <= file <= old(file) + chunk
    {
      if disk.arrive < |chunk| {
        file := file + chunk[..disk.arrive];
        return false;
      }
      file := file + chunk;
      ok := (bytesWritten != 0 && !disk.due) || disk.synced;
    }
  }

  predicate Appends(chunk: seq<Byte>, disk: Disk, before: nat) {
    |chunk| <= disk.arrive && ((before != 0 && !disk.due) || disk.synced)
  }

  /** After a failed write the file ends within the chunk that was being written. */
  ghost predicate Cut(
      z: Zlib, width: nat, height: nat, packed: nat, images: seq<seq<Byte>>, lost: seq<Byte>, file: seq<Byte>)
    requires width < TWO_32 && height < TWO_32 && |lost| == packed
    requires forall i :: 0 <= i < |images| ==> |images[i]| == packed
  {
    var records := RecordsOf(z, images, packed);
    var whole := FileSoFar(width, height, records);
    whole <= file <= whole + Chunk(width, height, records == [], Best(z, LastImage(images), lost))
  }

  // ---- the player ---------------------------------------------------------------------------------

  /** A recording read back: every report names an index entry, and that entry shows the image written. */
  lemma PlayerFinds(
      z: Zlib, width: nat, height: nat, images: seq<seq<Byte>>, reports: seq<Report>, tail: seq<Byte>,
      path: string, k: nat)
    requires Lawful(z) && width < TWO_32 && height < TWO_32 && PackedBytes(width, height) != 0 && Torn(tail)
    requires forall i :: 0 <= i < |images| ==> |images[i]| == PackedBytes(width, height)
    requires Reported(Parts(RecordsOf(z, images, PackedBytes(width, height))), reports) && k < |images|
    ensures k < |reports|
    ensures var file := FileOf(width, height, RecordsOf(z, images, PackedBytes(width, height)), tail);
            Shows(z, file, width, height, |images|, path, k, reports[k], images[k])
  {
    var packed := PackedBytes(width, height);
    var records := RecordsOf(z, images, packed);
    RecordCount(z, images, packed);
    PackedBytesBound(width, height);
    EncodedIsWellFormed(z, AllOffered(images), packed);
    RecordingRoundTrip(z, None, AllOffered(images), packed);
    EmittedAll(images);
    RandomEqualsSequential(z, width, height, records, tail, images, path, k);
    EntryIsReported(width, height, records, reports, tail, k);
  }

  /** The index entry of a record is numbered and placed as the writer reported it. */
  lemma EntryIsReported(
      width: nat, height: nat, records: seq<Choice>, reports: seq<Report>, tail: seq<Byte>, k: nat)
    requires width < TWO_32 && height < TWO_32 && PackedBytes(width, height) != 0 && Torn(tail)
    requires WellFormed(records, PackedBytes(width, height)) && Reported(Parts(records), reports) && k < |records|
    ensures k < |reports|
    ensures var index := IndexOf(FileOf(width, height, records, tail));
            && index.Indexed? && |index.outcome.entries| == |records|
            && var e := index.outcome.entries[k];
            e.index == k + 1 && e.fileOffset == reports[k].offset && e.fileBytes == reports[k].bytes
  {
    IndexOfRecording(width, height, records, tail);
    var off := Offsets(Parts(records));
    assert Entries(records, off)[k] == EntryOf(records, off, k);
  }

  /** The player lists `count` frames, and the one numbered `k + 1` is where the report says and looks as given. */
  predicate Shows(
      z: Zlib, file: seq<Byte>, width: nat, height: nat, count: nat, path: string, k: nat, report: Report,
      image: seq<Byte>)
  {
    var index := IndexOf(file);
    && index.Indexed? && index.width == width && index.height == height
    && |index.outcome.entries| == count > k
    && var e := index.outcome.entries[k];
    && e.index == k + 1 && e.fileOffset == report.offset && e.fileBytes == report.bytes
    && e.keyOffset >= 0 && e.decodeOffset >= 0
    && Fetch(z, file, FrameOf(path, width, height, e)) == Some(image)
  }

  /** Whatever the last write left behind, the player finds every reported frame where the writer said it was,
      in order from number one, with the pixels that were written. It may list one frame more: the one whose
      write reached the file completely and then failed to sync. */
  lemma PlayerAgrees(
      z: Zlib, width: nat, height: nat, images: seq<seq<Byte>>, reports: seq<Report>, lost: seq<Byte>,
      file: seq<Byte>, path: string, k: nat)
    requires Lawful(z) && width < TWO_32 && height < TWO_32 && |lost| == PackedBytes(width, height) != 0
    requires forall i :: 0 <= i < |images| ==> |images[i]| == PackedBytes(width, height)
    requires Reported(Parts(RecordsOf(z, images, PackedBytes(width, height))), reports) && k < |images|
    requires Cut(z, width, height, PackedBytes(width, height), images, lost, file)
    ensures k < |reports|
    ensures Shows(z, file, width, height, |images|, path, k, reports[k], images[k])
            || (file == FileSoFar(width, height, RecordsOf(z, images + [lost], PackedBytes(width, height)))
                && Shows(z, file, width, height, |images| + 1, path, k, reports[k], images[k]))
  {
    RecordCount(z, images, PackedBytes(width, height));
    var tail := CutLeaves(z, width, height, PackedBytes(width, height), images, lost, file);
    if tail == Best(z, LastImage(images), lost).Record() {
      WholeRecordLeft(z, width, height, images, reports, lost, file, path, k);
    } else {
      PieceLeft(z, width, height, images, reports, lost, tail, file, path, k);
    }
  }

  /** What is in a cut file behind the whole records. */
  lemma CutLeaves(
      z: Zlib, width: nat, height: nat, packed: nat, images: seq<seq<Byte>>, lost: seq<Byte>, file: seq<Byte>)
    returns (tail: seq<Byte>)
    requires width < TWO_32 && height < TWO_32 && |lost| == packed
    requires forall i :: 0 <= i < |images| ==> |images[i]| == packed
    requires Cut(z, width, height, packed, images, lost, file) && RecordsOf(z, images, packed) != []
    ensures file == FileSoFar(width, height, RecordsOf(z, images, packed)) + tail
    ensures var record := Best(z, LastImage(images), lost).Record(); tail == record || tail < record
  {
    tail := BehindRecords(width, height, RecordsOf(z, images, packed), Best(z, LastImage(images), lost), file);
  }

  lemma BehindRecords(width: nat, height: nat, records: seq<Choice>, c: Choice, file: seq<Byte>)
    returns (tail: seq<Byte>)
    requires width < TWO_32 && height < TWO_32 && records != []
    requires FileSoFar(width, height, records) <= file
    requires file <= FileSoFar(width, height, records) + Chunk(width, height, false, c)
    ensures file == FileSoFar(width, height, records) + tail && (tail == c.Record() || tail < c.Record())
  {
    assert Chunk(width, height, false, c) == c.Record();
    tail := Remainder(FileSoFar(width, height, records), file, c.Record());
  }

  lemma WholeRecordLeft(
      z: Zlib, width: nat, height: nat, images: seq<seq<Byte>>, reports: seq<Report>, lost: seq<Byte>,
      file: seq<Byte>, path: string, k: nat)
    requires Lawful(z) && width < TWO_32 && height < TWO_32 && |lost| == PackedBytes(width, height) != 0
    requires forall i :: 0 <= i < |images| ==> |images[i]| == PackedBytes(width, height)
    requires Reported(Parts(RecordsOf(z, images, PackedBytes(width, height))), reports) && k < |images|
    requires |RecordsOf(z, images, PackedBytes(width, height))| == |images| <= |reports|
    requires file == FileSoFar(width, height, RecordsOf(z, images, PackedBytes(width, height)))
                     + Best(z, LastImage(images), lost).Record()
    ensures k < |reports| && file == FileSoFar(width, height, RecordsOf(z, images + [lost], PackedBytes(width, height)))
    ensures Shows(z, file, width, height, |images| + 1, path, k, reports[k], images[k])
  {
    var packed := PackedBytes(width, height);
    var records, c, longer := RecordsOf(z, images, packed), Best(z, LastImage(images), lost), images + [lost];
    ImageOneMore(z, width, height, images, lost, packed, reports);
    var before, chunk := FileSoFar(width, height, records), Chunk(width, height, records == [], c);
    assert records != [] && chunk == c.Record();
    KthOf(images, lost, k);
    KthOf(reports, Report(|before|, |chunk|), k);
    PlayerFinds(z, width, height, longer, reports + [Report(|before|, |chunk|)], [], path, k);
  }

  lemma KthOf<T>(s: seq<T>, x: T, k: nat)
    requires k < |s|
    ensures (s + [x])[k] == s[k]
  {
  }

  lemma PieceLeft(
      z: Zlib, width: nat, height: nat, images: seq<seq<Byte>>, reports: seq<Report>, lost: seq<Byte>,
      tail: seq<Byte>, file: seq<Byte>, path: string, k: nat)
    requires Lawful(z) && width < TWO_32 && height < TWO_32 && |lost| == PackedBytes(width, height) != 0
    requires forall i :: 0 <= i < |images| ==> |images[i]| == PackedBytes(width, height)
    requires Reported(Parts(RecordsOf(z, images, PackedBytes(width, height))), reports) && k < |images|
    requires tail < Best(z, LastImage(images), lost).Record()
    requires file == FileSoFar(width, height, RecordsOf(z, images, PackedBytes(width, height))) + tail
    ensures k < |reports| && Shows(z, file, width, height, |images|, path, k, reports[k], images[k])
  {
    TailAppended(width, height, RecordsOf(z, images, PackedBytes(width, height)), tail);
    PackedBytesBound(width, height);
    BestDecodes(z, LastImage(images), lost);
    assert Torn(tail);
    PlayerFinds(z, width, height, images, reports, tail, path, k);
  }

  lemma Remainder<T>(whole: seq<T>, file: seq<T>, chunk: seq<T>) returns (tail: seq<T>)
    requires whole <= file <= whole + chunk
    ensures file == whole + tail && (tail == chunk || tail < chunk)
  {
    tail := file[|whole|..];
  }

  lemma TailAppended(width: nat, height: nat, records: seq<Choice>, tail: seq<Byte>)
    requires width < TWO_32 && height < TWO_32
    ensures FileOf(width, height, records, []) + tail == FileOf(width, height, records, tail)
  {
  }
}
