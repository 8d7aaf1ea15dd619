/** From the capture thread to the player: the frames a recorder admits are the frames a player lists, under the same
    numbers and with the pixels the camera had. */
module RecordedSession {
  import opened BinaryCodec
  import opened BinaryFormat
  import opened BinaryReader
  import opened Bytes
  import opened ImageWriters
  import opened RandomAccess
  import opened RecordingIndex
  import Protocol = RecorderProtocol

  /** A session that records in the DBV format, at dimensions the format allows. */
  predicate RecordsBinary(c: Protocol.Config) {
    Protocol.Usable(c) && c.variable && c.width < TWO_32 && c.height < TWO_32 && PackedBytes(c.width, c.height) != 0
  }

  /** The bitmaps of copied frames. */
  function Bitmaps(c: Protocol.Config, threshold: Byte, images: seq<seq<Byte>>): (bitmaps: seq<seq<Byte>>)
    requires c.width > 0
    ensures |bitmaps| == |images|
    ensures forall i :: 0 <= i < |images| ==> bitmaps[i] == PackFrame(images[i], c.width, c.height, threshold)
  {
    seq(|images|, i requires 0 <= i < |images| => PackFrame(images[i], c.width, c.height, threshold))
  }

  lemma BitmapSize(c: Protocol.Config, threshold: Byte, images: seq<seq<Byte>>)
    requires RecordsBinary(c)
    ensures c.width > 0
    ensures forall i :: 0 <= i < |images| ==> |Bitmaps(c, threshold, images)[i]| == PackedBytes(c.width, c.height)
  {
    PackedBytesBound(c.width, c.height);
  }

  /** The records of a session that has written these images. */
  function SessionRecords(z: Zlib, c: Protocol.Config, threshold: Byte, written: seq<seq<Byte>>): seq<Choice>
    requires RecordsBinary(c)
  {
    BitmapSize(c, threshold, written);
    RecordsOf(z, Bitmaps(c, threshold, written), PackedBytes(c.width, c.height))
  }

  /** The player lists entry `k` of the file as number `k + 1`, where the report says, with this copied frame. */
  ghost predicate Lists(
      z: Zlib, c: Protocol.Config, threshold: Byte, file: seq<Byte>, count: nat, path: string, k: nat, report: Report,
      image: seq<Byte>)
    requires c.width > 0
  {
    Shows(z, file, c.width, c.height, count, path, k, report, PackFrame(image, c.width, c.height, threshold))
  }

  /** What the player lists as frame `k` carries the number `k + 1`, and its pixel at (x, y) is white exactly if the
      camera's pixel there reached the threshold. */
  ghost predicate ShowsCamera(
      z: Zlib, c: Protocol.Config, threshold: Byte, file: seq<Byte>, path: string, k: nat, v: Protocol.FrameView,
      x: nat, y: nat)
    requires c.width > 0
  {
    var index := IndexOf(file);
    && index.Indexed? && k < |index.outcome.entries|
    && var e := index.outcome.entries[k];
    && e.index == k + 1 && e.keyOffset >= 0 && e.decodeOffset >= 0 && 0 <= y * v.stride + x < |v.luma|
    && var shown := Fetch(z, file, FrameOf(path, c.width, c.height, e));
    && shown.Some? && y * RowBytes(c.width) + x / 8 < |shown.value|
    && (White(shown.value, c.width, x, y) <==> v.luma[y * v.stride + x] >= threshold)
  }

  /** At the end of any run, with or without a piece of one more record at the end of the file: the player lists
      exactly the written frames, frame `k` is the one admitted as number `k + 1`, and a pixel of it is white exactly
      if the camera's pixel there reached the threshold. */
  lemma SessionIsListed(
      z: Zlib, c: Protocol.Config, threshold: Byte, events: seq<Protocol.Event>, reports: seq<Report>,
      tail: seq<Byte>, path: string, k: nat, x: nat, y: nat)
    requires Lawful(z) && RecordsBinary(c) && Protocol.Run(c, events).Some? && Torn(tail)
    requires var s := Protocol.Run(c, events).value;
             k < |s.written| && Reported(Parts(SessionRecords(z, c, threshold, s.written)), reports)
    requires x < c.width && y < c.height
    ensures var s := Protocol.Run(c, events).value;
            var file := FileOf(c.width, c.height, SessionRecords(z, c, threshold, s.written), tail);
            && k < |reports| && k < |s.admitted| && Protocol.Admissible(c, s.admitted[k])
            && Lists(z, c, threshold, file, |s.written|, path, k, reports[k], s.written[k])
            && ShowsCamera(z, c, threshold, file, path, k, s.admitted[k].view.value, x, y)
  {
    Protocol.FileHoldsAdmitted(c, events);
    var s := Protocol.Run(c, events).value;
    WrittenIsListed(z, c, threshold, s.written, reports, tail, path, k);
    var file := FileOf(c.width, c.height, SessionRecords(z, c, threshold, s.written), tail);
    ListedShowsCamera(z, c, threshold, file, |s.written|, path, k, reports[k], s.admitted[k].view.value, x, y);
  }

  lemma ListedShowsCamera(
      z: Zlib, c: Protocol.Config, threshold: Byte, file: seq<Byte>, count: nat, path: string, k: nat,
      report: Report, v: Protocol.FrameView, x: nat, y: nat)
    requires c.width > 0 && x < c.width && y < c.height && Protocol.ValidView(c, v)
    requires Lists(z, c, threshold, file, count, path, k, report, Protocol.ImageOf(c, v))
    ensures ShowsCamera(z, c, threshold, file, path, k, v, x, y)
  {
    Protocol.CopiedPixel(c, v, x, y);
    PackedPixel(Protocol.ImageOf(c, v), c.width, c.height, threshold, x, y);
  }

  lemma WrittenIsListed(
      z: Zlib, c: Protocol.Config, threshold: Byte, written: seq<seq<Byte>>, reports: seq<Report>, tail: seq<Byte>,
      path: string, k: nat)
    requires Lawful(z) && RecordsBinary(c) && Torn(tail) && k < |written|
    requires Reported(Parts(SessionRecords(z, c, threshold, written)), reports)
    ensures k < |reports|
    ensures Lists(z, c, threshold, FileOf(c.width, c.height, SessionRecords(z, c, threshold, written), tail),
                  |written|, path, k, reports[k], written[k])
  {
    BitmapSize(c, threshold, written);
    PlayerFinds(z, c.width, c.height, Bitmaps(c, threshold, written), reports, tail, path, k);
  }

  /** While the worker writes a frame, the number it carries in the queue is the one the player will list it under. */
  lemma QueueNumberIsListed(
      z: Zlib, c: Protocol.Config, threshold: Byte, events: seq<Protocol.Event>, reports: seq<Report>,
      tail: seq<Byte>, path: string)
    requires Lawful(z) && RecordsBinary(c) && Protocol.Run(c, events).Some? && Torn(tail)
    requires var s := Protocol.Run(c, events).value;
             && s.worker == Protocol.Reading && !s.writeFailed && s.queue != []
             && Reported(Parts(SessionRecords(z, c, threshold, s.written + [s.queue[0].image])), reports)
    ensures var s := Protocol.Run(c, events).value;
            var n, image := |s.written|, s.queue[0].image;
            var file := FileOf(c.width, c.height, SessionRecords(z, c, threshold, s.written + [image]), tail);
            && n < |reports| && Lists(z, c, threshold, file, n + 1, path, n, reports[n], image)
            && IndexOf(file).outcome.entries[n].index == s.queue[0].index
  {
    var s := Protocol.Run(c, events).value;
    Protocol.WriterSeesNextFrame(c, events, 0);
    WrittenIsListed(z, c, threshold, s.written + [s.queue[0].image], reports, tail, path, |s.written|);
  }
}
