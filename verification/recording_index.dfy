/** The player's view of a DBV1 file: one pass that lists every complete record with the offsets a seek needs,
    tolerating a torn last record, and what those offsets are for any well-formed recording. */
module RecordingIndex {
  import opened BinaryCodec
  import opened BinaryFormat
  import opened Bytes
  import opened Slices

  datatype Entry = Entry(index: nat, fileOffset: nat, fileBytes: nat, keyOffset: int, decodeOffset: int)

  datatype Status = Complete | Truncated | Malformed

  datatype Outcome = Outcome(entries: seq<Entry>, status: Status)

  /** At most five bytes from `pos` on, without moving. */
  function Peek(data: seq<Byte>, pos: nat): seq<Byte>
    requires pos <= |data|
  {
    if |data| - pos < 5 then data[pos..] else data[pos..pos + 5]
  }

  lemma PeekSize(data: seq<Byte>, pos: nat)
    requires pos <= |data|
    ensures Parse(Peek(data, pos)).Value? ==> 1 <= Parse(Peek(data, pos)).size <= |data| - pos
  {
    ParseSize(Peek(data, pos));
  }

  /** Five bytes are enough to read any prefix. */
  lemma PeekParses(data: seq<Byte>, pos: nat)
    requires pos <= |data|
    ensures Parse(Peek(data, pos)) == Parse(data[pos..])
  {
    var p, q := Peek(data, pos), data[pos..];
    ParseIncomplete(p);
    ParseIncomplete(q);
    assert p <= q;
    if Parse(p).Value? {
      ParseExact(p, Parse(p).value, Parse(p).size);
      ParseExact(q, Parse(p).value, Parse(p).size);
    }
    if Parse(q).Value? {
      var v := Parse(q).value;
      ParseExact(q, v, Parse(q).size);
      LebLength(v);
      assert Leb(v) <= p;
      ParseExact(p, v, Parse(q).size);
    }
  }

  predicate Whole(code: nat) { code % 4 == RAW || code % 4 == FULL }

  function FileOffset(pos: nat): nat { if pos == HEADER_BYTES then 0 else pos }

  /** The entry for a record at `pos`, whose payload ends at `end`. */
  function EntryFor(pos: nat, end: nat, index: nat, key: int, changed: int): Entry
    requires pos <= end
  {
    Entry(index, FileOffset(pos), end - FileOffset(pos), key, changed)
  }

  datatype Step = Stop(status: Status) | Take(code: nat, end: nat)

  /** Looks at the record at `pos`: torn or bad, or a code and the end of its payload. */
  function NextRecord(data: seq<Byte>, packed: nat, pos: nat, previous: bool): (s: Step)
    requires pos < |data|
    ensures s.Take? ==> pos < s.end <= |data|
  {
    PeekSize(data, pos);
    match Parse(Peek(data, pos))
    case Incomplete => Stop(Truncated)
    case Invalid => Stop(Malformed)
    case Value(code, n) =>
      if code / 4 > |data| - (pos + n) then Stop(Truncated)
      else if !Valid(code, packed, previous) then Stop(Malformed)
      else Take(code, pos + n + code / 4)
  }

  /** Lists the records from `pos` on. */
  function IndexFrom(data: seq<Byte>, packed: nat, pos: nat, index: nat, key: int, changed: int): Outcome
    requires pos <= |data|
    decreases |data| - pos
  {
    if pos == |data| then Outcome([], Complete)
    else
      match NextRecord(data, packed, pos, key >= 0)
      case Stop(status) => Outcome([], status)
      case Take(code, end) => Listed(pos, code, end, index, key, changed,
                                     IndexFrom(data, packed, end, index + 1, KeyAfter(code, pos, key),
                                               ChangedAfter(code, pos, changed)))
  }

  function KeyAfter(code: nat, pos: nat, key: int): int { if Whole(code) then pos else key }

  function ChangedAfter(code: nat, pos: nat, changed: int): int { if code != 0 then pos else changed }

  function Listed(pos: nat, code: nat, end: nat, index: nat, key: int, changed: int, rest: Outcome): Outcome
    requires pos <= end
  {
    Outcome([EntryFor(pos, end, index, KeyAfter(code, pos, key), ChangedAfter(code, pos, changed))] + rest.entries,
            rest.status)
  }

  datatype Index = IncompleteHeader | BadHeader | Indexed(width: nat, height: nat, outcome: Outcome)

  function IndexOf(data: seq<Byte>): Index {
    if |data| < HEADER_BYTES then IncompleteHeader
    else
      match Geometry(data[..HEADER_BYTES])
      case None => BadHeader
      case Some(g) => Indexed(g.0, g.1, IndexFrom(data, PackedBytes(g.0, g.1), HEADER_BYTES, 1, -1, -1))
  }

  /** The player's loop over the file. */
  method AppendBinary(data: seq<Byte>) returns (index: Index)
    ensures index == IndexOf(data)
  {
    if |data| < HEADER_BYTES {
      return IncompleteHeader;
    }
    var geometry := Geometry(data[..HEADER_BYTES]);
    if geometry.None? {
      return BadHeader;
    }
    var packed := PackedBytes(geometry.value.0, geometry.value.1);
    var entries: seq<Entry> := [];
    var pos: nat, next: nat := HEADER_BYTES, 1;
    var key: int, changed: int := -1, -1;
    ghost var all := IndexFrom(data, packed, pos, next, key, changed);
    ghost var rest := all;
    while pos < |data|
      invariant pos <= |data|
      invariant rest == IndexFrom(data, packed, pos, next, key, changed)
      invariant all.entries == entries + rest.entries && all.status == rest.status
      decreases |data| - pos
    {
      var step := ReadRecordHeader(data, packed, pos, key >= 0);
      if step.Stop? {
        return Indexed(geometry.value.0, geometry.value.1, Outcome(entries, step.status));
      }
      key, changed := KeyAfter(step.code, pos, key), ChangedAfter(step.code, pos, changed);
      entries := entries + [EntryFor(pos, step.end, next, key, changed)];
      pos, next := step.end, next + 1;
      rest := IndexFrom(data, packed, pos, next, key, changed);
    }
    index := Indexed(geometry.value.0, geometry.value.1, Outcome(entries, Complete));
  }

  method ReadRecordHeader(data: seq<Byte>, packed: nat, pos: nat, previous: bool) returns (step: Step)
    requires pos < |data|
    ensures step == NextRecord(data, packed, pos, previous)
  {
    PeekSize(data, pos);
    var prefix := ReadPrefix(Peek(data, pos));
    if prefix.Incomplete? || (prefix.Value? && prefix.value / 4 > |data| - (pos + prefix.size)) {
      return Stop(Truncated);
    }
    if prefix.Invalid? || !Valid(prefix.value, packed, previous) {
      return Stop(Malformed);
    }
    step := Take(prefix.value, pos + prefix.size + prefix.value / 4);
  }

  // ---- well-formed recordings ---------------------------------------------------------------------

  /** A record's prefix parses at its own offset, and its payload follows it up to `end`. */
  ghost predicate ReadsAt(data: seq<Byte>, pos: nat, end: nat, c: Choice) {
    var n := |Leb(c.Code())|;
    && pos < pos + n <= pos + n + |c.payload| == end <= |data|
    && Parse(Peek(data, pos)) == Value(c.Code(), n)
    && data[pos + n..end] == c.payload
  }

  /** `records` lie one after the other between consecutive offsets. */
  ghost predicate Tiled(data: seq<Byte>, records: seq<Choice>, off: seq<nat>) {
    && |off| == |records| + 1 && (forall k :: 0 <= k < |off| ==> off[k] <= |data|)
    && forall k :: 0 <= k < |records| ==> off[k] < off[k + 1] && ReadsAt(data, off[k], off[k + 1], records[k])
  }

  predicate InFormat(records: seq<Choice>) {
    forall k :: 0 <= k < |records| ==> records[k].kind < 4 && records[k].Code() < TWO_32
  }

  function Parts(records: seq<Choice>): (parts: seq<seq<Byte>>)
    ensures |parts| == |records|
    ensures forall i :: 0 <= i < |parts| ==> parts[i] == records[i].Record()
  {
    seq(|records|, i requires 0 <= i < |records| => records[i].Record())
  }

  /** A DBV1 file: header, whole records, and whatever follows them. */
  function FileOf(width: nat, height: nat, records: seq<Choice>, tail: seq<Byte>): seq<Byte>
    requires width < TWO_32 && height < TWO_32
  {
    Header(width, height) + Concat(Parts(records), |records|) + tail
  }

  /** Where each record starts; the last entry is where the last record ends. */
  function Offsets(parts: seq<seq<Byte>>): (off: seq<nat>)
    ensures |off| == |parts| + 1 && off[0] == HEADER_BYTES
  {
    seq(|parts| + 1, k requires 0 <= k <= |parts| => HEADER_BYTES + |Concat(parts, k)|)
  }

  lemma FileIsTiled(width: nat, height: nat, records: seq<Choice>, tail: seq<Byte>)
    requires width < TWO_32 && height < TWO_32 && InFormat(records)
    ensures Tiled(FileOf(width, height, records, tail), records, Offsets(Parts(records)))
    ensures FileOf(width, height, records, tail)[Offsets(Parts(records))[|records|]..] == tail
  {
    var data, parts := FileOf(width, height, records, tail), Parts(records);
    forall k | 0 <= k < |records|
      ensures Offsets(parts)[k] < Offsets(parts)[k + 1]
      ensures ReadsAt(data, Offsets(parts)[k], Offsets(parts)[k + 1], records[k])
    {
      OffsetsStep(parts, k);
      PartReads(data, Header(width, height), parts, tail, k, records[k]);
    }
    forall k | 0 <= k <= |records|
      ensures Offsets(parts)[k] <= |data|
    {
      ConcatPrefix(parts, k, |parts|);
    }
  }

  lemma OffsetsStep(parts: seq<seq<Byte>>, k: nat)
    requires k < |parts|
    ensures Offsets(parts)[k] == HEADER_BYTES + |Concat(parts, k)|
    ensures Offsets(parts)[k + 1] == HEADER_BYTES + |Concat(parts, k)| + |parts[k]|
  {
  }

  lemma PartReads(data: seq<Byte>, head: seq<Byte>, parts: seq<seq<Byte>>, tail: seq<Byte>, k: nat, c: Choice)
    requires data == head + Concat(parts, |parts|) + tail && k < |parts| && parts[k] == c.Record()
    requires c.kind < 4 && c.Code() < TWO_32
    ensures ReadsAt(data, |head| + |Concat(parts, k)|, |head| + |Concat(parts, k)| + |parts[k]|, c)
  {
    PartAt(head, parts, tail, k);
    RecordReads(data, |head| + |Concat(parts, k)|, parts[k], c);
  }

  lemma RecordReads(data: seq<Byte>, pos: nat, record: seq<Byte>, c: Choice)
    requires c.kind < 4 && c.Code() < TWO_32 && record == c.Record() && StandsAt(data, pos, record)
    ensures ReadsAt(data, pos, pos + |record|, c)
  {
    var prefix, rest := Leb(c.Code()), data[pos + |record|..];
    PeekParses(data, pos);
    assert data[pos..] == record + rest == prefix + (c.payload + rest);
    PrefixRoundTrip(c.Code(), c.payload + rest);
    assert data[pos + |prefix|..pos + |record|] == record[|prefix|..] == c.payload;
  }

  // ---- what the index says ------------------------------------------------------------------------

  /** The last record up to `k` that needs no earlier one, or -1. */
  function LastWhole(records: seq<Choice>, k: int): (j: int)
    requires -1 <= k < |records|
    ensures -1 <= j <= k && (j >= 0 ==> Whole(records[j].Code()))
    ensures forall i :: j < i <= k ==> !Whole(records[i].Code())
    decreases k + 1
  {
    if k < 0 then -1 else if Whole(records[k].Code()) then k else LastWhole(records, k - 1)
  }

  /** The last record up to `k` that is not an empty repeat, or -1. */
  function LastChanged(records: seq<Choice>, k: int): (j: int)
    requires -1 <= k < |records|
    ensures -1 <= j <= k && (j >= 0 ==> records[j].Code() != 0)
    ensures forall i :: j < i <= k ==> records[i].Code() == 0
    decreases k + 1
  {
    if k < 0 then -1 else if records[k].Code() != 0 then k else LastChanged(records, k - 1)
  }

  function OffsetOr(off: seq<nat>, j: int): int
    requires -1 <= j < |off|
  {
    if j < 0 then -1 else off[j]
  }

  /** Every header is one the format accepts at its place. */
  ghost predicate WellFormed(records: seq<Choice>, packed: nat) {
    && InFormat(records)
    && forall k :: 0 <= k < |records| ==> Valid(records[k].Code(), packed, LastWhole(records, k - 1) >= 0)
  }

  /** The entry of record `k`: its number, its bytes, the nearest whole image at or before it, and the last
      record at or before it that changed anything. */
  function EntryOf(records: seq<Choice>, off: seq<nat>, k: nat): Entry
    requires |off| == |records| + 1 && k < |records| && off[k] < off[k + 1]
  {
    EntryFor(off[k], off[k + 1], k + 1, OffsetOr(off, LastWhole(records, k)), OffsetOr(off, LastChanged(records, k)))
  }

  ghost function EntryFn(records: seq<Choice>, off: seq<nat>): int -> Entry {
    (k: int) => if |off| == |records| + 1 && 0 <= k < |records| && off[k] < off[k + 1] then EntryOf(records, off, k)
                else Entry(0, 0, 0, 0, 0)
  }

  ghost function Entries(records: seq<Choice>, off: seq<nat>): (entries: seq<Entry>)
    requires |off| == |records| + 1
    requires forall k :: 0 <= k < |records| ==> off[k] < off[k + 1]
    ensures |entries| == |records|
    ensures forall k :: 0 <= k < |records| ==> entries[k] == EntryOf(records, off, k)
  {
    Tabulate(EntryFn(records, off), |records|)
  }

  ghost function Tabulate(entry: int -> Entry, n: nat): (entries: seq<Entry>)
    ensures |entries| == n && forall k :: 0 <= k < n ==> entries[k] == entry(k)
  {
    seq(n, k => entry(k))
  }

  /** A listing that produces one entry per step produces them all. */
  lemma {:induction false} Listing(at: int -> Outcome, entry: int -> Entry, n: nat, k: nat)
    requires k <= n
    requires forall i :: k <= i < n ==> at(i) == Outcome([entry(i)] + at(i + 1).entries, at(i + 1).status)
    ensures at(k) == Outcome(Tabulate(entry, n)[k..] + at(n).entries, at(n).status)
    decreases n - k
  {
    if k < n {
      Listing(at, entry, n, k + 1);
      assert Tabulate(entry, n)[k..] == [entry(k)] + Tabulate(entry, n)[k + 1..];
    }
  }

  lemma TakesRecord(data: seq<Byte>, packed: nat, pos: nat, end: nat, c: Choice, previous: bool)
    requires ReadsAt(data, pos, end, c) && c.kind < 4 && Valid(c.Code(), packed, previous)
    ensures NextRecord(data, packed, pos, previous) == Take(c.Code(), end)
  {
    CodeParts(c);
  }

  /** The index run at the point where it has listed `k` records. */
  function IndexAt(data: seq<Byte>, packed: nat, records: seq<Choice>, off: seq<nat>, k: nat): Outcome
    requires |off| == |records| + 1 && k <= |records| && off[k] <= |data|
  {
    IndexFrom(data, packed, off[k], k + 1, OffsetOr(off, LastWhole(records, k - 1)),
              OffsetOr(off, LastChanged(records, k - 1)))
  }

  lemma IndexAtStep(data: seq<Byte>, packed: nat, records: seq<Choice>, off: seq<nat>, k: nat)
    requires |off| == |records| + 1 && k < |records| && off[k] < off[k + 1] <= |data|
    requires ReadsAt(data, off[k], off[k + 1], records[k]) && records[k].kind < 4
    requires Valid(records[k].Code(), packed, LastWhole(records, k - 1) >= 0)
    ensures var rest := IndexAt(data, packed, records, off, k + 1);
            IndexAt(data, packed, records, off, k) == Outcome([EntryOf(records, off, k)] + rest.entries, rest.status)
  {
    TakesRecord(data, packed, off[k], off[k + 1], records[k], LastWhole(records, k - 1) >= 0);
  }

  ghost function IndexFn(data: seq<Byte>, packed: nat, records: seq<Choice>, off: seq<nat>): int -> Outcome {
    (k: int) => if |off| == |records| + 1 && 0 <= k <= |records| && off[k] <= |data|
                then IndexAt(data, packed, records, off, k) else Outcome([], Complete)
  }

  lemma IndexFnStep(data: seq<Byte>, packed: nat, records: seq<Choice>, off: seq<nat>, i: nat)
    requires Tiled(data, records, off) && WellFormed(records, packed) && i < |records|
    ensures var at := IndexFn(data, packed, records, off);
            at(i) == Outcome([EntryFn(records, off)(i)] + at(i + 1).entries, at(i + 1).status)
  {
    IndexAtStep(data, packed, records, off, i);
  }

  /** The index lists every record, then does what it does at the end of the last one. */
  lemma IndexLists(data: seq<Byte>, packed: nat, records: seq<Choice>, off: seq<nat>)
    requires Tiled(data, records, off) && WellFormed(records, packed)
    ensures var at := IndexFn(data, packed, records, off);
            at(0) == Outcome(Entries(records, off) + at(|records|).entries, at(|records|).status)
  {
    var at, entry := IndexFn(data, packed, records, off), EntryFn(records, off);
    forall i | 0 <= i < |records|
      ensures at(i) == Outcome([entry(i)] + at(i + 1).entries, at(i + 1).status)
    {
      IndexFnStep(data, packed, records, off, i);
    }
    Listing(at, entry, |records|, 0);
    assert Tabulate(entry, |records|)[0..] == Entries(records, off);
  }

  /** The file ends after its last whole record, or in the middle of one more. */
  ghost predicate Torn(tail: seq<Byte>) {
    tail == [] || exists c: Choice :: c.kind < 4 && c.Code() < TWO_32 && tail < c.Record()
  }

  lemma TornStops(data: seq<Byte>, packed: nat, pos: nat, c: Choice, previous: bool)
    requires pos < |data| && data[pos..] < c.Record() && c.kind < 4 && c.Code() < TWO_32
    ensures NextRecord(data, packed, pos, previous) == Stop(Truncated)
  {
    var tail, prefix := data[pos..], Leb(c.Code());
    CodeParts(c);
    LebLength(c.Code());
    PeekParses(data, pos);
    if |tail| < |prefix| {
      forall k | 0 <= k < |tail|
        ensures tail[k] >= 128
      {
        LebContinues(c.Code(), k);
        assert tail[k] == c.Record()[k];
      }
      ParseIncomplete(tail);
    } else {
      assert tail == prefix + tail[|prefix|..];
      PrefixRoundTrip(c.Code(), tail[|prefix|..]);
    }
  }

  /** The index of any well-formed recording, torn at the end or not: exactly its whole records, numbered
      from one, tiling the file, each with its nearest whole image and its last change. */
  lemma IndexOfRecording(width: nat, height: nat, records: seq<Choice>, tail: seq<Byte>)
    requires width < TWO_32 && height < TWO_32 && PackedBytes(width, height) != 0
    requires WellFormed(records, PackedBytes(width, height)) && Torn(tail)
    ensures var off := Offsets(Parts(records));
            && Tiled(FileOf(width, height, records, tail), records, off)
            && IndexOf(FileOf(width, height, records, tail))
               == Indexed(width, height, Outcome(Entries(records, off), if tail == [] then Complete else Truncated))
  {
    FileIsTiled(width, height, records, tail);
    HeaderOfFile(width, height, records, tail);
    IndexOfTiled(FileOf(width, height, records, tail), width, height, records, Offsets(Parts(records)), tail);
  }

  lemma IndexOfTiled(
      data: seq<Byte>, width: nat, height: nat, records: seq<Choice>, off: seq<nat>, tail: seq<Byte>)
    requires |data| >= HEADER_BYTES && Geometry(data[..HEADER_BYTES]) == Some((width, height))
    requires Tiled(data, records, off) && WellFormed(records, PackedBytes(width, height))
    requires off[0] == HEADER_BYTES && data[off[|records|]..] == tail && Torn(tail)
    ensures IndexOf(data)
         == Indexed(width, height, Outcome(Entries(records, off), if tail == [] then Complete else Truncated))
  {
    IndexFromTiled(data, PackedBytes(width, height), records, off, tail);
  }

  lemma IndexFromTiled(data: seq<Byte>, packed: nat, records: seq<Choice>, off: seq<nat>, tail: seq<Byte>)
    requires Tiled(data, records, off) && WellFormed(records, packed)
    requires off[0] == HEADER_BYTES && data[off[|records|]..] == tail && Torn(tail)
    ensures IndexFrom(data, packed, HEADER_BYTES, 1, -1, -1)
         == Outcome(Entries(records, off), if tail == [] then Complete else Truncated)
  {
    IndexAtLists(data, packed, records, off);
    AfterLastRecord(data, packed, records, off, tail);
    assert IndexAt(data, packed, records, off, 0) == IndexFrom(data, packed, HEADER_BYTES, 1, -1, -1);
  }

  lemma IndexAtLists(data: seq<Byte>, packed: nat, records: seq<Choice>, off: seq<nat>)
    requires Tiled(data, records, off) && WellFormed(records, packed)
    ensures off[0] <= |data| && off[|records|] <= |data|
    ensures var rest := IndexAt(data, packed, records, off, |records|);
            IndexAt(data, packed, records, off, 0) == Outcome(Entries(records, off) + rest.entries, rest.status)
  {
    IndexLists(data, packed, records, off);
  }

  lemma HeaderOfFile(width: nat, height: nat, records: seq<Choice>, tail: seq<Byte>)
    requires width < TWO_32 && height < TWO_32 && PackedBytes(width, height) != 0
    ensures |FileOf(width, height, records, tail)| >= HEADER_BYTES
    ensures Geometry(FileOf(width, height, records, tail)[..HEADER_BYTES]) == Some((width, height))
  {
    HeaderReadsBack(width, height);
    assert FileOf(width, height, records, tail)[..HEADER_BYTES] == Header(width, height);
  }

  lemma AfterLastRecord(data: seq<Byte>, packed: nat, records: seq<Choice>, off: seq<nat>, tail: seq<Byte>)
    requires |off| == |records| + 1 && Torn(tail)
    requires off[|records|] <= |data| && data[off[|records|]..] == tail
    ensures IndexAt(data, packed, records, off, |records|)
         == Outcome([], if tail == [] then Complete else Truncated)
  {
    if tail != [] {
      var c: Choice :| c.kind < 4 && c.Code() < TWO_32 && tail < c.Record();
      TornStops(data, packed, off[|records|], c, LastWhole(records, |records| - 1) >= 0);
    }
  }
}
