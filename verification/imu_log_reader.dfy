/** The host side of the IMU log: which lines it accepts, and the timeline it puts records on. */
module ImuLogReader {
  import opened Bytes

  const TWO_64: nat := 0x1_0000_0000_0000_0000
  const SECOND: nat := 1000000000
  const LAST_SECOND: nat := 0x7FFF_FFFF

  /** The integer columns of a row; the others only have to be numbers. */
  datatype Row = Row(
    known: bool, sequence: int, recorded: int, timestamp: int, generation: int, qualityEvents: int,
    accepted: int, integrated: int, hasReference: int, commandAccepted: int, commandEvents: int, dropped: int,
    raw: seq<int>, sampleFlags: int)

  /** One line of a log. A line that was cut short is none of the others. */
  datatype Line = Meta(version: int) | Header(complete: bool) | Entry(row: Row) | Comment | Broken

  datatype Record = Record(session: nat, row: Row)

  predicate IsBoolean(x: int) { x == 0 || x == 1 }

  predicate IsCounter(x: int) { 0 <= x < TWO_64 }

  /** A row with sensible values, whatever came before it. */
  predicate InRange(r: Row) {
    && r.known
    && IsBoolean(r.accepted) && IsBoolean(r.integrated) && IsBoolean(r.hasReference) && IsBoolean(r.commandAccepted)
    && r.sequence < TWO_64 && 0 < r.recorded < TWO_64
    && IsCounter(r.timestamp) && IsCounter(r.generation) && IsCounter(r.dropped)
    && r.qualityEvents >= 0 && r.commandEvents >= 0 && r.sampleFlags >= 0
    && forall i :: 0 <= i < |r.raw| ==> -32768 <= r.raw[i] <= 32767
  }

  datatype Reader = Reader(session: nat, header: bool, waiting: bool, lastSequence: int, lastRecorded: int)

  predicate Accepts(s: Reader, r: Row) {
    s.header && InRange(r) && r.sequence > s.lastSequence && r.recorded >= s.lastRecorded
  }

  /** Before the first line of a file, after `session` sessions of earlier files. */
  function Fresh(session: nat): Reader { Reader(session, false, false, 0, 0) }

  /** A row that comes out as a record. */
  predicate Taken(s: Reader, line: Line) { line.Entry? && Accepts(s, line.row) }

  /** The state after a line, if reading goes on. `skip` makes unacceptable rows be passed over. */
  function Next(s: Reader, line: Line, skip: bool): Option<Reader> {
    match line
    case Meta(version) => if version == 1 then Some(Reader(s.session + 1, false, true, 0, 0)) else None
    case Comment => Some(s)
    case Header(complete) =>
      if !complete then None
      else if s.waiting then Some(s.(header := true, waiting := false))
      else Some(Reader(s.session + 1, true, false, 0, 0))
    case Entry(row) =>
      if Accepts(s, row) then Some(s.(lastSequence := row.sequence, lastRecorded := row.recorded))
      else if skip then Some(s) else None
    case Broken => if skip then Some(s) else None
  }

  function Yield(s: Reader, line: Line): seq<Record> {
    if Taken(s, line) then [Record(s.session, line.row)] else []
  }

  /** What a file gives: its records, and the number of its last session. */
  datatype Read = Read(records: seq<Record>, session: nat)

  /** All records of a file, or nothing if any line stops the reading. */
  function Records(s: Reader, lines: seq<Line>, skip: bool): Option<Read>
    decreases |lines|
  {
    if lines == [] then if s.waiting then None else Some(Read([], s.session))
    else
      match Next(s, lines[0], skip)
      case None => None
      case Some(t) => Prepend(Yield(s, lines[0]), Records(t, lines[1..], skip))
  }

  function Prepend(first: seq<Record>, rest: Option<Read>): Option<Read> {
    match rest
    case None => None
    case Some(more) => Some(Read(first + more.records, more.session))
  }

  lemma RecordsOneMore(s: Reader, line: Line, rest: seq<Line>, skip: bool)
    ensures Records(s, [line] + rest, skip)
         == match Next(s, line, skip)
            case None => None
            case Some(t) => Prepend(Yield(s, line), Records(t, rest, skip))
  {
    assert ([line] + rest)[1..] == rest;
  }

  lemma PrependNothing(rest: Option<Read>)
    ensures Prepend([], rest) == rest
  {
    if rest.Some? {
      assert [] + rest.value.records == rest.value.records;
    }
  }

  lemma PrependTwice(a: seq<Record>, b: seq<Record>, rest: Option<Read>)
    ensures Prepend(a, Prepend(b, rest)) == Prepend(a + b, rest)
  {
    if rest.Some? {
      assert a + (b + rest.value.records) == a + b + rest.value.records;
    }
  }

  /** The converter's loop over the lines of a file. */
  method ReadFile(session: nat, lines: seq<Line>, skip: bool) returns (read: Option<Read>)
    ensures read == Records(Fresh(session), lines, skip)
  {
    var s, i := Fresh(session), 0;
    var records: seq<Record> := [];
    assert lines[0..] == lines;
    PrependNothing(Records(s, lines, skip));
    while i < |lines|
      invariant 0 <= i <= |lines|
      invariant Records(Fresh(session), lines, skip) == Prepend(records, Records(s, lines[i..], skip))
    {
      var next := Next(s, lines[i], skip);
      assert lines[i..] == [lines[i]] + lines[i + 1..];
      RecordsOneMore(s, lines[i], lines[i + 1..], skip);
      if next.None? {
        return None;
      }
      PrependTwice(records, Yield(s, lines[i]), Records(next.value, lines[i + 1..], skip));
      records := records + Yield(s, lines[i]);
      s := next.value;
      i := i + 1;
    }
    assert lines[i..] == [] && records + [] == records;
    read := if s.waiting then None else Some(Read(records, s.session));
  }

  /** All files one after the other; sessions are counted on. */
  function Files(session: nat, files: seq<seq<Line>>, skip: bool): Option<Read>
    decreases |files|
  {
    if files == [] then Some(Read([], session))
    else
      match Records(Fresh(session), files[0], skip)
      case None => None
      case Some(read) => Prepend(read.records, Files(read.session, files[1..], skip))
  }

  method ReadRecords(files: seq<seq<Line>>, skip: bool) returns (read: Option<Read>)
    ensures read == Files(0, files, skip)
  {
    var session, i: nat := 0, 0;
    var records: seq<Record> := [];
    assert files[0..] == files;
    PrependNothing(Files(0, files, skip));
    while i < |files|
      invariant i <= |files|
      invariant Files(0, files, skip) == Prepend(records, Files(session, files[i..], skip))
    {
      var file := ReadFile(session, files[i], skip);
      assert files[i..][1..] == files[i + 1..];
      if file.None? {
        return None;
      }
      PrependTwice(records, file.value.records, Files(file.value.session, files[i + 1..], skip));
      records, session := records + file.value.records, file.value.session;
      i := i + 1;
    }
    assert files[i..] == [] && records + [] == records;
    read := Some(Read(records, session));
  }

  // ---- what comes out ------------------------------------------------------------------------------

  /** One record may come after the other: in a later session, or further on in the same one. */
  predicate Later(a: Record, b: Record) {
    a.session < b.session
    || (a.session == b.session && a.row.sequence < b.row.sequence && a.row.recorded <= b.row.recorded)
  }

  predicate InOrder(records: seq<Record>) {
    && (forall i :: 0 <= i < |records| ==> InRange(records[i].row))
    && forall i, j :: 0 <= i < j < |records| ==> Later(records[i], records[j])
  }

  /** A record can still come at state `s`. */
  predicate Ahead(s: Reader, r: Record) {
    || r.session > s.session
    || (r.session == s.session && (s.header || s.waiting)
        && s.lastSequence < r.row.sequence && s.lastRecorded <= r.row.recorded)
  }

  /** Nothing has been read before the header. */
  predicate Proper(s: Reader) {
    (s.waiting ==> !s.header) && (!s.header ==> s.lastSequence == s.lastRecorded == 0)
  }

  lemma NextIsProper(s: Reader, line: Line, skip: bool)
    requires Proper(s) && Next(s, line, skip).Some?
    ensures Proper(Next(s, line, skip).value) && s.session <= Next(s, line, skip).value.session
  {
  }

  /** What can come after a line could come before it, and comes after the record of the line. */
  lemma AheadOfLine(s: Reader, line: Line, skip: bool, r: Record)
    requires Next(s, line, skip).Some? && Ahead(Next(s, line, skip).value, r)
    requires Proper(s)
    ensures Ahead(s, r)
    ensures Taken(s, line) ==> Later(Record(s.session, line.row), r)
  {
  }

  lemma {:induction false} InOrderMore(first: Record, records: seq<Record>)
    requires InRange(first.row) && InOrder(records) && forall i :: 0 <= i < |records| ==> Later(first, records[i])
    ensures InOrder([first] + records)
  {
  }

  /** Whatever the lines of a file are, and whether bad rows are passed over or not: what comes out is in range and in
      order, and in sessions after those of earlier files. */
  lemma {:induction false} FileInOrder(s: Reader, lines: seq<Line>, skip: bool)
    requires Records(s, lines, skip).Some?
    requires Proper(s)
    ensures var read := Records(s, lines, skip).value;
            && InOrder(read.records) && s.session <= read.session
            && forall i :: 0 <= i < |read.records| ==>
                 Ahead(s, read.records[i]) && read.records[i].session <= read.session
    decreases |lines|
  {
    if lines != [] {
      var t := Next(s, lines[0], skip).value;
      NextIsProper(s, lines[0], skip);
      FileInOrder(t, lines[1..], skip);
      var rest := Records(t, lines[1..], skip).value.records;
      forall i | 0 <= i < |rest|
        ensures Ahead(s, rest[i]) && (Taken(s, lines[0]) ==> Later(Record(s.session, lines[0].row), rest[i]))
      {
        AheadOfLine(s, lines[0], skip, rest[i]);
      }
      if Taken(s, lines[0]) {
        InOrderMore(Record(s.session, lines[0].row), rest);
      } else {
        assert [] + rest == rest;
      }
    }
  }

  lemma {:induction false} FilesInOrder(session: nat, files: seq<seq<Line>>, skip: bool)
    requires Files(session, files, skip).Some?
    ensures var read := Files(session, files, skip).value;
            && InOrder(read.records) && session <= read.session
            && forall i :: 0 <= i < |read.records| ==> session < read.records[i].session <= read.session
    decreases |files|
  {
    if files != [] {
      FileInOrder(Fresh(session), files[0], skip);
      FilesInOrder(Records(Fresh(session), files[0], skip).value.session, files[1..], skip);
    }
  }

  /** Sequence numbers rise, processing times do not fall. */
  predicate Ordered(rows: seq<Row>) {
    && (forall i :: 0 <= i < |rows| ==> InRange(rows[i]) && rows[i].sequence > 0)
    && (forall i, j :: 0 <= i < j < |rows| ==>
          rows[i].sequence < rows[j].sequence && rows[i].recorded <= rows[j].recorded)
  }

  function Entries(rows: seq<Row>): (lines: seq<Line>)
    ensures |lines| == |rows| && forall i :: 0 <= i < |rows| ==> lines[i] == Entry(rows[i])
  {
    seq(|rows|, i requires 0 <= i < |rows| => Entry(rows[i]))
  }

  function Tagged(session: nat, rows: seq<Row>): (records: seq<Record>)
    ensures |records| == |rows| && forall i :: 0 <= i < |rows| ==> records[i] == Record(session, rows[i])
  {
    seq(|rows|, i requires 0 <= i < |rows| => Record(session, rows[i]))
  }

  lemma OrderedTail(s: Reader, rows: seq<Row>)
    requires Ordered(rows) && rows != [] && s.header
    requires s.lastSequence < rows[0].sequence && s.lastRecorded <= rows[0].recorded
    ensures Accepts(s, rows[0]) && Ordered(rows[1..])
    ensures |rows| > 1 ==> rows[0].sequence < rows[1..][0].sequence && rows[0].recorded <= rows[1..][0].recorded
  {
  }

  lemma {:induction false} RowsAreRead(s: Reader, rows: seq<Row>, tail: seq<Line>, skip: bool)
    requires s.header && !s.waiting && Ordered(rows) && (tail == [] || tail == [Comment])
    requires rows != [] ==> s.lastSequence < rows[0].sequence && s.lastRecorded <= rows[0].recorded
    ensures Records(s, Entries(rows) + tail, skip) == Some(Read(Tagged(s.session, rows), s.session))
    decreases |rows|
  {
    if rows == [] {
      assert Entries(rows) + tail == tail;
      FooterIsRead(s, tail, skip);
    } else {
      var rest := Entries(rows[1..]) + tail;
      RowsInTurn(s.session, rows, tail);
      OrderedTail(s, rows);
      RowsAreRead(After(s, rows[0]), rows[1..], tail, skip);
      EntryIsRead(s, rows[0], rest, skip, Tagged(s.session, rows[1..]));
    }
  }

  lemma RowsInTurn(session: nat, rows: seq<Row>, tail: seq<Line>)
    requires rows != []
    ensures Entries(rows) + tail == [Entry(rows[0])] + (Entries(rows[1..]) + tail)
    ensures Tagged(session, rows) == [Record(session, rows[0])] + Tagged(session, rows[1..])
  {
  }

  lemma FooterIsRead(s: Reader, tail: seq<Line>, skip: bool)
    requires !s.waiting && (tail == [] || tail == [Comment])
    ensures Records(s, tail, skip) == Some(Read([], s.session))
  {
    if tail != [] {
      RecordsOneMore(s, Comment, [], skip);
      PrependNothing(Records(s, [], skip));
      assert tail == [Comment] + [];
    }
  }

  function After(s: Reader, row: Row): Reader {
    s.(lastSequence := row.sequence, lastRecorded := row.recorded)
  }

  lemma EntryIsRead(s: Reader, row: Row, rest: seq<Line>, skip: bool, records: seq<Record>)
    requires s.header && !s.waiting && Accepts(s, row)
    requires Records(After(s, row), rest, skip) == Some(Read(records, s.session))
    ensures Records(s, [Entry(row)] + rest, skip) == Some(Read([Record(s.session, row)] + records, s.session))
  {
    RecordsOneMore(s, Entry(row), rest, skip);
  }

  /** A log made of its two head lines, ordered rows and perhaps a closing comment is read completely. */
  lemma LogIsRead(session: nat, rows: seq<Row>, tail: seq<Line>, skip: bool)
    requires Ordered(rows) && (tail == [] || tail == [Comment])
    ensures Records(Fresh(session), [Meta(1), Header(true)] + Entries(rows) + tail, skip)
         == Some(Read(Tagged(session + 1, rows), session + 1))
  {
    var body := Entries(rows) + tail;
    assert [Meta(1), Header(true)] + Entries(rows) + tail == [Meta(1), Header(true)] + body;
    HeadIsRead(session, body, skip);
    RowsAreRead(Reader(session + 1, true, false, 0, 0), rows, tail, skip);
  }

  lemma HeadIsRead(session: nat, body: seq<Line>, skip: bool)
    ensures Records(Fresh(session), [Meta(1), Header(true)] + body, skip)
         == Records(Reader(session + 1, true, false, 0, 0), body, skip)
  {
    var waiting := Reader(session + 1, false, true, 0, 0);
    assert [Meta(1), Header(true)] + body == [Meta(1)] + ([Header(true)] + body);
    RecordsOneMore(Fresh(session), Meta(1), [Header(true)] + body, skip);
    RecordsOneMore(waiting, Header(true), body, skip);
    PrependNothing(Records(Reader(session + 1, true, false, 0, 0), body, skip));
    PrependNothing(Records(waiting, [Header(true)] + body, skip));
  }

  // ---- the timeline -------------------------------------------------------------------------------

  datatype Clock = Clock(session: Option<nat>, origin: int, base: int, last: int)

  /** A new session starts a second after the last stamp, and its first record is its origin. */
  function Moved(c: Clock, r: Record): Clock {
    if c.session == Some(r.session) then c else Clock(Some(r.session), r.row.recorded, c.last + SECOND, c.last)
  }

  function Wanted(c: Clock, r: Record): int {
    var m := Moved(c, r);
    Max(m.base + r.row.recorded - m.origin, c.last + 1)
  }

  function Max(a: int, b: int): int { if a >= b then a else b }

  predicate TooLate(c: Clock, r: Record) { Wanted(c, r) / SECOND > LAST_SECOND }

  function Stamped(c: Clock, r: Record): Clock { Moved(c, r).(last := Wanted(c, r)) }

  /** The stamps of all records, unless one would lie beyond the seconds range. */
  function Stamps(c: Clock, records: seq<Record>): (stamps: Option<seq<int>>)
    ensures stamps.Some? ==> |stamps.value| == |records|
    decreases |records|
  {
    if records == [] then Some([])
    else if TooLate(c, records[0]) then None
    else
      match Stamps(Stamped(c, records[0]), records[1..])
      case None => None
      case Some(rest) => Some([Wanted(c, records[0])] + rest)
  }

  class Timeline {
    var session: Option<nat>
    var origin: int
    var base: int
    var last: int

    ghost function Now(): Clock
      reads this
    {
      Clock(session, origin, base, last)
    }

    constructor ()
      ensures Now() == Clock(None, 0, 0, 0)
    {
      session, origin, base, last := None, 0, 0, 0;
    }

    /** Every stamp is later than the one before; within a session a record is never stamped earlier than its
        own time, and a new session starts at least a second after the old one ended. */
    method Stamp(record: Record) returns (stamp: Option<int>)
      modifies this
      ensures stamp.Some? <==> !TooLate(old(Now()), record)
      ensures stamp.Some? ==> stamp.value == last > old(last) && last / SECOND <= LAST_SECOND
      ensures Now() == if stamp.Some? then Stamped(old(Now()), record) else Moved(old(Now()), record)
    {
      if session != Some(record.session) {
        session := Some(record.session);
        origin, base := record.row.recorded, last + SECOND;
      }
      var at := base + record.row.recorded - origin;
      if at < last + 1 {
        at := last + 1;
      }
      if at / SECOND > LAST_SECOND {
        return None;
      }
      last := at;
      stamp := Some(at);
    }

    /** The converter's loop over the records. */
    method StampAll(records: seq<Record>) returns (stamps: Option<seq<int>>)
      modifies this
      ensures stamps == Stamps(old(Now()), records)
    {
      var i, done: seq<int> := 0, [];
      assert records[0..] == records;
      StampNothing(Stamps(Now(), records));
      while i < |records|
        invariant 0 <= i <= |records|
        invariant Stamps(old(Now()), records) == StampFirst(done, Stamps(Now(), records[i..]))
      {
        ghost var before := Now();
        assert records[i..][0] == records[i] && records[i..][1..] == records[i + 1..];
        var stamp := Stamp(records[i]);
        if stamp.None? {
          return None;
        }
        StampTwice(done, stamp.value, Stamps(Now(), records[i + 1..]));
        done := done + [stamp.value];
        i := i + 1;
      }
      assert records[i..] == [] && done + [] == done;
      stamps := Some(done);
    }
  }

  function StampFirst(first: seq<int>, rest: Option<seq<int>>): Option<seq<int>> {
    match rest
    case None => None
    case Some(more) => Some(first + more)
  }

  lemma StampNothing(rest: Option<seq<int>>)
    ensures StampFirst([], rest) == rest
  {
    if rest.Some? {
      assert [] + rest.value == rest.value;
    }
  }

  lemma StampTwice(a: seq<int>, b: int, rest: Option<seq<int>>)
    ensures StampFirst(a, StampFirst([b], rest)) == StampFirst(a + [b], rest)
  {
    if rest.Some? {
      assert a + ([b] + rest.value) == a + [b] + rest.value;
    }
  }

  // ---- stamps of a whole run ------------------------------------------------------------------------

  /** Stamps rise strictly, whatever the records are. */
  lemma {:induction false} StampsRise(c: Clock, records: seq<Record>, i: nat, j: nat)
    requires Stamps(c, records).Some? && i < j < |records|
    ensures c.last < Stamps(c, records).value[i] < Stamps(c, records).value[j]
    decreases j
  {
    var next, rest := Stamped(c, records[0]), records[1..];
    if i > 0 {
      StampsRise(next, rest, i - 1, j - 1);
    } else if j > 1 {
      StampsRise(next, rest, 0, j - 1);
    }
  }

  /** Within a session no two records have the same time. */
  predicate Spread(records: seq<Record>) {
    forall i, j :: 0 <= i < j < |records| && records[i].session == records[j].session ==>
      records[i].row.recorded < records[j].row.recorded
  }

  /** The last stamp is the time of record `r` counted from the origin of its session. */
  predicate Exact(c: Clock, r: Record) {
    c.session == Some(r.session) && c.last == c.base + r.row.recorded - c.origin
  }

  lemma {:induction false} ExactNext(c: Clock, before: Record, records: seq<Record>)
    requires Exact(c, before) && records != [] && InOrder([before] + records) && Spread([before] + records)
    ensures Exact(Stamped(c, records[0]), records[0])
    ensures records[0].session == before.session ==> Moved(c, records[0]) == c
    ensures InOrder([records[0]] + records[1..]) && Spread([records[0]] + records[1..])
  {
    var all := [before] + records;
    assert all[0] == before && all[1] == records[0];
    assert [records[0]] + records[1..] == all[1..];
  }

  /** While the session lasts every stamp is exact. */
  lemma {:induction false} ExactWithin(c: Clock, before: Record, records: seq<Record>, k: nat)
    requires Exact(c, before) && InOrder([before] + records) && Spread([before] + records)
    requires Stamps(c, records).Some? && k < |records| && records[k].session == before.session
    ensures Stamps(c, records).value[k] == c.base + records[k].row.recorded - c.origin
    decreases k
  {
    ExactNext(c, before, records);
    var all := [before] + records;
    assert all[0] == before && all[1] == records[0] && all[k + 1] == records[k];
    if k > 0 {
      ExactWithin(Stamped(c, records[0]), records[0], records[1..], k - 1);
    }
  }

  /** Distances from the first exactly stamped record on. */
  lemma {:induction false} DistancesFrom(c: Clock, records: seq<Record>, i: nat, j: nat)
    requires Stamps(c, records).Some? && i < j < |records| && records[i].session == records[j].session
    requires Exact(Stamped(c, records[0]), records[0])
    requires InOrder([records[0]] + records[1..]) && Spread([records[0]] + records[1..])
    ensures Stamps(c, records).value[j] - Stamps(c, records).value[i]
         == records[j].row.recorded - records[i].row.recorded
    decreases i
  {
    var next, rest := Stamped(c, records[0]), records[1..];
    if i == 0 {
      ExactWithin(next, records[0], rest, j - 1);
    } else {
      ExactNext(next, records[0], rest);
      DistancesFrom(next, rest, i - 1, j - 1);
    }
  }

  /** The converter keeps the distances of the log: whatever the files hold, where the times of a session differ its
      stamps are as far apart as its records. */
  lemma DistancesKept(records: seq<Record>, i: nat, j: nat)
    requires InOrder(records) && Spread(records) && Stamps(Clock(None, 0, 0, 0), records).Some?
    requires i < j < |records| && records[i].session == records[j].session
    ensures var stamps := Stamps(Clock(None, 0, 0, 0), records).value;
            stamps[j] - stamps[i] == records[j].row.recorded - records[i].row.recorded
  {
    assert [records[0]] + records[1..] == records;
    DistancesFrom(Clock(None, 0, 0, 0), records, i, j);
  }

  /** And sessions lie a second apart. */
  lemma {:induction false} SessionsApart(c: Clock, records: seq<Record>, k: nat)
    requires Stamps(c, records).Some? && k + 1 < |records| && records[k].session != records[k + 1].session
    ensures Stamps(c, records).value[k + 1] == Stamps(c, records).value[k] + SECOND
    decreases k
  {
    if k > 0 {
      SessionsApart(Stamped(c, records[0]), records[1..], k - 1);
    }
  }
}
