/** The device side of the IMU log: a sampler that numbers events into a bounded queue and a writer that puts
    them into a file with a byte limit. Whatever the order of their steps, every number has exactly one fate,
    and what a healthy file holds is accepted by the host. */
module ImuLog {
  import opened Bytes
  import opened ImuLogReader
  import opened Rings

  const CAPACITY: nat := 512

  datatype Fate = Queued | Held | Written | Dropped | Failed

  function Count(fate: seq<Fate>, f: Fate): (n: nat)
    ensures n <= |fate|
  {
    if fate == [] then 0
    else Count(fate[..|fate| - 1], f) + (if fate[|fate| - 1] == f then 1 else 0)
  }

  lemma CountAppend(fate: seq<Fate>, g: Fate, f: Fate)
    ensures Count(fate + [g], f) == Count(fate, f) + (if g == f then 1 else 0)
  {
    assert (fate + [g])[..|fate|] == fate;
  }

  lemma {:induction false} CountUpdate(fate: seq<Fate>, i: nat, g: Fate, f: Fate)
    requires i < |fate|
    ensures Count(fate[i := g], f) == Count(fate, f) - (if fate[i] == f then 1 else 0) + (if g == f then 1 else 0)
    decreases |fate|
  {
    var last := |fate| - 1;
    if i == last {
      assert fate[i := g][..last] == fate[..last];
    } else {
      CountUpdate(fate[..last], i, g, f);
      assert fate[i := g][..last] == fate[..last][i := g];
    }
  }

  lemma {:induction false} CountsAddUp(fate: seq<Fate>)
    ensures Count(fate, Queued) + Count(fate, Held) + Count(fate, Written) + Count(fate, Dropped) + Count(fate, Failed)
         == |fate|
  {
    if fate != [] {
      CountsAddUp(fate[..|fate| - 1]);
    }
  }

  /** What a typed event can hold, before it is numbered and stamped. */
  predicate Payload(r: Row) { InRange(r.(sequence := 1, recorded := 1, dropped := 0)) }

  function HandOf(hand: Option<Row>): seq<Row> { if hand.Some? then [hand.value] else [] }

  /** What has happened to every number, what is waiting, and what is in the file. */
  datatype Book = Book(fate: seq<Fate>, queue: seq<Row>, clock: int, file: FileBook)

  datatype FileBook = FileBook(rows: seq<Row>, headed: bool, footed: bool, torn: bool)

  predicate FateIs(fate: seq<Fate>, r: Row, f: Fate) { 0 < r.sequence <= |fate| && fate[r.sequence - 1] == f }

  /** The counters count the fates, and the fates of waiting events say so. */
  ghost predicate Booked(b: Book, hand: Option<Row>, written: nat, dropped: nat, failed: nat) {
    && Count(b.fate, Written) == written && Count(b.fate, Dropped) == dropped && Count(b.fate, Failed) == failed
    && Count(b.fate, Queued) == |b.queue| && Count(b.fate, Held) == |HandOf(hand)|
    && (forall k :: 0 <= k < |b.queue| ==> FateIs(b.fate, b.queue[k], Queued))
    && (hand.Some? ==> FateIs(b.fate, hand.value, Held))
  }

  /** File, hand and queue, in this order, are in order. */
  ghost predicate Lined(b: Book, hand: Option<Row>) {
    var line := b.file.rows + HandOf(hand) + b.queue;
    && Ordered(line)
    && forall k :: 0 <= k < |line| ==> line[k].sequence <= |b.fate| && line[k].recorded <= b.clock
  }

  /** What an undamaged file looks like: nothing yet, or the head, the rows, and the footer once it is closed. */
  ghost predicate Looks(b: FileBook, lines: seq<Line>, open: bool, limitReached: bool) {
    && (b.footed ==> !open)
    && (!b.headed ==> b.rows == [] && (open ==> limitReached))
    && (!b.torn ==>
          lines == (if b.headed then [Meta(1), Header(true)] else []) + Entries(b.rows)
                   + (if b.footed then [Comment] else []))
  }

  lemma OrderedAppend(rows: seq<Row>, r: Row)
    requires Ordered(rows) && InRange(r) && r.sequence > 0
    requires forall k :: 0 <= k < |rows| ==> rows[k].sequence < r.sequence && rows[k].recorded <= r.recorded
    ensures Ordered(rows + [r])
  {
  }

  /** Leaving rows out keeps the order. */
  lemma OrderedPick(all: seq<Row>, less: seq<Row>, at: nat -> nat)
    requires Ordered(all)
    requires forall i :: 0 <= i < |less| ==> at(i) < |all| && less[i] == all[at(i)]
    requires forall i, j :: 0 <= i < j < |less| ==> at(i) < at(j)
    ensures Ordered(less)
  {
    forall i, j | 0 <= i < j < |less|
      ensures less[i].sequence < less[j].sequence && less[i].recorded <= less[j].recorded
    {
      assert at(i) < at(j);
    }
  }

  lemma OrderedWithout(front: seq<Row>, r: Row, back: seq<Row>)
    requires Ordered(front + [r] + back)
    ensures Ordered(front + back)
  {
    OrderedPick(front + [r] + back, front + back, (i: nat) => if i < |front| then i else i + 1);
  }

  lemma OrderedBack(front: seq<Row>, back: seq<Row>)
    requires Ordered(front + back)
    ensures Ordered(back)
  {
    OrderedPick(front + back, back, (i: nat) => |front| + i);
  }

  lemma OrderedFront(front: seq<Row>, back: seq<Row>)
    requires Ordered(front + back)
    ensures Ordered(front)
  {
    OrderedPick(front + back, front, (i: nat) => i);
  }

  lemma LinedWithout(b: Book, r: Row)
    requires Lined(b, Some(r))
    ensures Lined(b, None) && forall k :: 0 <= k < |b.queue| ==> b.queue[k].sequence > r.sequence
  {
    var rows, queue := b.file.rows, b.queue;
    var line, less := rows + [r] + queue, rows + [] + queue;
    OrderedWithout(rows, r, queue);
    assert less == rows + queue;
    forall k | 0 <= k < |less|
      ensures less[k].sequence <= |b.fate| && less[k].recorded <= b.clock
    {
      assert less[k] == line[if k < |rows| then k else k + 1];
    }
    forall k | 0 <= k < |queue|
      ensures queue[k].sequence > r.sequence
    {
      assert line[|rows|] == r && line[|rows| + 1 + k] == queue[k];
    }
  }

  lemma LinedTake(b: Book)
    requires Lined(b, None) && b.queue != []
    ensures Lined(b.(queue := b.queue[1..]), Some(b.queue[0]))
    ensures forall k :: 0 < k < |b.queue| ==> b.queue[k].sequence > b.queue[0].sequence
  {
    var rows, queue := b.file.rows, b.queue;
    var line := rows + [] + queue;
    assert rows + [queue[0]] + queue[1..] == line;
    forall k | 0 < k < |queue|
      ensures queue[k].sequence > queue[0].sequence
    {
      assert line[|rows|] == queue[0] && line[|rows| + k] == queue[k];
    }
  }

  lemma LinedWritten(b: Book, r: Row)
    requires Lined(b, Some(r))
    ensures Lined(b.(file := b.file.(rows := b.file.rows + [r])), None)
  {
    assert b.file.rows + [r] + [] + b.queue == b.file.rows + [r] + b.queue;
  }

  lemma LinedAnew(b: Book, hand: Option<Row>)
    requires Lined(b, hand)
    ensures Lined(b.(file := FileBook([], false, false, false)), hand)
  {
    var rows, rest := b.file.rows, HandOf(hand) + b.queue;
    assert rows + HandOf(hand) + b.queue == rows + rest && [] + HandOf(hand) + b.queue == rest;
    OrderedBack(rows, rest);
    forall k | 0 <= k < |rest|
      ensures rest[k].sequence <= |b.fate| && rest[k].recorded <= b.clock
    {
      assert rest[k] == (rows + rest)[|rows| + k];
    }
  }

  lemma FateChange(fate: seq<Fate>, i: nat, f: Fate)
    requires i < |fate|
    ensures forall g :: Count(fate[i := f], g)
                       == Count(fate, g) - (if fate[i] == g then 1 else 0) + (if f == g then 1 else 0)
  {
    forall g {
      CountUpdate(fate, i, f, g);
    }
  }

  lemma BookedTake(b: Book, written: nat, dropped: nat, failed: nat)
    requires Booked(b, None, written, dropped, failed) && Lined(b, None) && b.queue != []
    ensures FateIs(b.fate, b.queue[0], Queued)
    ensures Booked(b.(fate := b.fate[b.queue[0].sequence - 1 := Held], queue := b.queue[1..]), Some(b.queue[0]),
                   written, dropped, failed)
  {
    assert FateIs(b.fate, b.queue[0], Queued);
    LinedTake(b);
    FateChange(b.fate, b.queue[0].sequence - 1, Held);
  }

  /** The books without the oldest event of the queue, which is in hand. */
  function Drawn(b: Book): Book
    requires b.queue != [] && 0 < b.queue[0].sequence <= |b.fate|
  {
    b.(fate := b.fate[b.queue[0].sequence - 1 := Held], queue := b.queue[1..])
  }

  lemma DrawnKeeps(b: Book, written: nat, dropped: nat, failed: nat)
    requires Booked(b, None, written, dropped, failed) && Lined(b, None) && b.queue != []
    ensures FateIs(b.fate, b.queue[0], Queued)
    ensures Booked(Drawn(b), Some(b.queue[0]), written, dropped, failed) && Lined(Drawn(b), Some(b.queue[0]))
  {
    BookedTake(b, written, dropped, failed);
    LinedTake(b);
  }

  lemma BookedSettle(b: Book, r: Row, f: Fate, written: nat, dropped: nat, failed: nat)
    requires Booked(b, Some(r), written, dropped, failed) && Lined(b, Some(r)) && f in {Written, Dropped, Failed}
    ensures Booked(b.(fate := b.fate[r.sequence - 1 := f]), None,
                   written + (if f == Written then 1 else 0), dropped + (if f == Dropped then 1 else 0),
                   failed + (if f == Failed then 1 else 0))
  {
    LinedWithout(b, r);
    FateChange(b.fate, r.sequence - 1, f);
  }

  lemma LinedFile(b: Book, hand: Option<Row>)
    requires Lined(b, hand)
    ensures Ordered(b.file.rows)
  {
    assert b.file.rows + HandOf(hand) + b.queue == b.file.rows + (HandOf(hand) + b.queue);
    OrderedFront(b.file.rows, HandOf(hand) + b.queue);
  }

  lemma LooksWithRow(b: FileBook, lines: seq<Line>, limitReached: bool, r: Row)
    requires Looks(b, lines, true, limitReached) && b.headed
    ensures Looks(b.(rows := b.rows + [r]), lines + [Entry(r)], true, limitReached)
  {
    assert Entries(b.rows + [r]) == Entries(b.rows) + [Entry(r)];
    if !b.torn {
      assert lines + [Entry(r)] == [Meta(1), Header(true)] + (Entries(b.rows) + [Entry(r)]) + [];
    }
  }

  const EMPTY_BOOK := Book([], [], 0, FileBook([], false, false, false))

  lemma NothingBooked()
    ensures Booked(EMPTY_BOOK, None, 0, 0, 0) && Lined(EMPTY_BOOK, None)
    ensures Looks(EMPTY_BOOK.file, [], false, false)
  {
  }

  /** Marking the file as closed or damaged leaves its rows alone. */
  lemma SameRows(b: Book, hand: Option<Row>, written: nat, dropped: nat, failed: nat, file: FileBook)
    requires Lined(b, hand) && Booked(b, hand, written, dropped, failed) && file.rows == b.file.rows
    ensures Lined(b.(file := file), hand) && Booked(b.(file := file), hand, written, dropped, failed)
  {
  }

  /** What a write comes to: all of it, refused beforehand, or cut short. */
  datatype Wrote = Complete | Refused | Short

  /** The fate of one write: does the text fit its buffer, how long is it, and how much arrives. */
  datatype Disk = Disk(fits: bool, length: nat, arrive: nat)

  /** There is no room left for a write that its own buffer holds. */
  predicate Full(bytes: nat, limit: nat, disk: Disk) {
    disk.fits && (bytes >= limit || disk.length > limit - bytes)
  }

  function WriteOutcome(bytes: nat, limit: nat, limitReached: bool, disk: Disk): Wrote {
    if limitReached || !disk.fits || Full(bytes, limit, disk) then Refused
    else if disk.arrive < disk.length then Short
    else Complete
  }

  /** An event without a file, or beyond the limit of its file, is dropped; one that the file should have taken and
      did not is lost with the file. */
  function FateOf(open: bool, bytes: nat, limit: nat, limitReached: bool, row: Disk): Fate {
    if !open then Dropped
    else if WriteOutcome(bytes, limit, limitReached, row) == Complete then Written
    else if limitReached || Full(bytes, limit, row) then Dropped
    else Failed
  }

  /** The books with one more event: in the queue, or refused. */
  function Noted(b: Book, row: Row, refused: bool): Book {
    if refused then b.(fate := b.fate + [Dropped], clock := row.recorded)
    else b.(fate := b.fate + [Queued], clock := row.recorded, queue := b.queue + [row])
  }

  class LogSession {
    const limit: nat
    const ring: array<Row>
    var cursor: Cursor
    var sequence: nat
    var written: nat
    var dropped: nat
    var failed: nat
    var accepting: bool
    var active: bool
    var limitReached: bool
    var open: bool
    var lines: seq<Line>
    var bytes: nat
    // The event the writer has taken out of the queue.
    var hand: Option<Row>
    ghost var book: Book

    ghost predicate Ring()
      reads this`cursor, this`book, ring
    {
      && ring.Length == CAPACITY && cursor.Fits(CAPACITY)
      && book.queue == Contents(ring[..], cursor.head, cursor.count)
    }

    ghost predicate Valid()
      reads this, ring
    {
      Ring() && sequence == |book.fate| && Kept()
    }

    /** The part of it that has nothing to do with the queue's ring. */
    ghost predicate Kept()
      reads this
    {
      && bytes <= limit && Booked(book, hand, written, dropped, failed) && Lined(book, hand)
      && Looks(book.file, lines, open, limitReached)
    }

    constructor (budget: nat)
      ensures Valid() && limit == budget && sequence == 0 && !open && fresh(ring)
    {
      limit := budget;
      ring := new Row[CAPACITY](i => Row(false, 0, 0, 0, 0, 0, 0, 0, 0, 0, 0, 0, [], 0));
      cursor, sequence, written, dropped, failed := Cursor(0, 0, 0), 0, 0, 0, 0;
      accepting, active, limitReached, open, lines, bytes, hand := true, false, false, false, [], 0, None;
      book := EMPTY_BOOK;
      new;
      NothingBooked();
      assert Kept();
    }

    // ---- the sampler ------------------------------------------------------------------------------

    /** Numbers and stamps an event, then queues it or drops it. The clock never goes back. The number is one of 64
        bits: after 2^64 - 1 events it starts over at zero, which the writer takes for no event at all, and from then
        on nothing is promised. */
    method Enqueue(payload: Row, now: int, enabled: bool)
      requires Valid() && Payload(payload) && 0 < now < TWO_64 && book.clock <= now && sequence < TWO_64
      modifies this`sequence, this`dropped, this`cursor, this`book, ring
      ensures sequence == if !(accepting && enabled && active) then old(sequence)
                          else if old(sequence) < TWO_64 - 1 then old(sequence) + 1 else 0
      ensures old(sequence) < TWO_64 - 1 ==>
                && Valid()
                && book == if accepting && enabled && active
                           then Noted(old(book),
                                      payload.(sequence := sequence, recorded := now, dropped := old(dropped)),
                                      limitReached || old(cursor.count) == CAPACITY)
                           else old(book)
    {
      if accepting && enabled && active {
        if sequence == TWO_64 - 1 {
          StartOver(payload, now);
        } else {
          Number(payload, now);
        }
      }
    }

    /** The event that gets the number zero. */
    method StartOver(payload: Row, now: int)
      requires Ring()
      modifies this`sequence, this`dropped, this`cursor, ring
      ensures sequence == 0
    {
      sequence := 0;
      if limitReached || cursor.count == CAPACITY {
        dropped := dropped + 1;
      } else {
        ring[cursor.tail] := payload.(sequence := 0, recorded := now, dropped := dropped);
        cursor := cursor.Pushed(CAPACITY);
      }
    }

    method Number(payload: Row, now: int)
      requires Ring() && sequence == |book.fate| < TWO_64 - 1
      requires Booked(book, hand, written, dropped, failed) && Lined(book, hand)
      requires Payload(payload) && 0 < now < TWO_64 && book.clock <= now
      modifies this`sequence, this`dropped, this`cursor, this`book, ring
      ensures Ring() && sequence == |book.fate| == old(sequence) + 1
      ensures book == Noted(old(book), payload.(sequence := sequence, recorded := now, dropped := old(dropped)),
                            limitReached || old(cursor.count) == CAPACITY)
      ensures Booked(book, hand, written, dropped, failed) && Lined(book, hand)
    {
      sequence := sequence + 1;
      if limitReached || cursor.count == CAPACITY {
        DropNew(now);
      } else {
        QueueNew(payload, now);
      }
    }

    method QueueNew(payload: Row, now: int)
      requires Ring() && cursor.count < CAPACITY && sequence == |book.fate| + 1 < TWO_64
      requires Booked(book, hand, written, dropped, failed) && Lined(book, hand)
      requires Payload(payload) && 0 < now < TWO_64 && book.clock <= now
      modifies this`cursor, this`book, ring
      ensures Ring() && Booked(book, hand, written, dropped, failed) && Lined(book, hand)
      ensures book == Noted(old(book), payload.(sequence := sequence, recorded := now, dropped := dropped), false)
    {
      CountsAddUp(book.fate);
      var row := payload.(sequence := sequence, recorded := now, dropped := dropped);
      NewEvent(row);
      Push(row);
    }

    /** The newest number is counted as dropped. */
    method DropNew(ghost now: int)
      requires Lined(book, hand) && Booked(book, hand, written, dropped, failed) && book.clock <= now
      modifies this`dropped, this`book
      ensures book == old(book).(fate := old(book).fate + [Dropped], clock := now)
      ensures Booked(book, hand, written, dropped, failed) && Lined(book, hand)
    {
      CountAppend(book.fate, Dropped, Queued);
      CountAppend(book.fate, Dropped, Held);
      CountAppend(book.fate, Dropped, Written);
      CountAppend(book.fate, Dropped, Dropped);
      CountAppend(book.fate, Dropped, Failed);
      dropped := dropped + 1;
      book := book.(fate := book.fate + [Dropped], clock := now);
    }

    ghost method NewEvent(row: Row)
      requires Lined(book, hand) && Booked(book, hand, written, dropped, failed)
      requires InRange(row) && row.sequence == |book.fate| + 1 && book.clock <= row.recorded
      modifies this`book
      ensures book == old(book).(fate := old(book).fate + [Queued], clock := row.recorded,
                                 queue := old(book).queue + [row])
      ensures Booked(book, hand, written, dropped, failed) && Lined(book, hand)
    {
      CountAppend(book.fate, Queued, Queued);
      CountAppend(book.fate, Queued, Held);
      CountAppend(book.fate, Queued, Written);
      CountAppend(book.fate, Queued, Dropped);
      CountAppend(book.fate, Queued, Failed);
      var line := book.file.rows + HandOf(hand) + book.queue;
      OrderedAppend(line, row);
      assert book.file.rows + HandOf(hand) + (book.queue + [row]) == line + [row];
      book := book.(fate := book.fate + [Queued], clock := row.recorded, queue := book.queue + [row]);
    }

    method Push(row: Row)
      requires ring.Length == CAPACITY && cursor.Fits(CAPACITY) && cursor.count < CAPACITY
      requires book.queue == Contents(ring[..], cursor.head, cursor.count) + [row]
      modifies this`cursor, ring
      ensures Ring()
    {
      ghost var before := ring[..];
      ring[cursor.tail] := row;
      TailWriteKeeps(before, ring[..], cursor.head, cursor.count);
      PushContents(ring[..], cursor.head, cursor.count, row);
      cursor := cursor.Pushed(CAPACITY);
    }

    // ---- the writer -------------------------------------------------------------------------------

    /** Takes the oldest event out of the queue. */
    method Take()
      requires Valid() && hand.None?
      modifies this`cursor, this`hand, this`book
      ensures Valid() && book.file == old(book.file)
      ensures hand == if |old(book.queue)| > 0 then Some(old(book.queue)[0]) else None
      ensures |old(book.queue)| > 0 ==> book.queue == old(book.queue)[1..]
      ensures |old(book.queue)| > 0 ==> 0 < hand.value.sequence <= |old(book).fate|
      ensures |old(book.queue)| > 0 ==> book.fate == old(book.fate)[hand.value.sequence - 1 := Held]
    {
      if cursor.count > 0 {
        PopContents(ring[..], cursor.head, cursor.count);
        DrawnKeeps(book, written, dropped, failed);
        hand := Some(ring[cursor.head]);
        cursor := cursor.Popped(CAPACITY);
        book := Drawn(book);
      }
    }

    /** What becomes of the event in hand: written, dropped for want of a file or of room, or failed. */
    method Settle(row: Disk, footer: Disk)
      requires Valid() && hand.Some?
      modifies this`hand, this`written, this`dropped, this`failed, this`active, this`limitReached, this`open,
        this`lines, this`bytes, this`book
      ensures Valid() && hand.None?
      ensures var f := FateOf(old(open), old(bytes), limit, old(limitReached), row);
              && book.fate == old(book.fate)[old(hand).value.sequence - 1 := f]
              && book.file.rows == old(book.file.rows) + (if f == Written then [old(hand).value] else [])
              && open == (old(open) && f != Failed)
    {
      Conclude(row, footer);
    }

    method Conclude(row: Disk, footer: Disk)
      requires Kept() && hand.Some?
      modifies this`hand, this`written, this`dropped, this`failed, this`active, this`limitReached, this`open,
        this`lines, this`bytes, this`book
      ensures Kept() && book.queue == old(book).queue && hand.None?
      ensures 0 < old(hand).value.sequence <= |old(book).fate|
      ensures var f := FateOf(old(open), old(bytes), limit, old(limitReached), row);
              && book.fate == old(book).fate[old(hand).value.sequence - 1 := f]
              && book.file.rows == old(book).file.rows + (if f == Written then [old(hand).value] else [])
              && open == (old(open) && f != Failed)
    {
      ghost var fate, n, f := book.fate, hand.value.sequence - 1, FateOf(open, bytes, limit, limitReached, row);
      if !open {
        Finish(Dropped);
      } else {
        WriteRow(row);
        if hand.Some? {
          assert f == Failed && book.fate == fate;
          GiveUp(footer);
        }
        assert book.fate == fate[n := f];
      }
    }

    /** The event in hand is lost with the file. */
    method GiveUp(footer: Disk)
      requires Kept() && hand.Some? && open
      modifies this`hand, this`dropped, this`failed, this`active, this`limitReached, this`open, this`lines, this`bytes,
        this`book
      ensures Kept() && book.queue == old(book).queue && hand.None?
      ensures book.fate == old(book).fate[old(hand).value.sequence - 1 := Failed]
      ensures !open && book.file.rows == old(book).file.rows
    {
      Finish(Failed);
      ghost var before := book;
      EndLog(footer);
      SameRows(before, hand, written, dropped, failed, book.file);
    }

    /** Tries to write the event in hand. It stays there if the file turned out to be damaged. */
    method WriteRow(row: Disk)
      requires Kept() && hand.Some? && open
      modifies this`hand, this`written, this`dropped, this`failed, this`limitReached, this`lines, this`bytes, this`book
      ensures Kept() && book.queue == old(book).queue
      ensures var f := FateOf(true, old(bytes), limit, old(limitReached), row);
              && hand == (if f == Failed then old(hand) else None)
              && (if f == Failed then book.fate == old(book).fate
                  else book.fate == old(book).fate[old(hand).value.sequence - 1 := f])
              && book.file.rows == old(book).file.rows + (if f == Written then [old(hand).value] else [])
    {
      ghost var before := book;
      var wrote := AppendRow(row);
      SameRows(before, hand, written, dropped, failed, book.file);
      if wrote == Complete {
        FinishWritten();
      } else if limitReached {
        Finish(Dropped);
      }
    }

    /** The file with the row, without it, or damaged. */
    method AppendRow(row: Disk) returns (wrote: Wrote)
      requires hand.Some? && open && bytes <= limit && Looks(book.file, lines, open, limitReached)
      modifies this`limitReached, this`lines, this`bytes, this`book
      ensures bytes <= limit && book == old(book).(file := old(book).file.(torn := book.file.torn))
      ensures FateOf(true, old(bytes), limit, old(limitReached), row)
           == if wrote == Complete then Written else if limitReached then Dropped else Failed
      ensures wrote != Complete ==> Looks(book.file, lines, open, limitReached)
      ensures wrote == Complete ==>
                && book == old(book) && book.file.headed
                && Looks(book.file.(rows := book.file.rows + [hand.value]), lines, open, limitReached)
    {
      ghost var before, b := lines, book.file;
      wrote := WriteLog([Entry(hand.value)], row);
      if wrote == Complete {
        LooksWithRow(b, before, limitReached, hand.value);
      }
      book := book.(file := book.file.(torn := book.file.torn || wrote == Short));
    }

    /** Nothing beyond the limit is ever written. */
    method WriteLog(more: seq<Line>, disk: Disk) returns (wrote: Wrote)
      requires bytes <= limit
      modifies this`lines, this`bytes, this`limitReached
      ensures wrote == WriteOutcome(old(bytes), limit, old(limitReached), disk)
      ensures limitReached == (old(limitReached) || Full(old(bytes), limit, disk))
      ensures bytes == old(bytes) + (match wrote case Complete => disk.length case Short => disk.arrive case _ => 0)
      ensures bytes <= limit
      ensures lines == old(lines) + (match wrote case Complete => more case Short => [Broken] case _ => [])
    {
      if limitReached || !disk.fits {
        return Refused;
      }
      if bytes >= limit || disk.length > limit - bytes {
        limitReached := true;
        return Refused;
      }
      if disk.arrive < disk.length {
        bytes, lines := bytes + disk.arrive, lines + [Broken];
        return Short;
      }
      bytes, lines := bytes + disk.length, lines + more;
      wrote := Complete;
    }

    /** The event in hand is done with, and is not in the file. */
    method Finish(f: Fate)
      requires hand.Some? && (f == Dropped || f == Failed)
      requires Lined(book, hand) && Booked(book, hand, written, dropped, failed)
      modifies this`hand, this`dropped, this`failed, this`book
      ensures hand.None? && Lined(book, hand) && Booked(book, hand, written, dropped, failed)
      ensures book == old(book).(fate := old(book).fate[old(hand).value.sequence - 1 := f])
    {
      BookedSettle(book, hand.value, f, written, dropped, failed);
      LinedWithout(book, hand.value);
      if f == Dropped {
        dropped := dropped + 1;
      } else {
        failed := failed + 1;
      }
      book := book.(fate := book.fate[hand.value.sequence - 1 := f]);
      hand := None;
    }

    /** The event in hand is now the last row of the file. */
    method FinishWritten()
      requires hand.Some? && open && book.file.headed && !book.file.footed
      requires Lined(book, hand) && Booked(book, hand, written, dropped, failed)
      modifies this`hand, this`written, this`book
      ensures hand.None? && Lined(book, hand) && Booked(book, hand, written, dropped, failed)
      ensures book.file == old(book).file.(rows := old(book).file.rows + [old(hand).value])
      ensures book == old(book).(fate := old(book).fate[old(hand).value.sequence - 1 := Written], file := book.file)
    {
      BookedSettle(book, hand.value, Written, written, dropped, failed);
      LinedWritten(book, hand.value);
      written := written + 1;
      book := book.(fate := book.fate[hand.value.sequence - 1 := Written],
                    file := book.file.(rows := book.file.rows + [hand.value]));
      hand := None;
    }

    /** Closes the file, with a footer exactly if it fits the budget and the disk takes it. */
    method EndLog(footer: Disk)
      requires bytes <= limit
      requires Looks(book.file, lines, false, limitReached) && (open ==> !book.file.footed)
      modifies this`active, this`limitReached, this`open, this`lines, this`bytes, this`book
      ensures bytes <= limit && !active && !open && Looks(book.file, lines, open, limitReached)
      ensures old(open) ==>
                var wrote := WriteOutcome(old(bytes), limit, old(limitReached), footer);
                book == old(book).(file := old(book).file.(footed := wrote == Complete,
                                                           torn := old(book).file.torn || wrote == Short))
      ensures !old(open) ==> book == old(book) && lines == old(lines)
    {
      active := false;
      if open {
        var wrote := WriteLog([Comment], footer);
        open := false;
        book := book.(file := book.file.(footed := wrote == Complete, torn := book.file.torn || wrote == Short));
      }
    }

    /** Opens a new file with its own budget and writes the two head lines; without a file nothing changes. */
    method BeginLog(created: bool, head: Disk, flushed: bool, footer: Disk) returns (ok: bool)
      requires Valid() && !open
      modifies this`active, this`limitReached, this`open, this`lines, this`bytes, this`book
      ensures Valid() && (ok ==> open && active && book.file.rows == []) && (!ok ==> !open)
      ensures !created ==> book == old(book) && lines == old(lines) && bytes == old(bytes) && active == old(active)
      ensures created && !ok ==> !active
      ensures ok <==> created && flushed && (WriteOutcome(0, limit, false, head) == Complete || Full(0, limit, head))
      ensures book.fate == old(book).fate && book.queue == old(book).queue
    {
      if !created {
        return false;
      }
      ok := FillNew(head, flushed, footer);
    }

    method FillNew(head: Disk, flushed: bool, footer: Disk) returns (ok: bool)
      requires Kept() && !open
      modifies this`active, this`limitReached, this`open, this`lines, this`bytes, this`book
      ensures Kept() && (ok ==> open && active && book.file.rows == []) && (!ok ==> !open && !active)
      ensures ok <==> flushed && (WriteOutcome(0, limit, false, head) == Complete || Full(0, limit, head))
      ensures book.fate == old(book).fate && book.queue == old(book).queue
    {
      var wrote := StartFile(head);
      if (wrote != Complete && !limitReached) || !flushed {
        ghost var before := book;
        EndLog(footer);
        SameRows(before, hand, written, dropped, failed, book.file);
        return false;
      }
      active := true;
      ok := true;
    }

    method StartFile(head: Disk) returns (wrote: Wrote)
      requires Kept()
      modifies this`limitReached, this`open, this`lines, this`bytes, this`book
      ensures open && bytes <= limit && Looks(book.file, lines, false, limitReached)
      ensures wrote == WriteOutcome(0, limit, false, head) && limitReached == Full(0, limit, head)
      ensures wrote == Complete || limitReached ==> Looks(book.file, lines, true, limitReached)
      ensures book == old(book).(file := FileBook([], wrote == Complete, false, wrote == Short))
      ensures Booked(book, hand, written, dropped, failed) && Lined(book, hand)
    {
      LinedAnew(book, hand);
      open, lines, bytes, limitReached := true, [], 0, false;
      book := book.(file := FileBook([], false, false, false));
      wrote := WriteHead(head);
    }

    method WriteHead(head: Disk) returns (wrote: Wrote)
      requires open && lines == [] && bytes == 0 && !limitReached && book.file == FileBook([], false, false, false)
      modifies this`limitReached, this`lines, this`bytes, this`book
      ensures wrote == WriteOutcome(0, limit, false, head) && limitReached == Full(0, limit, head)
      ensures bytes <= limit && book == old(book).(file := FileBook([], wrote == Complete, false, wrote == Short))
      ensures Looks(book.file, lines, false, limitReached)
      ensures wrote == Complete || limitReached ==> Looks(book.file, lines, true, limitReached)
    {
      assert Entries([]) == [];
      wrote := WriteLog([Meta(1), Header(true)], head);
      book := book.(file := FileBook([], wrote == Complete, false, wrote == Short));
    }

    /** Every number issued so far is written, dropped, failed, waiting, or with the writer: exactly one of them,
        and the counters say how many of each. */
    lemma NumbersAccountedFor()
      requires Valid()
      ensures sequence == written + dropped + failed + cursor.count + (if hand.Some? then 1 else 0)
      ensures forall f :: f in {Written, Dropped, Failed} ==>
                Count(book.fate, f) == (match f case Written => written case Dropped => dropped case _ => failed)
    {
      CountsAddUp(book.fate);
    }

    /** A file to which every write was complete is accepted by the host row for row, after any other files, whether
        it would pass over bad rows or not. */
    lemma HostReadsFile(session: nat, skip: bool)
      requires Valid() && !book.file.torn
      ensures Records(Fresh(session), lines, skip)
           == Some(if book.file.headed then Read(Tagged(session + 1, book.file.rows), session + 1)
                   else Read([], session))
    {
      LinedFile(book, hand);
      var tail := if book.file.footed then [Comment] else [];
      if book.file.headed {
        LogIsRead(session, book.file.rows, tail, skip);
      } else {
        assert Entries(book.file.rows) == [] && lines == tail;
        if tail != [] {
          RecordsOneMore(Fresh(session), Comment, [], skip);
          assert tail == [Comment] + [];
        }
      }
    }
  }
}
