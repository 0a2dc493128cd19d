/**
 evlogd's write path: record ids, the secondary buffer that takes records while the log is locked, and
 draining it. First as functions of the file and buffer bytes, then as a book of records.
 */
module EventWriter {
  import opened Options
  import opened Bytes
  import opened Framing

  /** Public records get odd ids, private ones even ids, from one counter. */
  function NextRecId(recId: nat, logType: nat): (id: nat)
    ensures logType in {0, 1} ==> recId < id <= recId + 2 && id % 2 == logType
  {
    if logType == 0 then (if recId % 2 == 1 then recId + 1 else recId + 2)
    else if logType == 1 then (if recId % 2 == 1 then recId + 2 else recId + 1)
    else recId
  }

  /** One log of the daemon: its file, its secondary buffer (if allocated) and the drops counted there. */
  datatype Side = Side(file: seq<byte>, buf: Option<seq<byte>>, droppedEvt: nat)

  const MAX_USER_EVLBUF: nat := 512 * 1024
  const MAX_USERPRIV_EVLBUF: nat := 256 * 1024

  function BufSize(logType: nat): nat {
    if logType == 1 then MAX_USER_EVLBUF else MAX_USERPRIV_EVLBUF
  }

  function WithId(ev: Rec, id: nat): Rec {
    ev.(entry := ev.entry.(recid := id))
  }

  function Decimal(n: nat): (s: seq<byte>)
    ensures 0 < |s| <= n + 1
  {
    if n < 10 then [48 + n] else Decimal(n / 10) + [48 + n % 10]
  }

  /** " events dropped due to secondary user buffer overflow.\n" and the terminating null. */
  const DROPPED_TEXT: seq<byte> := [
    32, 101, 118, 101, 110, 116, 115, 32, 100, 114, 111, 112, 112, 101, 100, 32, 100, 117, 101, 32, 116, 111, 32,
    115, 101, 99, 111, 110, 100, 97, 114, 121, 32, 117, 115, 101, 114, 32, 98, 117, 102, 102, 101, 114, 32, 111,
    118, 101, 114, 102, 108, 111, 119, 46, 10, 0]

  /** The record that reports dropped events; magic and stamp are its architecture, time and process. */
  function DropNote(id: nat, count: nat, magic: nat, stamp: seq<byte>): Rec {
    var data := Decimal(count) + DROPPED_TEXT;
    Rec(Entry(magic, id, |data|, stamp), data)
  }

  function WriteToBuf(s: Side, rbuf: seq<byte>, bufsize: nat): Side {
    var held := if s.buf.None? then Side(s.file, Some([]), 0) else s;
    if |held.buf.value| + |rbuf| <= bufsize then held.(buf := Some(held.buf.value + rbuf))
    else held.(droppedEvt := held.droppedEvt + 1)
  }

  /** Draining appends the whole buffer, then the note about dropped events when there were any. */
  function Drain(s: Side, note: seq<byte>): Side {
    if s.buf.None? then s
    else s.(file := s.file + s.buf.value + (if s.droppedEvt > 0 then note else []), buf := None)
  }

  /**
   Logging one event: it gets the next id; without the lock it goes to the buffer; with the lock, the buffer
   is drained first. The note about drops takes its id after the event already has one.
   */
  function LogToSide(recId: nat, s: Side, logType: nat, ev: Rec, gotLock: bool, magic: nat, stamp: seq<byte>)
    : (nat, Side)
  {
    var id := NextRecId(recId, logType);
    var rbuf := Frame(WithId(ev, id));
    if !gotLock then (id, WriteToBuf(s, rbuf, BufSize(logType)))
    else
      var noteId := NextRecId(id, logType);
      var drained := Drain(s, Frame(DropNote(noteId, s.droppedEvt, magic, stamp)));
      (if s.buf.Some? && s.droppedEvt > 0 then noteId else id, drained.(file := drained.file + rbuf))
  }

  datatype Daemon = Daemon(recId: nat, pub: Side, pvt: Side)
  {
    function Log(logType: nat): Side { if logType == 1 then pub else pvt }

    function WithLog(logType: nat, s: Side): Daemon {
      if logType == 1 then this.(pub := s) else this.(pvt := s)
    }
  }

  function LogEvent(d: Daemon, logType: nat, ev: Rec, gotLock: bool, magic: nat, stamp: seq<byte>): Daemon {
    var (recId, s) := LogToSide(d.recId, d.Log(logType), logType, ev, gotLock, magic, stamp);
    d.(recId := recId).WithLog(logType, s)
  }

  // ----- the same, kept as a book of records

  datatype Item = Event(id: nat, ev: Rec) | Note(id: nat, count: nat, magic: nat, stamp: seq<byte>)

  function RecOf(i: Item): Rec {
    match i
    case Event(id, ev) => WithId(ev, id)
    case Note(id, count, magic, stamp) => DropNote(id, count, magic, stamp)
  }

  function RecsOf(items: seq<Item>): (rs: seq<Rec>)
    ensures |rs| == |items|
    ensures forall k :: 0 <= k < |rs| ==> rs[k] == RecOf(items[k])
  {
    seq(|items|, k requires 0 <= k < |items| => RecOf(items[k]))
  }

  /** What one log holds: the records filed, those waiting in the buffer, and the drops not yet reported. */
  datatype Book = Book(filed: seq<Item>, waiting: Option<seq<Item>>, dropped: nat)
  {
    function Held(): seq<Item> { filed + if waiting.Some? then waiting.value else [] }

    /** A count left over from a buffer that was drained is void. */
    function Unreported(): nat { if waiting.Some? then dropped else 0 }
  }

  datatype Books = Books(recId: nat, pub: Book, pvt: Book)
  {
    function Log(logType: nat): Book { if logType == 1 then pub else pvt }

    function WithLog(logType: nat, b: Book): Books {
      if logType == 1 then this.(pub := b) else this.(pvt := b)
    }
  }

  function Buffered(b: Book, item: Item, bufsize: nat): Book {
    var waiting := if b.waiting.None? then [] else b.waiting.value;
    var dropped := if b.waiting.None? then 0 else b.dropped;
    if |Frames(RecsOf(waiting))| + |Frame(RecOf(item))| <= bufsize
    then Book(b.filed, Some(waiting + [item]), dropped)
    else Book(b.filed, Some(waiting), dropped + 1)
  }

  function Filed(b: Book, item: Item, note: Item): Book {
    Book(b.Held() + (if b.Unreported() > 0 then [note] else []) + [item], None, b.dropped)
  }

  function BookEvent(bs: Books, logType: nat, ev: Rec, gotLock: bool, magic: nat, stamp: seq<byte>): Books {
    var id := NextRecId(bs.recId, logType);
    var b := bs.Log(logType);
    if !gotLock then
      bs.(recId := id).WithLog(logType, Buffered(b, Event(id, ev), BufSize(logType)))
    else
      var noteId := NextRecId(id, logType);
      var note := Note(noteId, b.dropped, magic, stamp);
      bs.(recId := if b.Unreported() > 0 then noteId else id).WithLog(logType, Filed(b, Event(id, ev), note))
  }

  /** The bytes of one log are those of its book. */
  ghost predicate Keeps(s: Side, h: Header, b: Book) {
    && IsLog(s.file, h, RecsOf(b.filed))
    && s.buf.Some? == b.waiting.Some?
    && (s.buf.Some? ==> s.buf.value == Frames(RecsOf(b.waiting.value)) && ValidRecs(RecsOf(b.waiting.value)))
    && s.droppedEvt == b.dropped
  }

  lemma {:induction false} RecsOfAppend(a: seq<Item>, b: seq<Item>)
    ensures RecsOf(a + b) == RecsOf(a) + RecsOf(b)
  {
  }

  lemma {:induction false} FileGrows(file: seq<byte>, h: Header, a: seq<Item>, b: seq<Item>)
    requires IsLog(file, h, RecsOf(a)) && ValidRecs(RecsOf(b))
    ensures IsLog(file + Frames(RecsOf(b)), h, RecsOf(a + b))
  {
    hide IsLog, ValidRecs, Frames, RecsOf;
    RecsOfAppend(a, b);
    LogGrows(file, h, RecsOf(a), RecsOf(b));
  }

  lemma {:induction false} OneItem(i: Item)
    ensures RecsOf([i]) == [RecOf(i)] && Frames(RecsOf([i])) == Frame(RecOf(i))
  {
    hide Frame;
    FramesOne(RecOf(i));
    assert RecsOf([i]) == [RecOf(i)];
  }

  /** The records this write puts into file or buffer are valid; there is a note only when drops are reported. */
  ghost predicate Fits(bs: Books, logType: nat, ev: Rec, gotLock: bool, magic: nat, stamp: seq<byte>) {
    var id := NextRecId(bs.recId, logType);
    var b := bs.Log(logType);
    && logType in {0, 1}
    && WithId(ev, id).Valid()
    && (gotLock && b.Unreported() > 0 ==> DropNote(NextRecId(id, logType), b.dropped, magic, stamp).Valid())
  }

  /** Writing on the bytes and writing in the book agree. */
  lemma {:induction false} EventKeeps(d: Daemon, bs: Books, logType: nat, h: Header, ev: Rec, gotLock: bool,
      magic: nat, stamp: seq<byte>)
    requires d.recId == bs.recId && Keeps(d.Log(logType), h, bs.Log(logType))
    requires Fits(bs, logType, ev, gotLock, magic, stamp)
    ensures var d' := LogEvent(d, logType, ev, gotLock, magic, stamp);
            var bs' := BookEvent(bs, logType, ev, gotLock, magic, stamp);
            && d'.recId == bs'.recId && Keeps(d'.Log(logType), h, bs'.Log(logType))
            && d'.Log(1 - logType) == d.Log(1 - logType) && bs'.Log(1 - logType) == bs.Log(1 - logType)
  {
    hide Frame, Frames, RecsOf, IsLog, ValidRecs, DropNote, WithId;
    var id := NextRecId(d.recId, logType);
    var s, b := d.Log(logType), bs.Log(logType);
    var item := Event(id, ev);
    OneItem(item);
    OneValid(RecOf(item));
    if !gotLock {
      BufferKeeps(s, h, b, item, BufSize(logType));
    } else {
      var note := Note(NextRecId(id, logType), b.dropped, magic, stamp);
      DrainKeeps(s, h, b, item, note);
    }
  }

  lemma {:induction false} OneValid(r: Rec)
    requires r.Valid()
    ensures ValidRecs([r])
  {
  }

  lemma {:induction false} BufferKeeps(s: Side, h: Header, b: Book, item: Item, bufsize: nat)
    requires Keeps(s, h, b) && RecOf(item).Valid()
    ensures Keeps(WriteToBuf(s, Frame(RecOf(item)), bufsize), h, Buffered(b, item, bufsize))
  {
    hide Frame, RecsOf, IsLog, Frames;
    OneItem(item);
    OneValid(RecOf(item));
    NoItems();
    var waiting := if b.waiting.None? then [] else b.waiting.value;
    RecsOfAppend(waiting, [item]);
    FramesAppend(RecsOf(waiting), RecsOf([item]));
    ValidAppend(RecsOf(waiting), RecsOf([item]));
  }

  lemma {:induction false} NoItems()
    ensures RecsOf([]) == [] && Frames(RecsOf([])) == [] && ValidRecs(RecsOf([]))
  {
    assert RecsOf([]) == [];
  }

  lemma {:induction false} DrainKeeps(s: Side, h: Header, b: Book, item: Item, note: Item)
    requires Keeps(s, h, b) && RecOf(item).Valid() && (b.Unreported() > 0 ==> RecOf(note).Valid())
    ensures var drained := Drain(s, Frame(RecOf(note)));
            Keeps(drained.(file := drained.file + Frame(RecOf(item))), h, Filed(b, item, note))
  {
    hide Frame, RecsOf, IsLog, Frames;
    OneItem(item);
    OneItem(note);
    OneValid(RecOf(item));
    if b.Unreported() > 0 {
      OneValid(RecOf(note));
    }
    var w := if b.waiting.Some? then b.waiting.value else [];
    var n := if b.Unreported() > 0 then [note] else [];
    NoItems();
    FileGrows(s.file, h, b.filed, w);
    FileGrows(s.file + Frames(RecsOf(w)), h, b.filed + w, n);
    FileGrows(s.file + Frames(RecsOf(w)) + Frames(RecsOf(n)), h, b.filed + w + n, [item]);
    if b.waiting.None? {
      assert s.file + [] == s.file;
      assert s.file + [] + [] == s.file;
    }
  }
}
