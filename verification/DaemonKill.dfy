/**
 evlogd killed in the middle of logging an event: the buffer, the note about drops and the event are three writes, and
 after each of them the two files say where a restart resumes.
 */
module DaemonKill {
  import opened Options
  import opened Bytes
  import opened Framing
  import opened EventWriter
  import opened WriterProperties
  import opened DaemonRuns
  import opened DaemonRestart

  // ----- the three writes

  /** The file after the first k of them; there is nothing to write where there is no buffer, or no drop. */
  function FileAfter(s: Side, note: seq<byte>, rbuf: seq<byte>, k: nat): seq<byte> {
    s.file
    + (if k >= 1 && s.buf.Some? then s.buf.value else [])
    + (if k >= 2 && s.buf.Some? && s.droppedEvt > 0 then note else [])
    + (if k >= 3 then rbuf else [])
  }

  /** The items that are then in it. */
  function ItemsAfter(b: Book, item: Item, note: Item, k: nat): seq<Item> {
    b.filed
    + (if k >= 1 && b.waiting.Some? then b.waiting.value else [])
    + (if k >= 2 && b.Unreported() > 0 then [note] else [])
    + (if k >= 3 then [item] else [])
  }

  /** All three are what logging the event under the lock does to the file. */
  lemma {:induction false} AllWrites(s: Side, note: seq<byte>, rbuf: seq<byte>, b: Book, item: Item, i: Item)
    ensures FileAfter(s, note, rbuf, 0) == s.file && FileAfter(s, note, rbuf, 3) == Drain(s, note).file + rbuf
    ensures ItemsAfter(b, item, i, 0) == b.filed && ItemsAfter(b, item, i, 3) == Filed(b, item, i).filed
  {
  }

  lemma {:induction false} FileAfterIsLog(s: Side, h: Header, b: Book, item: Item, note: Item, k: nat)
    requires Keeps(s, h, b) && RecOf(item).Valid() && (b.Unreported() > 0 ==> RecOf(note).Valid())
    ensures IsLog(FileAfter(s, Frame(RecOf(note)), Frame(RecOf(item)), k), h, RecsOf(ItemsAfter(b, item, note, k)))
  {
    hide Frame, RecsOf, IsLog, Frames, ValidRecs;
    var w := if k >= 1 && b.waiting.Some? then b.waiting.value else [];
    var n := if k >= 2 && b.Unreported() > 0 then [note] else [];
    var e := if k >= 3 then [item] else [];
    NoItems();
    OneItem(item);
    OneItem(note);
    OneValid(RecOf(item));
    if b.Unreported() > 0 {
      OneValid(RecOf(note));
    }
    FileGrows(s.file, h, b.filed, w);
    FileGrows(s.file + Frames(RecsOf(w)), h, b.filed + w, n);
    FileGrows(s.file + Frames(RecsOf(w)) + Frames(RecsOf(n)), h, b.filed + w + n, e);
  }

  // ----- what the items of a log look like

  /** The log ends in a note and the event it outran. */
  predicate Outrun(items: seq<Item>) {
    |items| >= 2 && items[|items| - 2].Note? && items[|items| - 1].id < items[|items| - 2].id
  }

  /** No id but that of a note that outran the last item is above the last item's. */
  ghost predicate LastIsTop(items: seq<Item>) {
    forall i :: 0 <= i < |items| - 1 ==> items[i].id < items[|items| - 1].id || (Outrun(items) && i == |items| - 2)
  }

  /** What waits is in order and newer than everything filed. */
  ghost predicate WaitsBehind(filed: seq<Item>, waiting: seq<Item>) {
    Increasing(waiting) && forall i <- filed, j <- waiting :: i.id < j.id
  }

  ghost predicate InOrder(b: Book) {
    LastIsTop(b.filed) && (b.waiting.Some? ==> WaitsBehind(b.filed, b.waiting.value))
  }

  ghost predicate BooksInOrder(bs: Books) {
    InOrder(bs.pub) && InOrder(bs.pvt)
  }

  ghost predicate Newer(b: Book, id: nat) {
    forall i <- b.Held() :: i.id < id
  }

  lemma {:induction false} BufferedInOrder(b: Book, item: Item, bufsize: nat)
    requires InOrder(b) && Newer(b, item.id)
    ensures InOrder(Buffered(b, item, bufsize))
  {
    var w := if b.waiting.Some? then b.waiting.value else [];
    assert b.Held() == b.filed + w;
    OneMoreWaits(b.filed, w, item);
    hide Frames, Frame, RecsOf, LastIsTop, WaitsBehind, Newer;
  }

  lemma {:induction false} OneMoreWaits(filed: seq<Item>, w: seq<Item>, item: Item)
    requires w == [] || WaitsBehind(filed, w)
    requires forall i <- filed + w :: i.id < item.id
    ensures WaitsBehind(filed, w + [item]) && WaitsBehind(filed, [])
  {
    assert forall i <- filed :: i in filed + w;
    assert forall k :: 0 <= k < |w| ==> (w + [item])[k] == w[k] && w[k] in filed + w;
  }

  lemma {:induction false} TopAppended(items: seq<Item>, i: Item)
    requires forall j <- items :: j.id < i.id
    ensures LastIsTop(items + [i])
  {
    var all := items + [i];
    assert forall k :: 0 <= k < |items| ==> all[k] == items[k] && items[k] in items;
  }

  lemma {:induction false} OutrunAppended(items: seq<Item>, note: Item, item: Item)
    requires (forall j <- items :: j.id < item.id) && item.id < note.id && note.Note?
    ensures LastIsTop(items + [note] + [item])
  {
    var all := items + [note] + [item];
    assert forall k :: 0 <= k < |items| ==> all[k] == items[k] && items[k] in items;
  }

  lemma {:induction false} WaitingOnTop(b: Book)
    requires InOrder(b)
    ensures LastIsTop(b.Held())
  {
    if b.waiting.Some? && b.waiting.value != [] {
      var w := b.waiting.value;
      var n := |w| - 1;
      assert b.Held() == (b.filed + w[..n]) + [w[n]];
      assert forall k :: 0 <= k < n ==> w[..n][k] == w[k];
      TopAppended(b.filed + w[..n], w[n]);
    } else {
      assert b.Held() == b.filed;
    }
  }

  /** After each of the three writes the last item is the top one, or outrun by the note. */
  lemma {:induction false} ItemsInOrder(b: Book, item: Item, note: Item, k: nat)
    requires InOrder(b) && note.Note? && Newer(b, item.id) && item.id < note.id
    ensures LastIsTop(ItemsAfter(b, item, note, k))
  {
    WaitingOnTop(b);
    var held, items := b.Held(), ItemsAfter(b, item, note, k);
    if k == 0 {
      assert items == b.filed;
    } else if k == 1 || (k == 2 && b.Unreported() == 0) {
      assert items == held;
    } else if k == 2 {
      assert items == held + [note];
      TopAppended(held, note);
    } else if b.Unreported() == 0 {
      assert items == held + [item];
      TopAppended(held, item);
    } else {
      assert items == held + [note] + [item];
      OutrunAppended(held, note, item);
    }
  }

  lemma {:induction false} FiledInOrder(b: Book, item: Item, note: Item)
    requires InOrder(b) && item.Event? && note.Note? && Newer(b, item.id) && item.id < note.id
    ensures InOrder(Filed(b, item, note))
  {
    hide InOrder, LastIsTop, ItemsAfter;
    ItemsInOrder(b, item, note, 3);
    AllWrites(Side([], None, 0), [], [], b, item, note);
    FiledHoldsAll(b, item, note);
  }

  lemma {:induction false} FiledHoldsAll(b: Book, item: Item, note: Item)
    requires LastIsTop(Filed(b, item, note).filed)
    ensures InOrder(Filed(b, item, note))
  {
    hide LastIsTop;
  }

  lemma {:induction false} StepInOrder(l: Ledger, s: Submission)
    requires s.logType in {0, 1} && WriterInvariant(l.bs) && BooksInOrder(l.bs)
    ensures BooksInOrder(Step(l, s).bs)
  {
    hide InOrder, Buffered, Filed, Increasing, Overflowed;
    var id, b := NextRecId(l.bs.recId, s.logType), l.bs.Log(s.logType);
    assert IdsSound(b, s.logType, l.bs.recId);
    BufferedInOrder(b, Event(id, s.ev), BufSize(s.logType));
    FiledInOrder(b, Event(id, s.ev), Note(NextRecId(id, s.logType), b.dropped, s.magic, s.stamp));
  }

  lemma {:induction false} RunInOrder(l: Ledger, subs: seq<Submission>)
    requires ValidRun(subs) && WriterInvariant(l.bs) && BooksInOrder(l.bs)
    ensures BooksInOrder(Run(l, subs).bs)
    decreases |subs|
  {
    hide WriterInvariant, Step, BooksInOrder;
    if subs != [] {
      RunInOrder(l, subs[..|subs| - 1]);
      RunKeepsInvariant(l, subs[..|subs| - 1]);
      StepInOrder(Run(l, subs[..|subs| - 1]), subs[|subs| - 1]);
    }
  }

  // ----- where a restart resumes

  /** The note that outran the last event is reached by the header, or by what the other log yields. */
  predicate NoteReached(items: seq<Item>, h: Header, others: seq<Item>, oh: Header) {
    Outrun(items) ==>
      var id := items[|items| - 2].id;
      id <= h.lastRecId || (others != [] && (id <= others[|others| - 1].id || id <= oh.lastRecId))
  }

  /** A restart resumes at or above all ids of two such logs exactly when it reaches the notes that outran their end. */
  lemma {:induction false} AboveExactlyWhen(file: seq<byte>, h: Header, items: seq<Item>, ofile: seq<byte>, oh: Header,
      others: seq<Item>)
    requires IsLog(file, h, RecsOf(items)) && IsLog(ofile, oh, RecsOf(others)) && LastIsTop(items) && LastIsTop(others)
    ensures (forall i <- items + others :: i.id <= Restart(file, ofile))
       <==> NoteReached(items, h, others, oh) && NoteReached(others, oh, items, h)
  {
    OpenedIs(file, h, items);
    OpenedIs(ofile, oh, others);
    hide IsLog, OpenedRecId, RecsOf;
    var at := Restart(file, ofile);
    HighestOf(items, at);
    HighestOf(others, at);
    assert (forall i <- items + others :: i.id <= at)
        == ((forall i <- items :: i.id <= at) && forall i <- others :: i.id <= at);
  }

  lemma {:induction false} HighestOf(items: seq<Item>, at: nat)
    requires LastIsTop(items) && (items != [] ==> items[|items| - 1].id <= at)
    ensures (forall i <- items :: i.id <= at) <==> (Outrun(items) ==> items[|items| - 2].id <= at)
  {
    if Outrun(items) {
      assert items[|items| - 2] in items;
    }
  }

  /** Where a daemon resumes that was killed after the first k writes of logging s under the lock. */
  function KilledAt(d: Daemon, s: Submission, k: nat): nat {
    var id := NextRecId(d.recId, s.logType);
    var side := d.Log(s.logType);
    var note := DropNote(NextRecId(id, s.logType), side.droppedEvt, s.magic, s.stamp);
    Restart(FileAfter(side, Frame(note), Frame(WithId(s.ev, id)), k), if s.logType == 1 then d.pvt.file else d.pub.file)
  }

  /** The items in the log of s after the first k writes, when its event is the next to be logged. */
  function ItemsAt(bs: Books, s: Submission, k: nat): seq<Item> {
    var id, b := NextRecId(bs.recId, s.logType), bs.Log(s.logType);
    ItemsAfter(b, Event(id, s.ev), Note(NextRecId(id, s.logType), b.dropped, s.magic, s.stamp), k)
  }

  function OtherItems(bs: Books, s: Submission): seq<Item> {
    if s.logType == 1 then bs.pvt.filed else bs.pub.filed
  }

  /** Killed there, the daemon resumes at or above every id present in the two logs. */
  ghost predicate KilledAbove(d: Daemon, bs: Books, s: Submission, k: nat) {
    forall i <- ItemsAt(bs, s, k) + OtherItems(bs, s) :: i.id <= KilledAt(d, s, k)
  }

  /** Both logs well-formed and in order, and an event about to be logged under the lock. */
  ghost predicate Writing(d: Daemon, bs: Books, hPub: Header, hPvt: Header, s: Submission) {
    && Stores(d, hPub, hPvt, bs) && WriterInvariant(bs) && BooksInOrder(bs) && FitsNext(bs, s) && s.gotLock
    && hPub.lastRecId <= bs.recId && hPvt.lastRecId <= bs.recId
  }

  /** The files are then logs of these items. */
  lemma {:induction false} FilesAt(d: Daemon, bs: Books, hPub: Header, hPvt: Header, s: Submission, k: nat)
    requires Writing(d, bs, hPub, hPvt, s)
    ensures var h, oh := if s.logType == 1 then hPub else hPvt, if s.logType == 1 then hPvt else hPub;
            exists file, ofile ::
              && IsLog(file, h, RecsOf(ItemsAt(bs, s, k))) && IsLog(ofile, oh, RecsOf(OtherItems(bs, s)))
              && KilledAt(d, s, k) == Restart(file, ofile)
    ensures LastIsTop(ItemsAt(bs, s, k)) && LastIsTop(OtherItems(bs, s))
  {
    hide IsLog, Restart, RecsOf, LastIsTop, FileAfter, ItemsAfter, Frame, DropNote;
    var id, b, side := NextRecId(bs.recId, s.logType), bs.Log(s.logType), d.Log(s.logType);
    var item, note := Event(id, s.ev), Note(NextRecId(id, s.logType), b.dropped, s.magic, s.stamp);
    var h := if s.logType == 1 then hPub else hPvt;
    FileAfterIsLog(side, h, b, item, note, k);
    assert IdsSound(b, s.logType, bs.recId);
    ItemsInOrder(b, item, note, k);
    var file := FileAfter(side, Frame(RecOf(note)), Frame(RecOf(item)), k);
    var ofile := if s.logType == 1 then d.pvt.file else d.pub.file;
    assert KilledAt(d, s, k) == Restart(file, ofile);
  }

  /**
   Killed after the first k of the three writes, the daemon resumes at or above all ids present exactly when the notes
   that outran the end of either log are reached.
   */
  lemma {:induction false} KilledDuringWrite(d: Daemon, bs: Books, hPub: Header, hPvt: Header, s: Submission, k: nat)
    requires Writing(d, bs, hPub, hPvt, s)
    ensures var h, oh := if s.logType == 1 then hPub else hPvt, if s.logType == 1 then hPvt else hPub;
            var items, others := ItemsAt(bs, s, k), OtherItems(bs, s);
            KilledAbove(d, bs, s, k) <==> NoteReached(items, h, others, oh) && NoteReached(others, oh, items, h)
  {
    FilesAt(d, bs, hPub, hPvt, s, k);
    hide Writing, IsLog, RecsOf, LastIsTop, ItemsAt, KilledAt, NoteReached, Restart;
    var h, oh := if s.logType == 1 then hPub else hPvt, if s.logType == 1 then hPvt else hPub;
    var file, ofile :| && IsLog(file, h, RecsOf(ItemsAt(bs, s, k))) && IsLog(ofile, oh, RecsOf(OtherItems(bs, s)))
                       && KilledAt(d, s, k) == Restart(file, ofile);
    AboveExactlyWhen(file, h, ItemsAt(bs, s, k), ofile, oh, OtherItems(bs, s));
  }

  /** What the last item says when its id is newer than the counter. */
  lemma {:induction false} NewestDecides(d: Daemon, bs: Books, hPub: Header, hPvt: Header, s: Submission, k: nat)
    requires Writing(d, bs, hPub, hPvt, s)
    requires var items := ItemsAt(bs, s, k); items != [] && bs.recId < items[|items| - 1].id
    ensures KilledAt(d, s, k) == ItemsAt(bs, s, k)[|ItemsAt(bs, s, k)| - 1].id
  {
    hide *;
    FilesAt(d, bs, hPub, hPvt, s, k);
    AllOld(d, bs, hPub, hPvt, s);
    var h, oh := if s.logType == 1 then hPub else hPvt, if s.logType == 1 then hPvt else hPub;
    var file, ofile :| && IsLog(file, h, RecsOf(ItemsAt(bs, s, k))) && IsLog(ofile, oh, RecsOf(OtherItems(bs, s)))
                       && KilledAt(d, s, k) == Restart(file, ofile);
    NewestOpens(file, h, ItemsAt(bs, s, k), ofile, oh, OtherItems(bs, s), bs.recId);
  }

  lemma {:induction false} AllOld(d: Daemon, bs: Books, hPub: Header, hPvt: Header, s: Submission)
    requires Writing(d, bs, hPub, hPvt, s)
    ensures hPub.lastRecId <= bs.recId && hPvt.lastRecId <= bs.recId && s.logType in {0, 1}
    ensures forall i <- OtherItems(bs, s) :: i.id <= bs.recId
  {
    hide Stores, WriterInvariant, BooksInOrder;
    OthersAreOld(bs, s);
  }

  lemma {:induction false} NewestOpens(file: seq<byte>, h: Header, items: seq<Item>, ofile: seq<byte>, oh: Header,
      others: seq<Item>, recId: nat)
    requires IsLog(file, h, RecsOf(items)) && IsLog(ofile, oh, RecsOf(others))
    requires items != [] && recId < items[|items| - 1].id && h.lastRecId <= recId && oh.lastRecId <= recId
    requires forall i <- others :: i.id <= recId
    ensures Restart(file, ofile) == items[|items| - 1].id
  {
    hide IsLog, RecsOf, OpenedRecId;
    OpenedIs(file, h, items);
    OpenedIs(ofile, oh, others);
    assert others != [] ==> others[|others| - 1] in others;
  }

  lemma {:induction false} OthersAreOld(bs: Books, s: Submission)
    requires WriterInvariant(bs) && s.logType in {0, 1}
    ensures forall i <- OtherItems(bs, s) :: i.id <= bs.recId
  {
    var ob := bs.Log(1 - s.logType);
    assert IdsSound(ob, 1 - s.logType, bs.recId);
    assert forall i <- ob.filed :: i in ob.Held();
  }

  /** After the write of the buffer only a note that outran the end of the other log can be missed. */
  lemma {:induction false} AfterBuffer(d: Daemon, bs: Books, hPub: Header, hPvt: Header, s: Submission)
    requires Writing(d, bs, hPub, hPvt, s)
    requires var b := bs.Log(s.logType); b.waiting.Some? && b.waiting.value != []
    ensures var h, oh := if s.logType == 1 then hPub else hPvt, if s.logType == 1 then hPvt else hPub;
            KilledAbove(d, bs, s, 1) <==> NoteReached(OtherItems(bs, s), oh, bs.Log(s.logType).Held(), h)
  {
    HeldAtOne(bs, s);
    assert InOrder(bs.Log(s.logType));
    hide Writing, KilledAbove, ItemsAt, InOrder, Outrun;
    KilledDuringWrite(d, bs, hPub, hPvt, s, 1);
    NotOutrun(bs.Log(s.logType));
  }

  lemma {:induction false} HeldAtOne(bs: Books, s: Submission)
    ensures ItemsAt(bs, s, 1) == bs.Log(s.logType).Held()
  {
  }

  lemma {:induction false} NotOutrun(b: Book)
    requires InOrder(b) && b.waiting.Some? && b.waiting.value != []
    ensures !Outrun(b.Held())
  {
    hide LastIsTop;
    var w, held := b.waiting.value, b.Held();
    assert held[|held| - 1] == w[|w| - 1];
    if |w| >= 2 {
      assert held[|held| - 2] == w[|w| - 2];
    } else if b.filed != [] {
      assert held[|held| - 2] == b.filed[|b.filed| - 1] && b.filed[|b.filed| - 1] in b.filed && w[0] in w;
    }
  }

  /** After that of the note the daemon resumes at the note's id, above all. */
  lemma {:induction false} AfterNote(d: Daemon, bs: Books, hPub: Header, hPvt: Header, s: Submission)
    requires Writing(d, bs, hPub, hPvt, s) && bs.Log(s.logType).Unreported() > 0
    ensures KilledAt(d, s, 2) == NextRecId(NextRecId(bs.recId, s.logType), s.logType) && KilledAbove(d, bs, s, 2)
  {
    var id, b := NextRecId(bs.recId, s.logType), bs.Log(s.logType);
    var note := Note(NextRecId(id, s.logType), b.dropped, s.magic, s.stamp);
    assert ItemsAt(bs, s, 2) == b.Held() + [note];
    NewestDecides(d, bs, hPub, hPvt, s, 2);
    OthersAreOld(bs, s);
    assert IdsSound(b, s.logType, bs.recId);
    hide KilledAt, Writing, WriterInvariant;
  }

  /** After that of the event it resumes at the event's id, above all unless there was a note. */
  lemma {:induction false} AfterEvent(d: Daemon, bs: Books, hPub: Header, hPvt: Header, s: Submission)
    requires Writing(d, bs, hPub, hPvt, s)
    ensures KilledAt(d, s, 3) == NextRecId(bs.recId, s.logType)
    ensures KilledAbove(d, bs, s, 3) <==> bs.Log(s.logType).Unreported() == 0
  {
    var id, b := NextRecId(bs.recId, s.logType), bs.Log(s.logType);
    var note := Note(NextRecId(id, s.logType), b.dropped, s.magic, s.stamp);
    var before := b.Held() + if b.Unreported() > 0 then [note] else [];
    assert ItemsAt(bs, s, 3) == before + [Event(id, s.ev)];
    NewestDecides(d, bs, hPub, hPvt, s, 3);
    OthersAreOld(bs, s);
    assert IdsSound(b, s.logType, bs.recId);
    assert b.Unreported() > 0 ==> note in before && note in ItemsAt(bs, s, 3) + OtherItems(bs, s);
    hide KilledAt, Writing, WriterInvariant;
  }

  lemma {:induction false} RunsIntoWriting(d: Daemon, l: Ledger, hPub: Header, hPvt: Header, subs: seq<Submission>,
      s: Submission)
    requires Stores(d, hPub, hPvt, l.bs) && WriterInvariant(l.bs) && BooksInOrder(l.bs) && FittingRun(l, subs)
    requires hPub.lastRecId <= l.bs.recId && hPvt.lastRecId <= l.bs.recId
    requires s.gotLock && FitsNext(Run(l, subs).bs, s)
    ensures Writing(RunDaemon(d, subs), Run(l, subs).bs, hPub, hPvt, s)
  {
    hide Stores, WriterInvariant, BooksInOrder, FitsNext, FittingRun, Run, RunDaemon;
    FittingIsValid(l, subs);
    RunStores(d, l, hPub, hPvt, subs);
    RunKeepsInvariant(l, subs);
    RunInOrder(l, subs);
    RecIdGrows(l, subs);
  }

  /**
   Over every run of the daemon, killed after any of the three writes of logging the event that follows it: it resumes
   at or above all ids present exactly when the notes that outran the end of either log are reached. That is so after
   the note, after the event unless there was a note, and after the buffer unless the other log ends in such a note.
   */
  lemma {:induction false} KilledDuringWriteExactlyWhen(d: Daemon, l: Ledger, hPub: Header, hPvt: Header,
      subs: seq<Submission>, s: Submission, k: nat)
    requires Stores(d, hPub, hPvt, l.bs) && WriterInvariant(l.bs) && BooksInOrder(l.bs) && FittingRun(l, subs)
    requires hPub.lastRecId <= l.bs.recId && hPvt.lastRecId <= l.bs.recId
    requires s.gotLock && FitsNext(Run(l, subs).bs, s)
    ensures var d', bs := RunDaemon(d, subs), Run(l, subs).bs;
            var h, oh := if s.logType == 1 then hPub else hPvt, if s.logType == 1 then hPvt else hPub;
            var items, others, b := ItemsAt(bs, s, k), OtherItems(bs, s), bs.Log(s.logType);
            && (KilledAbove(d', bs, s, k) <==> NoteReached(items, h, others, oh) && NoteReached(others, oh, items, h))
            && (k == 1 && b.waiting.Some? && b.waiting.value != [] ==>
                  (KilledAbove(d', bs, s, k) <==> NoteReached(others, oh, items, h)))
            && (k == 2 && b.Unreported() > 0 ==> KilledAbove(d', bs, s, k))
            && (k == 3 ==> (KilledAbove(d', bs, s, k) <==> b.Unreported() == 0))
  {
    var d', bs := RunDaemon(d, subs), Run(l, subs).bs;
    hide *;
    RunsIntoWriting(d, l, hPub, hPvt, subs, s);
    KilledDuringWrite(d', bs, hPub, hPvt, s, k);
    if k == 1 && bs.Log(s.logType).waiting.Some? && bs.Log(s.logType).waiting.value != [] {
      AfterBuffer(d', bs, hPub, hPvt, s);
      HeldAtOne(bs, s);
    } else if k == 2 && bs.Log(s.logType).Unreported() > 0 {
      AfterNote(d', bs, hPub, hPvt, s);
    } else if k == 3 {
      AfterEvent(d', bs, hPub, hPvt, s);
    }
  }

  // ----- a run in which the buffer's write leaves the note of the other log out of reach

  lemma {:induction false} RunsOn(l: Ledger, subs: seq<Submission>, s: Submission)
    ensures Run(l, subs + [s]) == Step(Run(l, subs), s)
    ensures FittingRun(l, subs) && FitsNext(Run(l, subs).bs, s) ==> FittingRun(l, subs + [s])
  {
    assert (subs + [s])[..|subs|] == subs;
  }

  lemma {:induction false} OneWaits(b: Book, ev: Rec, id: nat)
    requires b.waiting.None? && ev.Valid() && id < 0x1_0000_0000
    ensures Buffered(b, Event(id, ev), BufSize(0)) == Book(b.filed, Some([Event(id, ev)]), 0)
  {
    hide Frame, RecsOf;
    NoItems();
    FrameLength(WithId(ev, id));
    assert [] + [Event(id, ev)] == [Event(id, ev)];
  }

  lemma {:induction false} NoteFits(id: nat, magic: nat, stamp: seq<byte>)
    requires DropNote(0, 1, magic, stamp).Valid() && id < 0x1_0000_0000
    ensures DropNote(id, 1, magic, stamp).Valid()
  {
  }

  /** One private event waits, with an id below that of the note which outran the end of the public log. */
  ghost predicate WaitsBelowNote(bs: Books) {
    && Outrun(bs.pub.filed) && bs.pvt.filed == [] && bs.pvt.dropped == 0
    && bs.pvt.waiting.Some? && |bs.pvt.waiting.value| == 1
    && 0 < bs.pvt.waiting.value[0].id < bs.pub.filed[|bs.pub.filed| - 2].id
  }

  lemma {:induction false} NoteIsMissed(bs: Books, hPub: Header, hPvt: Header, s: Submission)
    requires WaitsBelowNote(bs) && s.logType == 0 && hPub.lastRecId == hPvt.lastRecId == 0
    ensures !NoteReached(OtherItems(bs, s), hPub, ItemsAt(bs, s, 1), hPvt)
  {
    HeldAtOne(bs, s);
    assert bs.pvt.Held() == bs.pvt.waiting.value;
  }

  lemma {:induction false} LockedFits(bs: Books, s: Submission)
    requires s.logType == 0 && s.ev.Valid() && bs.recId + 2 < 0x1_0000_0000 && bs.pvt.dropped == 0
    ensures FitsNext(bs, s)
  {
  }

  /** Public events are dropped, a private one waits, and the next public one reports the drops under the lock. */
  lemma {:induction false} ReportWhileOtherWaits(ev: Rec, magic: nat, stamp: seq<byte>) returns (subs: seq<Submission>)
    requires ev.Valid() && DropNote(0, 1, magic, stamp).Valid()
    ensures FittingRun(NO_LEDGER, subs)
    ensures var bs := Run(NO_LEDGER, subs).bs;
            bs.recId < 0x1000_0000 && WaitsBelowNote(bs)
  {
    hide LockedOut, Run, FittingRun, Buffered, Frames, Frame, RecsOf;
    DropsAreReached(1, ev);
    var m := FirstDrop(NO_LEDGER, 1, ev, BufSize(1) + 1);
    subs := LockedOut(1, ev, m);
    LockedOutFits(NO_LEDGER, 1, ev, m);
    LockedOutOverflows(NO_LEDGER, 1, ev, m);
    var one, two := Submission(0, ev, false, 0, []), Submission(1, ev, true, magic, stamp);
    var l := Run(NO_LEDGER, subs);
    RunsOn(NO_LEDGER, subs, one);
    UnlockedFits(l.bs, one);
    OneWaits(l.bs.pvt, ev, NextRecId(l.bs.recId, 0));
    var l' := Step(l, one);
    RunsOn(NO_LEDGER, subs + [one], two);
    NoteFits(NextRecId(NextRecId(l'.bs.recId, 1), 1), magic, stamp);
    subs := subs + [one] + [two];
    var pub := Step(l', two).bs.pub;
    assert pub.filed[|pub.filed| - 2].Note?;
  }

  /** Killed between the write of the private buffer and that of the private event, it resumes below the public note. */
  lemma {:induction false} BufferLeavesNoteBehind(hPub: Header, hPvt: Header, ev: Rec, magic: nat, stamp: seq<byte>)
    requires hPub.Valid() && hPvt.Valid() && hPub.lastRecId == hPvt.lastRecId == 0
    requires ev.Valid() && DropNote(0, 1, magic, stamp).Valid()
    ensures exists subs: seq<Submission>, s: Submission ::
              && FittingRun(NO_LEDGER, subs) && s.gotLock && FitsNext(Run(NO_LEDGER, subs).bs, s)
              && !KilledAbove(RunDaemon(Fresh(hPub, hPvt), subs), Run(NO_LEDGER, subs).bs, s, 1)
  {
    hide *;
    var subs := ReportWhileOtherWaits(ev, magic, stamp);
    var s, bs := Submission(0, ev, true, magic, stamp), Run(NO_LEDGER, subs).bs;
    PrivateIsEmpty(bs);
    LockedFits(bs, s);
    FreshStores(hPub, hPvt);
    FreshInOrder();
    KilledDuringWriteExactlyWhen(Fresh(hPub, hPvt), NO_LEDGER, hPub, hPvt, subs, s, 1);
    NoteIsMissed(bs, hPub, hPvt, s);
  }

  lemma {:induction false} PrivateIsEmpty(bs: Books)
    requires WaitsBelowNote(bs)
    ensures bs.pvt.dropped == 0
  {
  }

  lemma {:induction false} FreshInOrder()
    ensures BooksInOrder(NO_LEDGER.bs)
  {
  }
}
