/** What evlogd's write path keeps over every run: ids, order, conservation, and what a restart resumes from. */
module WriterProperties {
  import opened Bytes
  import opened Framing
  import opened EventWriter

  /** One event handed to the writer, and whether the lock could be had. */
  datatype Submission = Submission(logType: nat, ev: Rec, gotLock: bool, magic: nat, stamp: seq<byte>)

  /** The books, and for each log every event it was ever handed, with the id it was given. */
  datatype Ledger = Ledger(bs: Books, pubOffered: seq<Item>, pvtOffered: seq<Item>)
  {
    function Offered(logType: nat): seq<Item> { if logType == 1 then pubOffered else pvtOffered }
  }

  function Step(l: Ledger, s: Submission): Ledger {
    var item := Event(NextRecId(l.bs.recId, s.logType), s.ev);
    Ledger(BookEvent(l.bs, s.logType, s.ev, s.gotLock, s.magic, s.stamp),
           l.pubOffered + (if s.logType == 1 then [item] else []),
           l.pvtOffered + (if s.logType == 1 then [] else [item]))
  }

  function Run(l: Ledger, subs: seq<Submission>): Ledger {
    if subs == [] then l else Step(Run(l, subs[..|subs| - 1]), subs[|subs| - 1])
  }

  // ----- conservation

  function EventsIn(items: seq<Item>): seq<Item> {
    if items == [] then []
    else EventsIn(items[..|items| - 1]) + if items[|items| - 1].Event? then [items[|items| - 1]] else []
  }

  /** The sum of the counts that the notes among items report. */
  function Reported(items: seq<Item>): nat {
    if items == [] then 0
    else Reported(items[..|items| - 1]) + if items[|items| - 1].Note? then items[|items| - 1].count else 0
  }

  /** a can be got from b by leaving out elements. */
  predicate Subsequence(a: seq<Item>, b: seq<Item>)
    decreases |b|
  {
    if a == [] then true
    else if b == [] then false
    else
      || (a[|a| - 1] == b[|b| - 1] && Subsequence(a[..|a| - 1], b[..|b| - 1]))
      || Subsequence(a, b[..|b| - 1])
  }

  /**
   The log holds a subsequence, in order, of the events offered to it; those missing are as many as its
   notes and its pending drop count say.
   */
  ghost predicate Conserved(b: Book, offered: seq<Item>) {
    && Subsequence(EventsIn(b.Held()), offered)
    && |offered| == |EventsIn(b.Held())| + Reported(b.Held()) + b.Unreported()
  }

  lemma {:induction false} AppendOne(items: seq<Item>, i: Item)
    ensures EventsIn(items + [i]) == EventsIn(items) + if i.Event? then [i] else []
    ensures Reported(items + [i]) == Reported(items) + if i.Note? then i.count else 0
  {
    assert (items + [i])[..|items|] == items;
  }

  lemma {:induction false} SubsequenceGrows(a: seq<Item>, b: seq<Item>, i: Item)
    requires Subsequence(a, b)
    ensures Subsequence(a, b + [i]) && Subsequence(a + [i], b + [i])
  {
    assert (b + [i])[..|b|] == b;
    assert (a + [i])[..|a|] == a;
  }

  lemma {:induction false} HeldAfterBuffering(b: Book, item: Item, bufsize: nat)
    ensures var b' := Buffered(b, item, bufsize);
            || (b'.Held() == b.Held() + [item] && b'.Unreported() == b.Unreported())
            || (b'.Held() == b.Held() && b'.Unreported() == b.Unreported() + 1)
  {
    hide Frames, Frame, RecsOf;
    if b.waiting.Some? {
      assert b.filed + (b.waiting.value + [item]) == b.Held() + [item];
    }
  }

  lemma {:induction false} HeldAfterFiling(b: Book, item: Item, note: Item)
    ensures Filed(b, item, note).Held()
         == (if b.Unreported() > 0 then b.Held() + [note] else b.Held()) + [item]
    ensures Filed(b, item, note).Unreported() == 0
  {
  }

  lemma {:induction false} BufferingConserves(b: Book, offered: seq<Item>, item: Item, bufsize: nat)
    requires Conserved(b, offered) && item.Event?
    ensures Conserved(Buffered(b, item, bufsize), offered + [item])
  {
    hide Buffered;
    HeldAfterBuffering(b, item, bufsize);
    AppendOne(b.Held(), item);
    SubsequenceGrows(EventsIn(b.Held()), offered, item);
  }

  lemma {:induction false} FilingConserves(b: Book, offered: seq<Item>, item: Item, note: Item)
    requires Conserved(b, offered) && item.Event? && note.Note? && note.count == b.dropped
    ensures Conserved(Filed(b, item, note), offered + [item])
  {
    hide Filed, Subsequence, EventsIn, Reported;
    HeldAfterFiling(b, item, note);
    AppendOne(b.Held(), note);
    var held := if b.Unreported() > 0 then b.Held() + [note] else b.Held();
    AppendOne(held, item);
    assert EventsIn(b.Held()) + [] == EventsIn(b.Held());
    SubsequenceGrows(EventsIn(b.Held()), offered, item);
  }

  lemma {:induction false} StepConserves(l: Ledger, s: Submission, logType: nat)
    requires s.logType in {0, 1} && logType in {0, 1} && Conserved(l.bs.Log(logType), l.Offered(logType))
    ensures Conserved(Step(l, s).bs.Log(logType), Step(l, s).Offered(logType))
  {
    hide Conserved, Buffered, Filed;
    var id := NextRecId(l.bs.recId, s.logType);
    var b := l.bs.Log(logType);
    if s.logType != logType {
      assert l.Offered(logType) + [] == l.Offered(logType);
    } else if s.gotLock {
      FilingConserves(b, l.Offered(logType), Event(id, s.ev),
                      Note(NextRecId(id, logType), b.dropped, s.magic, s.stamp));
    } else {
      BufferingConserves(b, l.Offered(logType), Event(id, s.ev), BufSize(logType));
    }
  }

  ghost predicate ValidRun(subs: seq<Submission>) {
    forall k :: 0 <= k < |subs| ==> subs[k].logType in {0, 1}
  }

  /** Over every run, each log conserves the events it was offered. */
  lemma {:induction false} EventsAreConserved(l: Ledger, subs: seq<Submission>, logType: nat)
    requires ValidRun(subs) && logType in {0, 1} && Conserved(l.bs.Log(logType), l.Offered(logType))
    ensures Conserved(Run(l, subs).bs.Log(logType), Run(l, subs).Offered(logType))
    decreases |subs|
  {
    hide Conserved, Step;
    if subs != [] {
      EventsAreConserved(l, subs[..|subs| - 1], logType);
      StepConserves(Run(l, subs[..|subs| - 1]), subs[|subs| - 1], logType);
    }
  }

  // ----- ids

  /** Ids have the log's parity, are at most the counter, and no two records of the log share one. */
  ghost predicate IdsSound(b: Book, logType: nat, recId: nat) {
    && (forall i <- b.Held() :: i.id % 2 == logType && i.id <= recId)
    && (forall i, j :: 0 <= i < j < |b.Held()| ==> b.Held()[i].id != b.Held()[j].id)
  }

  ghost predicate Increasing(items: seq<Item>) {
    forall i, j :: 0 <= i < j < |items| ==> items[i].id < items[j].id
  }

  /** Some event was dropped since the log was last clean. */
  predicate Overflowed(b: Book) {
    b.Unreported() > 0 || exists i <- b.Held() :: i.Note?
  }

  ghost predicate WriterInvariant(bs: Books) {
    forall logType <- {0, 1} ::
      && IdsSound(bs.Log(logType), logType, bs.recId)
      && (!Overflowed(bs.Log(logType)) ==> Increasing(bs.Log(logType).Held()))
  }

  lemma {:induction false} LogKeepsInvariant(b: Book, logType: nat, recId: nat, b': Book, recId': nat, item: Item,
      note: Item)
    requires logType in {0, 1} && item.Event? && note.Note?
    requires IdsSound(b, logType, recId) && (!Overflowed(b) ==> Increasing(b.Held()))
    requires item.id == NextRecId(recId, logType) && note.id == NextRecId(item.id, logType)
    requires || (b'.Held() == b.Held() + [item] && b'.Unreported() == b.Unreported() && recId' >= item.id)
             || (b'.Held() == b.Held() && b'.Unreported() > 0 && recId' >= item.id)
             || (b'.Held() == b.Held() + [note] + [item] && recId' >= note.id)
    ensures IdsSound(b', logType, recId')
    ensures !Overflowed(b') ==> Increasing(b'.Held())
  {
    if b'.Held() == b.Held() + [note] + [item] {
      assert note in b'.Held();
    } else if b'.Held() == b.Held() + [item] && !Overflowed(b') {
      assert forall i <- b.Held() :: i in b'.Held();
    }
  }

  /** Every step keeps ids unique, of their log's parity, and in order as long as nothing overflowed. */
  lemma {:induction false} StepKeepsInvariant(l: Ledger, s: Submission)
    requires s.logType in {0, 1} && WriterInvariant(l.bs)
    ensures WriterInvariant(Step(l, s).bs)
  {
    hide Buffered, Filed, Increasing, Overflowed;
    var id := NextRecId(l.bs.recId, s.logType);
    var b := l.bs.Log(s.logType);
    var item, note := Event(id, s.ev), Note(NextRecId(id, s.logType), b.dropped, s.magic, s.stamp);
    HeldAfterBuffering(b, item, BufSize(s.logType));
    HeldAfterFiling(b, item, note);
    var bs' := Step(l, s).bs;
    LogKeepsInvariant(b, s.logType, l.bs.recId, bs'.Log(s.logType), bs'.recId, item, note);
    var other := 1 - s.logType;
    assert bs'.Log(other) == l.bs.Log(other);
    assert IdsSound(bs'.Log(other), other, bs'.recId);
  }

  lemma {:induction false} RunKeepsInvariant(l: Ledger, subs: seq<Submission>)
    requires ValidRun(subs) && WriterInvariant(l.bs)
    ensures WriterInvariant(Run(l, subs).bs)
    decreases |subs|
  {
    hide WriterInvariant, Step;
    if subs != [] {
      RunKeepsInvariant(l, subs[..|subs| - 1]);
      StepKeepsInvariant(Run(l, subs[..|subs| - 1]), subs[|subs| - 1]);
    }
  }

  /** No two records of the two logs ever share an id. */
  lemma {:induction false} IdsGloballyUnique(bs: Books, i: Item, j: Item)
    requires WriterInvariant(bs) && i in bs.pub.Held() && j in bs.pvt.Held()
    ensures i.id % 2 == 1 && j.id % 2 == 0 && i.id != j.id
  {
    assert IdsSound(bs.Log(1), 1, bs.recId) && IdsSound(bs.Log(0), 0, bs.recId);
  }

  /** The write that reports drops is exactly the one that breaks the order: its note outruns the event behind it. */
  lemma {:induction false} OrderBreaksExactlyOnReport(b: Book, logType: nat, recId: nat, ev: Rec, magic: nat,
      stamp: seq<byte>)
    requires logType in {0, 1} && IdsSound(b, logType, recId) && Increasing(b.Held())
    ensures var id := NextRecId(recId, logType);
            var b' := Filed(b, Event(id, ev), Note(NextRecId(id, logType), b.dropped, magic, stamp));
            Increasing(b'.Held()) <==> b.Unreported() == 0
  {
    var id := NextRecId(recId, logType);
    var item, note := Event(id, ev), Note(NextRecId(id, logType), b.dropped, magic, stamp);
    HeldAfterFiling(b, item, note);
    var held := Filed(b, item, note).Held();
    hide Filed;
    if b.Unreported() > 0 {
      assert held[|held| - 2] == note && held[|held| - 1] == item;
    }
  }

  /** The same event handed in n times without the lock to be had. */
  function LockedOut(logType: nat, ev: Rec, n: nat): seq<Submission> {
    seq(n, _ => Submission(logType, ev, false, 0, []))
  }

  lemma {:induction false} LockedOutNext(l: Ledger, logType: nat, ev: Rec, n: nat)
    ensures Run(l, LockedOut(logType, ev, 0)) == l
    ensures Run(l, LockedOut(logType, ev, n + 1))
         == Step(Run(l, LockedOut(logType, ev, n)), Submission(logType, ev, false, 0, []))
  {
    assert LockedOut(logType, ev, n + 1)[..n] == LockedOut(logType, ev, n);
  }

  /**
   Such a state is reached: over a run in which the lock cannot be had the event fills the buffer, if there is none
   yet, and more of them than the buffer has bytes are not all kept. The other log is not touched.
   */
  lemma {:induction false} LockedOutOverflows(l: Ledger, logType: nat, ev: Rec, n: nat)
    requires logType in {0, 1} && ev.entry.Valid() && l.bs.Log(logType).waiting.None?
    requires l.bs.recId + 2 * n < 0x1_0000_0000
    ensures var l' := Run(l, LockedOut(logType, ev, n));
            var b := l'.bs.Log(logType);
            && l.bs.recId + n <= l'.bs.recId <= l.bs.recId + 2 * n && l'.bs.Log(1 - logType) == l.bs.Log(1 - logType)
            && b.filed == l.bs.Log(logType).filed
            && (n > 0 ==> b.waiting.Some?) && (n > BufSize(logType) ==> b.Unreported() > 0)
            && (b.waiting.Some? ==>
                  && |Frames(RecsOf(b.waiting.value))| <= BufSize(logType)
                  && (b.dropped > 0 || n <= |Frames(RecsOf(b.waiting.value))|))
  {
    hide Frame, Frames, RecsOf, LockedOut, Buffered, Run, NextRecId;
    LockedOutNext(l, logType, ev, if n > 0 then n - 1 else 0);
    if n > 0 {
      LockedOutOverflows(l, logType, ev, n - 1);
      var before := Run(l, LockedOut(logType, ev, n - 1));
      BufferingGrows(before.bs.Log(logType), Event(NextRecId(before.bs.recId, logType), ev), BufSize(logType));
    }
  }

  lemma {:induction false} BufferingGrows(b: Book, item: Item, bufsize: nat)
    requires RecOf(item).entry.Valid()
    ensures var w := if b.waiting.Some? then b.waiting.value else [];
            var b' := Buffered(b, item, bufsize);
            && b'.waiting.Some? && b'.filed == b.filed
            && (b'.waiting.value == w || |Frames(RecsOf(w))| < |Frames(RecsOf(b'.waiting.value))| <= bufsize)
            && b'.dropped == (if b.waiting.Some? then b.dropped else 0) + (if b'.waiting.value == w then 1 else 0)
            && (b.waiting.None? ==> |Frames(RecsOf(w))| == 0)
  {
    hide Frame, Frames, RecsOf;
    var w := if b.waiting.Some? then b.waiting.value else [];
    FrameLength(RecOf(item));
    NoItems();
    OneItem(item);
    RecsOfAppend(w, [item]);
    FramesAppend(RecsOf(w), RecsOf([item]));
  }

  /** So in some run exactly one event has been dropped. */
  lemma {:induction false} FirstDrop(l: Ledger, logType: nat, ev: Rec, n: nat) returns (m: nat)
    requires logType in {0, 1} && l.bs.Log(logType).waiting.None?
    requires Run(l, LockedOut(logType, ev, n)).bs.Log(logType).Unreported() > 0
    ensures m <= n && Run(l, LockedOut(logType, ev, m)).bs.Log(logType).Unreported() == 1
  {
    hide Frames, Frame, RecsOf, LockedOut, Buffered, Run, NextRecId;
    LockedOutNext(l, logType, ev, if n > 0 then n - 1 else 0);
    if Run(l, LockedOut(logType, ev, n)).bs.Log(logType).Unreported() == 1 {
      m := n;
    } else {
      var before := Run(l, LockedOut(logType, ev, n - 1));
      HeldAfterBuffering(before.bs.Log(logType), Event(NextRecId(before.bs.recId, logType), ev), BufSize(logType));
      m := FirstDrop(l, logType, ev, n - 1);
    }
  }
}
