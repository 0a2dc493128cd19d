/**
 Whole runs of evlogd on the bytes of its files and buffers: they are the frames of the books at every moment,
 so what WriterProperties says about books is said about the files.
 */
module DaemonRuns {
  import opened Options
  import opened Framing
  import opened EventWriter
  import opened WriterProperties

  function Submit(d: Daemon, s: Submission): Daemon {
    LogEvent(d, s.logType, s.ev, s.gotLock, s.magic, s.stamp)
  }

  function RunDaemon(d: Daemon, subs: seq<Submission>): Daemon {
    if subs == [] then d else Submit(RunDaemon(d, subs[..|subs| - 1]), subs[|subs| - 1])
  }

  ghost predicate FitsNext(bs: Books, s: Submission) {
    Fits(bs, s.logType, s.ev, s.gotLock, s.magic, s.stamp)
  }

  /** Every event of the run fits when its turn comes. */
  ghost predicate FittingRun(l: Ledger, subs: seq<Submission>) {
    subs == [] ||
    (FittingRun(l, subs[..|subs| - 1]) && FitsNext(Run(l, subs[..|subs| - 1]).bs, subs[|subs| - 1]))
  }

  lemma {:induction false} FittingIsValid(l: Ledger, subs: seq<Submission>)
    requires FittingRun(l, subs)
    ensures ValidRun(subs)
    decreases |subs|
  {
    hide Run;
    if subs != [] {
      FittingIsValid(l, subs[..|subs| - 1]);
    }
  }

  /** The daemon's files and buffers are those of the books. */
  ghost predicate Stores(d: Daemon, hPub: Header, hPvt: Header, bs: Books) {
    d.recId == bs.recId && Keeps(d.pub, hPub, bs.pub) && Keeps(d.pvt, hPvt, bs.pvt)
  }

  lemma {:induction false} StepStores(d: Daemon, l: Ledger, hPub: Header, hPvt: Header, s: Submission)
    requires Stores(d, hPub, hPvt, l.bs) && FitsNext(l.bs, s)
    ensures Stores(Submit(d, s), hPub, hPvt, Step(l, s).bs)
  {
    hide Keeps, LogEvent, BookEvent;
    EventKeeps(d, l.bs, s.logType, if s.logType == 1 then hPub else hPvt, s.ev, s.gotLock, s.magic, s.stamp);
  }

  lemma {:induction false} RunStores(d: Daemon, l: Ledger, hPub: Header, hPvt: Header, subs: seq<Submission>)
    requires Stores(d, hPub, hPvt, l.bs) && FittingRun(l, subs)
    ensures Stores(RunDaemon(d, subs), hPub, hPvt, Run(l, subs).bs)
    decreases |subs|
  {
    hide Stores, FitsNext, Submit, Step;
    if subs != [] {
      RunStores(d, l, hPub, hPvt, subs[..|subs| - 1]);
      StepStores(RunDaemon(d, subs[..|subs| - 1]), Run(l, subs[..|subs| - 1]), hPub, hPvt, subs[|subs| - 1]);
    }
  }

  // ----- from two freshly created logs

  const NO_BOOK: Book := Book([], None, 0)

  const NO_LEDGER: Ledger := Ledger(Books(0, NO_BOOK, NO_BOOK), [], [])

  function Fresh(hPub: Header, hPvt: Header): Daemon {
    Daemon(0, Side(HeaderBytes(hPub), None, 0), Side(HeaderBytes(hPvt), None, 0))
  }

  lemma {:induction false} FreshStores(hPub: Header, hPvt: Header)
    requires hPub.Valid() && hPvt.Valid()
    ensures Stores(Fresh(hPub, hPvt), hPub, hPvt, NO_LEDGER.bs)
    ensures WriterInvariant(NO_LEDGER.bs) && Conserved(NO_BOOK, [])
  {
    hide HeaderBytes;
    NoItems();
    assert HeaderBytes(hPub) + [] == HeaderBytes(hPub);
    assert HeaderBytes(hPvt) + [] == HeaderBytes(hPvt);
  }

  /** The records of one log's file, then those waiting in its buffer, are those of the book. */
  ghost predicate Holds(s: Side, h: Header, items: seq<Item>) {
    s.file + (if s.buf.Some? then s.buf.value else []) == HeaderBytes(h) + Frames(RecsOf(items))
  }

  lemma {:induction false} KeepsHolds(s: Side, h: Header, b: Book)
    requires Keeps(s, h, b)
    ensures Holds(s, h, b.Held())
  {
    hide HeaderBytes, Frames, RecsOf;
    var waiting := if b.waiting.Some? then b.waiting.value else [];
    NoItems();
    RecsOfAppend(b.filed, waiting);
    FramesAppend(RecsOf(b.filed), RecsOf(waiting));
    Associative(HeaderBytes(h), Frames(RecsOf(b.filed)), Frames(RecsOf(waiting)));
  }

  /**
   After every run from two freshly created logs, file and buffer of each log are the frames of records whose events
   are a subsequence, in order, of those offered to it; the missing ones are as many as the notes among the records
   and the pending count say; and no two records share an id.
   */
  lemma {:induction false} FilesConserveEvents(hPub: Header, hPvt: Header, subs: seq<Submission>)
    requires hPub.Valid() && hPvt.Valid() && FittingRun(NO_LEDGER, subs)
    ensures var d, l := RunDaemon(Fresh(hPub, hPvt), subs), Run(NO_LEDGER, subs);
            && Stores(d, hPub, hPvt, l.bs)
            && Holds(d.pub, hPub, l.bs.pub.Held()) && Conserved(l.bs.pub, l.pubOffered)
            && Holds(d.pvt, hPvt, l.bs.pvt.Held()) && Conserved(l.bs.pvt, l.pvtOffered)
            && WriterInvariant(l.bs)
  {
    var d, l := RunDaemon(Fresh(hPub, hPvt), subs), Run(NO_LEDGER, subs);
    FreshStores(hPub, hPvt);
    RunStores(Fresh(hPub, hPvt), NO_LEDGER, hPub, hPvt, subs);
    FittingIsValid(NO_LEDGER, subs);
    hide Keeps, Conserved, Run, RunDaemon, Holds, WriterInvariant, FittingRun;
    KeepsHolds(d.pub, hPub, l.bs.pub);
    KeepsHolds(d.pvt, hPvt, l.bs.pvt);
    RunKeepsInvariant(NO_LEDGER, subs);
    EventsAreConserved(NO_LEDGER, subs, 1);
    EventsAreConserved(NO_LEDGER, subs, 0);
  }

  lemma {:induction false} LockedOutFits(l: Ledger, logType: nat, ev: Rec, n: nat)
    requires logType in {0, 1} && ev.Valid() && l.bs.Log(logType).waiting.None?
    requires l.bs.recId + 2 * n < 0x1_0000_0000
    ensures FittingRun(l, LockedOut(logType, ev, n))
  {
    hide Run, Fits, Step;
    if n > 0 {
      LockedOutFits(l, logType, ev, n - 1);
      LockedOutOverflows(l, logType, ev, n - 1);
      var subs := LockedOut(logType, ev, n);
      assert subs[..n - 1] == LockedOut(logType, ev, n - 1);
      UnlockedFits(Run(l, subs[..n - 1]).bs, Submission(logType, ev, false, 0, []));
    }
  }

  lemma {:induction false} UnlockedFits(bs: Books, s: Submission)
    requires s.logType in {0, 1} && s.ev.Valid() && !s.gotLock && bs.recId + 2 < 0x1_0000_0000
    ensures FitsNext(bs, s)
  {
  }

  /** From two freshly created logs a run of the daemon leads to dropped events, for either log. */
  lemma {:induction false} DropsAreReached(logType: nat, ev: Rec)
    requires logType in {0, 1} && ev.Valid()
    ensures var subs := LockedOut(logType, ev, BufSize(logType) + 1);
            FittingRun(NO_LEDGER, subs) && Run(NO_LEDGER, subs).bs.Log(logType).Unreported() > 0
  {
    hide FittingRun, Run, LockedOut;
    LockedOutFits(NO_LEDGER, logType, ev, BufSize(logType) + 1);
    LockedOutOverflows(NO_LEDGER, logType, ev, BufSize(logType) + 1);
  }
}
