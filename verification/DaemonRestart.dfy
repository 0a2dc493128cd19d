/**
 Restarting evlogd: the id it resumes from, read back from the two logs, and over every run of the daemon exactly
 when that id is at or above all ids present.
 */
module DaemonRestart {
  import opened Bytes
  import opened Framing
  import opened LogAccess
  import opened EventWriter
  import opened WriterProperties
  import opened DaemonRuns

  /** The id read back from the last record of the file, going by its trailing size word. */
  function LastRecId(file: seq<byte>): nat {
    if |file| < SIZESIZE then 0
    else
      var recsize := FromBytes(file[|file| - SIZESIZE..]) + SIZESIZE;
      if |file| < recsize then 0
      else
        var head := ReadBuf(file, |file| - recsize, REC_HDR_SIZE);
        if head.status != Ok then 0 else EntryOf(head.bytes).recid
  }

  /** What the daemon takes from one log when it opens it. */
  function OpenedRecId(file: seq<byte>): nat {
    if |file| <= LOG_HDR_SIZE then 0
    else
      var inHeader, inLast := MappedHeader(file).lastRecId, LastRecId(file);
      if inHeader < inLast then inLast else inHeader
  }

  function Restart(pub: seq<byte>, pvt: seq<byte>): nat {
    var a, b := OpenedRecId(pvt), OpenedRecId(pub);
    if a > b then a else b
  }

  lemma {:induction false} LastRecIdOfLog(file: seq<byte>, h: Header, rs: seq<Rec>)
    requires IsLog(file, h, rs) && rs != []
    ensures LOG_HDR_SIZE < |file| && LastRecId(file) == rs[|rs| - 1].entry.recid
  {
    hide Frame, Frames, HeaderBytes, EntryBytes, EntryOf, ToBytes, FromBytes;
    var r := rs[|rs| - 1];
    LogSplit(h, rs, |rs| - 1);
    HeaderRoundTrip(h);
    NoFrames();
    assert rs[|rs| - 1 + 1..] == [];
    var pre := HeaderBytes(h) + Frames(rs[..|rs| - 1]);
    assert file == pre + Frame(r) + [];
    FrameAt(pre, r, []);
    FrameLength(r);
    SizeWord(|r.data|);
    EntryRoundTrip(r.entry);
    assert file[|file| - SIZESIZE..] == file[|file| - SIZESIZE..|file|];
  }

  /** What opening a log yields: nothing if it is empty, else the larger of the header's id and the last record's. */
  function Yields(h: Header, rs: seq<Rec>): nat {
    if rs == [] then 0
    else
      var last := rs[|rs| - 1].entry.recid;
      if h.lastRecId < last then last else h.lastRecId
  }

  lemma {:induction false} OpenedYields(file: seq<byte>, h: Header, rs: seq<Rec>)
    requires IsLog(file, h, rs)
    ensures OpenedRecId(file) == Yields(h, rs)
  {
    hide Frame, Frames, HeaderBytes, MappedHeader, LastRecId;
    if rs == [] {
      NoFrames();
      HeaderRoundTrip(h);
      assert HeaderBytes(h) + [] == HeaderBytes(h);
    } else {
      LastRecIdOfLog(file, h, rs);
      MappedHeaderOf(h, Frames(rs));
    }
  }

  /**
   For any two logs: a restart resumes at or above every id present exactly when none is above what both logs yield.
   */
  lemma {:induction false} RestartResumesAbove(pub: seq<byte>, pvt: seq<byte>, h: Header, h': Header, rs: seq<Rec>,
      rs': seq<Rec>)
    requires IsLog(pub, h, rs) && IsLog(pvt, h', rs')
    ensures Restart(pub, pvt) == if Yields(h', rs') > Yields(h, rs) then Yields(h', rs') else Yields(h, rs)
    ensures (forall r <- rs + rs' :: r.entry.recid <= Restart(pub, pvt))
       <==> forall r <- rs + rs' :: r.entry.recid <= Yields(h, rs) || r.entry.recid <= Yields(h', rs')
  {
    hide IsLog, OpenedRecId, Yields;
    OpenedYields(pub, h, rs);
    OpenedYields(pvt, h', rs');
  }

  /** Where a log's records stop: in their order, or at the id a clean shutdown left in the header. */
  ghost predicate Resumable(h: Header, rs: seq<Rec>) {
    || (forall i, j :: 0 <= i < j < |rs| ==> rs[i].entry.recid < rs[j].entry.recid)
    || (forall r <- rs :: r.entry.recid <= h.lastRecId)
  }

  /** So two logs that stop there are resumed above every id, and the ids given out next are new. */
  lemma {:induction false} ResumableLogsResume(pub: seq<byte>, pvt: seq<byte>, h: Header, h': Header, rs: seq<Rec>,
      rs': seq<Rec>, r: Rec)
    requires IsLog(pub, h, rs) && IsLog(pvt, h', rs') && Resumable(h, rs) && Resumable(h', rs')
    requires r in rs || r in rs'
    ensures r.entry.recid <= Restart(pub, pvt) < NextRecId(Restart(pub, pvt), 1)
    ensures r.entry.recid < NextRecId(Restart(pub, pvt), 0)
  {
    RestartResumesAbove(pub, pvt, h, h', rs, rs');
    hide IsLog, Restart, Yields;
    if r in rs {
      YieldsHighest(h, rs, r);
    } else {
      YieldsHighest(h', rs', r);
    }
  }

  lemma {:induction false} YieldsHighest(h: Header, rs: seq<Rec>, r: Rec)
    requires Resumable(h, rs) && r in rs
    ensures r.entry.recid <= Yields(h, rs)
  {
    var k :| 0 <= k < |rs| && rs[k] == r;
    var last := rs[|rs| - 1];
    if forall i, j :: 0 <= i < j < |rs| ==> rs[i].entry.recid < rs[j].entry.recid {
      assert k == |rs| - 1 || rs[k].entry.recid < last.entry.recid;
    }
  }

  // ----- exactly when

  /** The resume point of a daemon killed in this state. */
  function ResumePoint(d: Daemon): nat { Restart(d.pub.file, d.pvt.file) }

  /** Every id filed is at or below the resume point. */
  ghost predicate ResumesAbove(d: Daemon, bs: Books) {
    forall i <- bs.pub.filed + bs.pvt.filed :: i.id <= ResumePoint(d)
  }

  /** A log opened at rest yields the larger of the header's id and the last record's. */
  lemma {:induction false} OpenedIs(file: seq<byte>, h: Header, items: seq<Item>)
    requires IsLog(file, h, RecsOf(items))
    ensures OpenedRecId(file)
         == if items == [] then 0
            else if h.lastRecId < items[|items| - 1].id then items[|items| - 1].id else h.lastRecId
  {
    hide IsLog, OpenedRecId;
    OpenedYields(file, h, RecsOf(items));
  }

  /**
   One write to either log, then a kill: the daemon resumes above every id present exactly when the write reported
   no drops. When it did, the next record of that log gets the id of the note again.
   */
  lemma {:induction false} KilledAfterFiling(file: seq<byte>, h: Header, b: Book, ofile: seq<byte>, oh: Header,
      ob: Book, logType: nat, recId: nat, ev: Rec, note: Item)
    requires logType in {0, 1} && IdsSound(b, logType, recId) && IdsSound(ob, 1 - logType, recId)
    requires h.lastRecId <= recId && oh.lastRecId <= recId
    requires note.id == NextRecId(NextRecId(recId, logType), logType)
    requires IsLog(file, h, RecsOf(Filed(b, Event(NextRecId(recId, logType), ev), note).filed))
    requires IsLog(ofile, oh, RecsOf(ob.filed))
    ensures var b' := Filed(b, Event(NextRecId(recId, logType), ev), note);
            var at := Restart(file, ofile);
            && ((forall i <- b'.filed + ob.filed :: i.id <= at) <==> b.Unreported() == 0)
            && (b.Unreported() > 0 ==> note in b'.filed && NextRecId(at, logType) == note.id)
  {
    var id := NextRecId(recId, logType);
    var b' := Filed(b, Event(id, ev), note);
    OpenedIs(file, h, b'.filed);
    OpenedIs(ofile, oh, ob.filed);
    hide IsLog, OpenedRecId, RecsOf;
    assert b'.filed[|b'.filed| - 1] == Event(id, ev);
    assert ob.filed != [] ==> ob.filed[|ob.filed| - 1] in ob.Held();
    assert Restart(file, ofile) == id;
    HeldAfterFiling(b, Event(id, ev), note);
    assert b'.Held() == b'.filed;
    forall i <- ob.filed
      ensures i.id <= id
    {
      assert i in ob.Held();
    }
    if b.Unreported() > 0 {
      assert b'.filed[|b'.filed| - 2] == note;
      assert note in b'.filed + ob.filed;
    }
  }

  /** Restart takes the larger of two opened ids, so the order of the logs does not matter. */
  lemma {:induction false} RestartSymmetric(pub: seq<byte>, pvt: seq<byte>)
    ensures Restart(pub, pvt) == Restart(pvt, pub)
  {
    hide OpenedRecId;
  }

  /** Whether the last write that reached a file reported drops. */
  function ReportsLast(l: Ledger, subs: seq<Submission>): bool {
    if subs == [] then false
    else
      var before, s := subs[..|subs| - 1], subs[|subs| - 1];
      if s.gotLock then Run(l, before).bs.Log(s.logType).Unreported() > 0 else ReportsLast(l, before)
  }

  /**
   Over every run of the daemon: killed at the end of it, it resumes at or above every id present exactly when the
   last write that reached a file reported no drops.
   */
  lemma {:induction false} RestartResumesAboveExactlyWhen(d: Daemon, l: Ledger, hPub: Header, hPvt: Header,
      subs: seq<Submission>)
    requires Stores(d, hPub, hPvt, l.bs) && WriterInvariant(l.bs) && FittingRun(l, subs)
    requires hPub.lastRecId <= l.bs.recId && hPvt.lastRecId <= l.bs.recId && ResumesAbove(d, l.bs)
    ensures ResumesAbove(RunDaemon(d, subs), Run(l, subs).bs) <==> !ReportsLast(l, subs)
    decreases |subs|
  {
    hide Stores, WriterInvariant, ResumesAbove, Fits, LogEvent, Step;
    if subs != [] {
      var before, s := subs[..|subs| - 1], subs[|subs| - 1];
      RestartResumesAboveExactlyWhen(d, l, hPub, hPvt, before);
      RunStores(d, l, hPub, hPvt, before);
      FittingIsValid(l, subs);
      FittingIsValid(l, before);
      RunKeepsInvariant(l, before);
      RecIdGrows(l, before);
      var d1, l1 := RunDaemon(d, before), Run(l, before);
      if s.gotLock {
        FilingResumes(d1, l1, hPub, hPvt, s);
      } else {
        BufferingResumes(d1, l1, s);
      }
    }
  }

  lemma {:induction false} RecIdGrows(l: Ledger, subs: seq<Submission>)
    requires ValidRun(subs)
    ensures l.bs.recId <= Run(l, subs).bs.recId
    decreases |subs|
  {
    if subs != [] {
      RecIdGrows(l, subs[..|subs| - 1]);
      hide Filed, Buffered;
    }
  }

  lemma {:induction false} FilingResumes(d: Daemon, l: Ledger, hPub: Header, hPvt: Header, s: Submission)
    requires Stores(d, hPub, hPvt, l.bs) && WriterInvariant(l.bs) && s.gotLock && FitsNext(l.bs, s)
    requires hPub.lastRecId <= l.bs.recId && hPvt.lastRecId <= l.bs.recId
    ensures ResumesAbove(Submit(d, s), Step(l, s).bs) <==> l.bs.Log(s.logType).Unreported() == 0
  {
    StepStores(d, l, hPub, hPvt, s);
    var b, ob := l.bs.Log(s.logType), l.bs.Log(1 - s.logType);
    var id := NextRecId(l.bs.recId, s.logType);
    var note := Note(NextRecId(id, s.logType), b.dropped, s.magic, s.stamp);
    var d', l' := Submit(d, s), Step(l, s);
    assert IdsSound(b, s.logType, l.bs.recId) && IdsSound(ob, 1 - s.logType, l.bs.recId);
    assert l'.bs.Log(s.logType) == Filed(b, Event(id, s.ev), note);
    assert l'.bs.Log(1 - s.logType) == ob;
    hide Submit, Step, Filed, IdsSound, Restart, WriterInvariant, IsLog;
    if s.logType == 1 {
      KilledAfterFiling(d'.pub.file, hPub, b, d'.pvt.file, hPvt, ob, 1, l.bs.recId, s.ev, note);
    } else {
      KilledAfterFiling(d'.pvt.file, hPvt, b, d'.pub.file, hPub, ob, 0, l.bs.recId, s.ev, note);
      RestartSymmetric(d'.pub.file, d'.pvt.file);
    }
  }

  lemma {:induction false} BufferingResumes(d: Daemon, l: Ledger, s: Submission)
    requires !s.gotLock && s.logType in {0, 1}
    ensures ResumesAbove(Submit(d, s), Step(l, s).bs) <==> ResumesAbove(d, l.bs)
  {
    hide Restart, Frames, Frame, RecsOf;
  }

  /** Two freshly created logs satisfy all that RestartResumesAboveExactlyWhen asks of the start. */
  lemma {:induction false} FreshResumesAbove(hPub: Header, hPvt: Header, subs: seq<Submission>)
    requires hPub.Valid() && hPvt.Valid() && hPub.lastRecId == hPvt.lastRecId == 0 && FittingRun(NO_LEDGER, subs)
    ensures ResumesAbove(RunDaemon(Fresh(hPub, hPvt), subs), Run(NO_LEDGER, subs).bs) <==> !ReportsLast(NO_LEDGER, subs)
  {
    FreshStores(hPub, hPvt);
    RestartResumesAboveExactlyWhen(Fresh(hPub, hPvt), NO_LEDGER, hPub, hPvt, subs);
  }

  /**
   A log of either kind that ends in a note and the event it outran: after a kill, the daemon gives the note's id
   to the next record of that log again.
   */
  lemma {:induction false} RestartAfterReportReusesId(file: seq<byte>, h: Header, rs: seq<Rec>, note: Rec, ev: Rec,
      logType: nat, ofile: seq<byte>)
    requires logType in {0, 1} && IsLog(file, h, rs + [note, ev]) && h.lastRecId <= ev.entry.recid
    requires ev.entry.recid % 2 == logType && note.entry.recid == NextRecId(ev.entry.recid, logType)
    requires OpenedRecId(ofile) <= ev.entry.recid
    ensures NextRecId(if logType == 1 then Restart(file, ofile) else Restart(ofile, file), logType)
         == note.entry.recid
  {
    hide Frame, Frames, HeaderBytes, MappedHeader, LastRecId;
    LastRecIdOfLog(file, h, rs + [note, ev]);
    MappedHeaderOf(h, Frames(rs + [note, ev]));
  }
}
