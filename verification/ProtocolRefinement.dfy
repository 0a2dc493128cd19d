/**
 The steps of the maintenance protocol put together again: done without a break, the writer's, the compactor's
 and the reader's steps are evlogd's, evlogmgr's and evlview's operations.
 */
module ProtocolRefinement {
  import opened Options
  import opened Bytes
  import opened Framing
  import opened LogAccess
  import opened Compaction
  import EventWriter
  import EvlView
  import opened MaintenanceProtocol
  import opened ProtocolSafety

  // ----- the writer

  /** The public log of the daemon, as the protocol's state has it. */
  function SideOf(s: State): EventWriter.Side {
    EventWriter.Side(s.file, if s.waiting.None? then None else Some(Frames(s.waiting.value)), s.dropped)
  }

  /** The steps by which a writer that has the lock and a record logs that record. */
  function FilingSteps(s: State, magic: nat, stamp: seq<byte>): seq<Step> {
    (if s.waiting.Some? && (s.waiting.value != [] || s.dropped == 0) then [DrainBuffer] else [])
    + (if s.waiting.Some? && s.dropped > 0 then [FileNote(magic, stamp)] else [])
    + [FileRecord]
  }

  function LoggingSteps(s: State, ev: Rec, gotLock: bool, magic: nat, stamp: seq<byte>): seq<Step> {
    [Submit(ev, gotLock)] + if gotLock then FilingSteps(s, magic, stamp) else []
  }

  /** The steps from the first on. */
  function Do(s: State, steps: seq<Step>): State
    decreases |steps|
  {
    if steps == [] then s else Do(Apply(s, steps[0], None), steps[1..])
  }

  lemma {:induction false} DoOne(s: State, step: Step, rest: seq<Step>)
    ensures Do(s, [step] + rest) == Do(Apply(s, step, None), rest)
  {
    assert ([step] + rest)[1..] == rest;
  }

  lemma {:induction false} DoLast(s: State, step: Step)
    ensures Do(s, [step]) == Apply(s, step, None)
  {
    assert [step][1..] == [];
  }

  lemma {:induction false} FramesMore(rs: seq<Rec>, r: Rec)
    ensures Frames(rs + [r]) == Frames(rs) + Frame(r)
  {
    hide Frame;
    FramesAppend(rs, [r]);
    FramesOne(r);
  }

  /** An event that cannot get the lock goes to the secondary buffer as evlogd puts it there. */
  lemma {:induction false} SubmitBuffers(s: State, ev: Rec, magic: nat, stamp: seq<byte>)
    ensures var t := Apply(s, Submit(ev, false), None);
      (t.recId, SideOf(t)) == EventWriter.LogToSide(s.recId, SideOf(s), 1, ev, false, magic, stamp)
  {
    hide Frame, Frames;
    var rec := EventWriter.WithId(ev, NextId(s));
    var waiting := if s.waiting.Some? then s.waiting.value else [];
    FramesMore(waiting, rec);
    assert Frames([]) == [] by { NoFrames(); }
  }

  lemma {:induction false} DrainsBuffer(s: State)
    requires s.waiting.Some?
    ensures var t := Apply(s, DrainBuffer, None);
      t.file == s.file + Frames(s.waiting.value) && t.recId == s.recId && t.dropped == s.dropped && t.held == s.held
      && t.waiting == if s.dropped > 0 then Some([]) else None
  {
    hide Frames;
  }

  lemma {:induction false} FilesNote(s: State, magic: nat, stamp: seq<byte>)
    ensures var t := Apply(s, FileNote(magic, stamp), None);
      t.file == s.file + Frame(EventWriter.DropNote(NextId(s), s.dropped, magic, stamp))
      && t.recId == NextId(s) && t.waiting == None && t.dropped == s.dropped && t.held == s.held
  {
    hide Frame, EventWriter.DropNote;
    FramesOne(EventWriter.DropNote(NextId(s), s.dropped, magic, stamp));
  }

  lemma {:induction false} FilesRecord(s: State)
    requires s.held.Some?
    ensures var t := Apply(s, FileRecord, None);
      t.file == s.file + Frame(s.held.value)
      && t.recId == s.recId && t.waiting == s.waiting && t.dropped == s.dropped && t.held == None
  {
    hide Frame;
    FramesOne(s.held.value);
  }

  /** With the lock: buffer, note and record reach the file as evlogd writes them. */
  lemma {:induction false} FilingFiles(s: State, magic: nat, stamp: seq<byte>)
    requires s.held.Some?
    ensures var t := Do(s, FilingSteps(s, magic, stamp));
      var note := Frame(EventWriter.DropNote(NextId(s), s.dropped, magic, stamp));
      var drained := EventWriter.Drain(SideOf(s), note);
      && SideOf(t) == drained.(file := drained.file + Frame(s.held.value))
      && t.recId == if s.waiting.Some? && s.dropped > 0 then NextId(s) else s.recId
  {
    hide Frame, Frames, EventWriter.DropNote, Apply;
    var drains, notes := s.waiting.Some? && (s.waiting.value != [] || s.dropped == 0), s.waiting.Some? && s.dropped > 0;
    var s1 := if drains then Apply(s, DrainBuffer, None) else s;
    var s2 := if notes then Apply(s1, FileNote(magic, stamp), None) else s1;
    NoFrames();
    if s.waiting.Some? {
      DrainsBuffer(s);
    }
    FilesNote(s1, magic, stamp);
    FilesRecord(s2);
    DoLast(s2, FileRecord);
    var tail := (if notes then [FileNote(magic, stamp)] else []) + [FileRecord];
    DoOne(s1, FileNote(magic, stamp), [FileRecord]);
    assert notes || tail == [FileRecord];
    DoOne(s, DrainBuffer, tail);
    assert FilingSteps(s, magic, stamp) == (if drains then [DrainBuffer] else []) + tail;
    assert drains || FilingSteps(s, magic, stamp) == tail;
    assert s.file + [] == s.file;
  }

  /** The writer's steps, done one after the other, are evlogd's logging of an event. */
  lemma {:induction false} WriterStepsLogEvent(s: State, ev: Rec, gotLock: bool, magic: nat, stamp: seq<byte>)
    requires s.held.None?
    ensures var t := Do(s, LoggingSteps(s, ev, gotLock, magic, stamp));
      (t.recId, SideOf(t)) == EventWriter.LogToSide(s.recId, SideOf(s), 1, ev, gotLock, magic, stamp)
  {
    hide Frame, Frames, EventWriter.DropNote, EventWriter.Drain, FilingSteps;
    var s1 := Apply(s, Submit(ev, gotLock), None);
    if gotLock {
      DoOne(s, Submit(ev, gotLock), FilingSteps(s, magic, stamp));
      assert FilingSteps(s1, magic, stamp) == FilingSteps(s, magic, stamp) by { FilingSame(s, s1, magic, stamp); }
      FilingFiles(s1, magic, stamp);
    } else {
      DoLast(s, Submit(ev, gotLock));
      assert LoggingSteps(s, ev, gotLock, magic, stamp) == [Submit(ev, gotLock)];
      SubmitBuffers(s, ev, magic, stamp);
    }
  }

  lemma {:induction false} FilingSame(s: State, t: State, magic: nat, stamp: seq<byte>)
    requires s.waiting == t.waiting && s.dropped == t.dropped
    ensures FilingSteps(s, magic, stamp) == FilingSteps(t, magic, stamp)
  {
  }

  // ----- the compactor

  /** Moving on to the end, truncating, and making the generation even. */
  ghost function FinishCompaction(s: State): State
    requires s.mgr.Moving?
    decreases s.mgr.fi.bytesToProcess
  {
    if s.mgr.fi.bytesToProcess <= 0 then Apply(Apply(s, Truncate, None), SetEven, None)
    else
      var t := Apply(s, MoveOne, None);
      if t.mgr.Moving? && t.mgr.fi.bytesToProcess < s.mgr.fi.bytesToProcess then FinishCompaction(t) else t
  }

  lemma {:induction false} MovesCompact(s: State, deleted: nat, bytes: nat)
    requires FileInv(s) && s.mgr.Moving?
    ensures var c := CompactFrom(s.file, s.mgr.fi, s.mgr.query, s.mgr.msg, deleted, bytes);
      FinishCompaction(s).file == SetGeneration(c.file, GenEven).file && FinishCompaction(s).mgr == Renewed
    decreases s.mgr.fi.bytesToProcess
  {
    hide CompactTurn, SetGeneration, TruncateAtHole, FileInv;
    if s.mgr.fi.bytesToProcess > 0 {
      MoveKeepsOn(s);
      var t := CompactTurn(s.file, s.mgr.fi, s.mgr.query, s.mgr.msg);
      MovesCompact(Apply(s, MoveOne, None), deleted + t.deleted, bytes + t.bytes);
    }
  }

  lemma {:induction false} MoveKeepsOn(s: State)
    requires FileInv(s) && s.mgr.Moving? && s.mgr.fi.bytesToProcess > 0
    ensures FileInv(Apply(s, MoveOne, None))
    ensures CompactTurn(s.file, s.mgr.fi, s.mgr.query, s.mgr.msg).status == Ok
  {
    hide CompactTurn, Sliding;
    if s.aux.rest == [] {
      SlidingDone(s.file, s.mgr.fi, s.aux.h, s.aux.recs);
    }
    TurnSlides(s.file, s.mgr.fi, s.aux.h, s.aux.recs, s.aux.rest, s.mgr.query, s.mgr.msg);
  }

  /** The compactor's steps, done one after the other, are a forced compaction of the file. */
  lemma {:induction false} ManagerStepsCompactLog(s: State)
    requires FileInv(s) && s.mgr.Locked? && s.held.None? && s.aux.h.generation + 2 < 0x1_0000_0000
    ensures var t := Apply(s, SetOdd, None);
      && t.mgr.Moving?
      && FinishCompaction(t).file == EvlCompactLog(s.file, s.mgr.query, s.mgr.msg, 0, false, true).file
      && FinishCompaction(t).mgr == Renewed
  {
    hide CompactFrom, FinishCompaction, SetGeneration, HeaderBytes, Frames;
    SetOddStarts(s);
    var t := Apply(s, SetOdd, None);
    MovesCompact(t, 0, 0);
  }

  lemma {:induction false} SetOddStarts(s: State)
    requires FileInv(s) && s.mgr.Locked? && s.held.None? && s.aux.h.generation + 2 < 0x1_0000_0000
    ensures var t := Apply(s, SetOdd, None);
      FileInv(t) && t.mgr == Moving(StartCompaction(t.file), s.mgr.query, s.mgr.msg)
    ensures SetGeneration(s.file, GenOdd) == Written(Ok, Apply(s, SetOdd, None).file)
    ensures |Apply(s, SetOdd, None).file| == |s.file| > 0
  {
    hide HeaderBytes, Frames, SetGeneration, Sliding;
    var h := s.aux.h;
    var h' := h.(generation := h.generation + 1);
    SetGenerationKeepsBody(h, Frames(s.aux.recs), GenOdd);
    HeaderRoundTrip(h);
    HeaderRoundTrip(h');
    StartsSliding(HeaderBytes(h') + Frames(s.aux.recs), h', s.aux.recs);
  }

  // ----- the reader

  /** The reader's resync steps, done one after the other, land where evlview's seeks do. */
  lemma {:induction false} ResyncStepsLand(s: State, filter: Query)
    requires s.view.pc == Resyncing && s.view.last >= 0
    ensures var t := Apply(s, Resync, filter);
      var u := if t.view.pc == ResyncingEnd then Apply(t, ResyncEnd, filter) else t;
      var r := EvlView.ResyncSeeks(s.file, s.view.generation, s.view.pos, EvlView.AfterLast, s.view.last, false);
      && (u.view.pc == Top(filter) <==> r.status == Ok)
      && (u.view.pc == Closed <==> r.status == Ebadf)
      && (r.status == Ok ==> u.view.pos == r.pos)
  {
    hide UpToDate, SeekFwdFrom;
    SeekNeverBad(s.file, LOG_HDR_SIZE, LOG_HDR_SIZE, EvlView.IdAbove(s.view.last));
  }

  lemma {:induction false} SeekNeverBad(file: seq<byte>, start: nat, cur: nat, q: Query)
    ensures SeekFwdFrom(file, start, cur, q).status in {Ok, Enoent, Eio}
    decreases |file| - cur
  {
    hide ReadRecord;
    var o := ReadRecord(file, cur, POSIX_LOG_ENTRY_MAXLEN);
    if o.status == Ok && !Matches(q, o.rec) {
      SeekNeverBad(file, start, o.pos, q);
    }
  }
}
