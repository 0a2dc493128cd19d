/**
 A run in which the forward reader misses a record: it is filed between the seek that finds nothing newer
 than the last record copied and the seek to the end that follows.
 */
module ReaderRace {
  import opened Options
  import opened Framing
  import opened LogAccess
  import EventWriter
  import opened MaintenanceProtocol
  import opened ProtocolSafety
  import opened ProtocolRuns

  /** The log holds one record, the reader has copied it, and nobody is at work. */
  ghost predicate CopiedOne(s: State, r: Rec) {
    && s.mgr.Idle? && s.held.None? && s.waiting.None? && s.aux.recs == [r] && s.aux.rest == [] && !s.aux.noted
    && s.view.last == Id(r) && s.view.out == [r]
  }

  lemma {:induction false} OpenAndCopy(s0: State, r: Rec) returns (steps: seq<Step>, s: State)
    requires Init(s0) && s0.aux.recs == [r]
    ensures Reached(s0, steps, s, None) && CopiedOne(s, r) && s.view.pc == Reading && Current(s)
    ensures s.recId == s0.recId && s.aux.h.generation == s0.aux.h.generation
  {
    EmptyRun(s0, None);
    hide Reached, Offset, Apply, IsLog;
    var a := GoOpen(s0, [], s0, None);
    s := GoRead(s0, [] + [OpenLog], a, None);
    steps := [] + [OpenLog] + [ReadNext];
  }

  /** The reader finds the generation changed, reopens the log, and finds nothing newer than its last record. */
  lemma {:induction false} ReopenAndSeek(s0: State, before: seq<Step>, s: State, r: Rec)
    returns (steps: seq<Step>, s': State)
    requires Reached(s0, before, s, None) && CopiedOne(s, r) && s.view.pc == Reading && !Current(s)
    ensures Reached(s0, steps, s', None) && CopiedOne(s', r) && s'.view.pc == ResyncingEnd && Current(s')
    ensures s'.recId == s.recId
  {
    hide Reached, Offset, Apply;
    var a := GoRead(s0, before, s, None);
    var b := GoOpen(s0, before + [ReadNext], a, None);
    s' := GoResync(s0, before + [ReadNext] + [OpenLog], b, None);
    steps := before + [ReadNext] + [OpenLog] + [MaintenanceProtocol.Resync];
  }

  /** A record is filed now; the seek to the end passes it, and the reader returns without it. */
  lemma {:induction false} FileThenJump(s0: State, before: seq<Step>, s: State, r: Rec, ev: Rec)
    returns (steps: seq<Step>, s': State, missed: Rec)
    requires Reached(s0, before, s, None) && CopiedOne(s, r) && s.view.pc == ResyncingEnd && Current(s)
    requires NextId(s) < 0x1_0000_0000 && EventWriter.WithId(ev, NextId(s)).Valid()
    ensures Reached(s0, steps, s', None) && Returns(s', ReadNext, None) && !s'.aux.noted
    ensures missed in s'.aux.recs && missed !in Apply(s', ReadNext, None).view.out
  {
    hide Reached, Frames, EventWriter.WithId, Offset, Ids;
    missed := EventWriter.WithId(ev, NextId(s));
    IdOf(ev, NextId(s));
    LastIsOld(s0, before, s, r);
    var submit := Submit(ev, true);
    Go(s0, before, s, submit, None);
    var a := Apply(s, submit, None);
    Go(s0, before + [submit], a, FileRecord, None);
    var b := Apply(a, FileRecord, None);
    assert b.aux.recs == [r, missed];
    hide Apply;
    s' := GoResyncEnd(s0, before + [submit] + [FileRecord], b, None);
    steps := before + [submit] + [FileRecord] + [ResyncEnd];
    var end := GoRead(s0, steps, s', None);
  }

  lemma {:induction false} LastIsOld(s0: State, steps: seq<Step>, s: State, r: Rec)
    requires Reached(s0, steps, s, None) && CopiedOne(s, r)
    ensures Id(r) <= s.recId
  {
    assert s.aux.recs + s.aux.rest == [r];
    assert r in s.aux.recs + s.aux.rest;
  }

  /**
   Completeness fails without the proviso of ReaderIsComplete: from every one-record log there is a run in
   which the reader returns while a record that matches stands in the log uncopied.
   */
  lemma {:induction false} RaceLosesRecord(s0: State, r: Rec, ev: Rec)
    requires Init(s0) && s0.aux.recs == [r] && s0.aux.h.generation + 2 < 0x1_0000_0000
    requires NextId(s0) < 0x1_0000_0000 && EventWriter.WithId(ev, NextId(s0)).Valid()
    ensures exists steps: seq<Step> ::
              && Run(s0, steps, None) && Returns(After(s0, steps, None), ReadNext, None)
              && !After(s0, steps, None).aux.noted
              && exists x <- After(s0, steps, None).aux.recs ::
                   Matches(None, x) && x !in Apply(After(s0, steps, None), ReadNext, None).view.out
  {
    hide Apply, Enabled, Inv, Init, Returns, Run, After;
    var s1steps, s1 := OpenAndCopy(s0, r);
    var s2steps, s2 := CompactNothing(s0, s1steps, s1, None);
    var s3steps, s3 := ReopenAndSeek(s0, s2steps, s2, r);
    var steps, s4, missed := FileThenJump(s0, s3steps, s3, r, ev);
    assert Run(s0, steps, None) && After(s0, steps, None) == s4;
    assert missed in s4.aux.recs && Matches(None, missed);
  }
}
