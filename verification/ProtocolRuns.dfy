/** Putting runs of the maintenance protocol together step by step, and the run of a compaction that deletes nothing. */
module ProtocolRuns {
  import opened Framing
  import opened LogAccess
  import opened Compaction
  import opened EvlView
  import opened MaintenanceProtocol
  import opened ProtocolSafety

  ghost predicate Reached(s0: State, steps: seq<Step>, s: State, filter: Query) {
    Init(s0) && Run(s0, steps, filter) && After(s0, steps, filter) == s && Inv(s, filter)
  }

  lemma {:induction false} EmptyRun(s0: State, filter: Query)
    requires Init(s0)
    ensures Reached(s0, [], s0, filter)
  {
    InitHolds(s0, filter);
    hide Init, Inv;
  }

  lemma {:induction false} Go(s0: State, steps: seq<Step>, s: State, step: Step, filter: Query)
    requires Reached(s0, steps, s, filter) && Enabled(s, step)
    ensures Reached(s0, steps + [step], Apply(s, step, filter), filter)
  {
    hide Init, Inv, Apply, Enabled;
    assert (steps + [step])[..|steps + [step]| - 1] == steps;
    StepKeeps(s, step, filter);
  }

  lemma {:induction false} ReachedInv(s0: State, steps: seq<Step>, s: State, filter: Query)
    requires Reached(s0, steps, s, filter)
    ensures Inv(s, filter) && FileInv(s) && DescInv(s)
  {
    hide FileInv, DescInv, MatchInv, OrderInv, OutInv;
  }

  lemma {:induction false} MovingLeft(s0: State, steps: seq<Step>, s: State, filter: Query)
    requires Reached(s0, steps, s, filter) && s.mgr.Moving?
    ensures s.aux.rest != [] <==> s.mgr.fi.bytesToProcess > 0
  {
    ReachedInv(s0, steps, s, filter);
    hide Reached, Inv, DescInv, Sliding;
    if s.aux.rest == [] {
      SlidingDone(s.file, s.mgr.fi, s.aux.h, s.aux.recs);
    } else {
      SlidingMore(s.file, s.mgr.fi, s.aux.h, s.aux.recs, s.aux.rest);
    }
  }

  /** Records of which none is doomed are all kept. */
  lemma {:induction false} MoveRest(s0: State, before: seq<Step>, s: State, filter: Query, query: Rec -> bool)
    returns (steps: seq<Step>, s': State)
    requires Reached(s0, before, s, filter) && s.mgr.Moving? && s.mgr.query == query && forall x :: !query(x)
    ensures Reached(s0, steps, s', filter) && s'.mgr.Moving?
    ensures s' == s.(file := s'.file, mgr := s'.mgr, aux := s.aux.(recs := s.aux.recs + s.aux.rest, rest := []))
    decreases |s.aux.rest|
  {
    hide Reached, CompactTurn;
    MovingLeft(s0, before, s, filter);
    if s.aux.rest == [] {
      assert s.aux.recs + [] == s.aux.recs;
      steps, s' := before, s;
    } else {
      Go(s0, before, s, MoveOne, filter);
      var t := Apply(s, MoveOne, filter);
      assert t.aux.recs + t.aux.rest == s.aux.recs + s.aux.rest;
      steps, s' := MoveRest(s0, before + [MoveOne], t, filter, query);
    }
  }

  /** A compaction that deletes nothing leaves the log's records and raises its generation by two. */
  lemma {:induction false} CompactNothing(s0: State, before: seq<Step>, s: State, filter: Query)
    returns (steps: seq<Step>, s': State)
    requires Reached(s0, before, s, filter) && s.mgr.Idle? && s.held.None?
    requires s.aux.rest == [] && s.aux.h.generation + 2 < 0x1_0000_0000
    ensures Reached(s0, steps, s', filter)
    ensures s' == s.(file := s'.file, aux := s.aux.(h := s.aux.h.(generation := s.aux.h.generation + 2),
                                                    starts := s.aux.starts + 1))
  {
    hide Reached, SetGeneration, CompactTurn, TruncateAtHole;
    var query := (x: Rec) => false;
    var lock := LockLog(query, []);
    Go(s0, before, s, lock, filter);
    var a := Apply(s, lock, filter);
    Go(s0, before + [lock], a, SetOdd, filter);
    var b := Apply(a, SetOdd, filter);
    var moves, c := MoveRest(s0, before + [lock] + [SetOdd], b, filter, query);
    assert [] + s.aux.recs == s.aux.recs;
    MovingLeft(s0, moves, c, filter);
    Go(s0, moves, c, Truncate, filter);
    var d := Apply(c, Truncate, filter);
    Go(s0, moves + [Truncate], d, SetEven, filter);
    var e := Apply(d, SetEven, filter);
    Go(s0, moves + [Truncate] + [SetEven], e, UnlockLog, filter);
    s' := Apply(e, UnlockLog, filter);
    steps := moves + [Truncate] + [SetEven] + [UnlockLog];
  }

  // ----- one step of the reader

  lemma {:induction false} GoOpen(s0: State, before: seq<Step>, s: State, filter: Query) returns (t: State)
    requires Reached(s0, before, s, filter) && s.mgr.Idle? && s.view.pc == Closed
    ensures Reached(s0, before + [OpenLog], t, filter)
    ensures t == s.(view := View(if s.view.last < 0 then Top(filter) else Resyncing, s.aux.h.generation, LOG_HDR_SIZE,
                                 s.view.last, s.view.out),
                    aux := s.aux.(seen := s.aux.recs, seenStarts := s.aux.starts, k := 0))
  {
    hide Reached, ViewStep, DescInv, IsLog;
    ReachedInv(s0, before, s, filter);
    OpenEffect(s, filter);
    Go(s0, before, s, OpenLog, filter);
    t := Apply(s, OpenLog, filter);
  }

  lemma {:induction false} GoSeek(s0: State, before: seq<Step>, s: State, filter: Query) returns (t: State)
    requires Reached(s0, before, s, filter) && s.view.pc == Seeking && filter.Some?
    ensures Current(s) ==> s.aux.k <= |s.aux.recs|
    ensures Reached(s0, before + [SeekMatch], t, filter) && t == Apply(s, SeekMatch, filter)
    ensures if !Current(s) then t == s.(view := s.view.(pc := Closed))
            else
              var j := NextMatch(s.aux.recs, s.aux.k, filter);
              if j == |s.aux.recs| then t == s.(view := s.view.(pc := Finished))
              else t == s.(view := s.view.(pc := Reading, pos := Offset(s.aux.recs, j)), aux := s.aux.(k := j))
  {
    hide Reached, ViewStep, FileInv, Offset;
    ReachedInv(s0, before, s, filter);
    SeekEffect(s, filter);
    Go(s0, before, s, SeekMatch, filter);
    t := Apply(s, SeekMatch, filter);
  }

  lemma {:induction false} GoRead(s0: State, before: seq<Step>, s: State, filter: Query) returns (t: State)
    requires Reached(s0, before, s, filter) && s.view.pc == Reading
    ensures Current(s) ==> s.aux.k <= |s.aux.recs|
    ensures Reached(s0, before + [ReadNext], t, filter) && t == Apply(s, ReadNext, filter)
    ensures if !Current(s) then t == s.(view := s.view.(pc := Closed))
            else if s.aux.k == |s.aux.recs| then t == s.(view := s.view.(pc := Finished))
            else
              var r := s.aux.recs[s.aux.k];
              t == s.(view := View(Top(filter), s.view.generation, Offset(s.aux.recs, s.aux.k + 1), Id(r),
                                   s.view.out + [r]),
                      aux := s.aux.(k := s.aux.k + 1))
  {
    hide Reached, ViewStep, FileInv, Offset;
    ReachedInv(s0, before, s, filter);
    ReadEffect(s, filter);
    Go(s0, before, s, ReadNext, filter);
    t := Apply(s, ReadNext, filter);
  }

  /** The resync seek finds nothing, and the reader stands before its seek to the end. */
  lemma {:induction false} GoResync(s0: State, before: seq<Step>, s: State, filter: Query) returns (t: State)
    requires Reached(s0, before, s, filter) && s.view.pc == Resyncing && Current(s) && s.view.last >= 0
    requires forall r <- s.aux.recs :: Id(r) <= s.view.last
    ensures Reached(s0, before + [MaintenanceProtocol.Resync], t, filter)
    ensures t == s.(view := s.view.(pc := ResyncingEnd, pos := LOG_HDR_SIZE), aux := s.aux.(k := 0))
  {
    NoneAbove(s.aux.recs, s.view.last);
    hide Reached, ViewStep, FileInv, Offset, NextMatch, IdAbove, Matches;
    ReachedInv(s0, before, s, filter);
    ResyncEffect(s, filter);
    Go(s0, before, s, MaintenanceProtocol.Resync, filter);
    t := Apply(s, MaintenanceProtocol.Resync, filter);
  }

  lemma {:induction false} NoneAbove(recs: seq<Rec>, last: nat)
    requires forall r <- recs :: Id(r) <= last
    ensures NextMatch(recs, 0, IdAbove(last)) == |recs|
  {
    forall i | 0 <= i < |recs|
      ensures !Matches(IdAbove(last), recs[i])
    {
      assert recs[i] in recs;
    }
  }

  lemma {:induction false} GoResyncEnd(s0: State, before: seq<Step>, s: State, filter: Query) returns (t: State)
    requires Reached(s0, before, s, filter) && s.view.pc == ResyncingEnd && Current(s)
    ensures Reached(s0, before + [ResyncEnd], t, filter)
    ensures t == s.(view := s.view.(pc := Top(filter), pos := Offset(s.aux.recs, |s.aux.recs|)),
                    aux := s.aux.(k := |s.aux.recs|,
                                  jumped := s.aux.jumped + set id <- Ids(s.aux.recs) | id > s.view.last))
  {
    hide Reached, ViewStep, FileInv, Offset, Ids;
    ReachedInv(s0, before, s, filter);
    ResyncEndEffect(s, filter);
    Go(s0, before, s, ResyncEnd, filter);
    t := Apply(s, ResyncEnd, filter);
  }
}
