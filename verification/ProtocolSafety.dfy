/** What every run of the maintenance protocol keeps, and what the forward reader has copied when it returns. */
module ProtocolSafety {
  import opened Framing
  import opened LogAccess
  import opened Compaction
  import EventWriter
  import opened EvlView
  import opened MaintenanceProtocol

  // ----- the file

  ghost predicate WellFormed(s: State) {
    IsLog(s.file, s.aux.h, s.aux.recs) && s.aux.rest == []
  }

  /** Odd exactly while records move; the file is a well-formed log whenever they do not. */
  ghost predicate FileInv(s: State) {
    && s.aux.h.Valid()
    && (match s.mgr
        case Idle => WellFormed(s) && s.aux.h.generation % 2 == 0
        case Locked(_, _) => WellFormed(s) && s.aux.h.generation % 2 == 0
        case Moving(fi, _, _) =>
          Sliding(s.file, fi, s.aux.h, s.aux.recs, s.aux.rest) && s.aux.h.generation % 2 == 1
        case Truncated => WellFormed(s) && s.aux.h.generation % 2 == 1
        case Renewed => WellFormed(s) && s.aux.h.generation % 2 == 0)
    && (s.held.Some? ==> s.mgr.Idle? && s.held.value.Valid())
    && (s.waiting.Some? ==> ValidRecs(s.waiting.value))
  }

  lemma {:induction false} HeaderInFile(s: State)
    requires FileInv(s)
    ensures MappedHeader(s.file) == s.aux.h
  {
    hide HeaderBytes, Frames, MappedHeader;
    HeaderRoundTrip(s.aux.h);
    var rest := s.file[LOG_HDR_SIZE..];
    if s.mgr.Moving? {
      var n := Hole(s.mgr.fi);
      assert s.file[..LOG_HDR_SIZE] == s.file[..n][..LOG_HDR_SIZE] == HeaderBytes(s.aux.h);
    } else {
      assert s.file[..LOG_HDR_SIZE] == HeaderBytes(s.aux.h);
    }
    assert s.file == HeaderBytes(s.aux.h) + rest;
    MappedHeaderOf(s.aux.h, rest);
  }

  // ----- the reader's descriptor

  predicate HasLog(v: View) {
    v.pc in {Seeking, Reading, Resyncing, ResyncingEnd}
  }

  /**
   Generation safety: a descriptor whose generation is still the file's has seen no compaction start, the
   log it opened is a prefix of the log, and its read pointer stands on a record boundary.
   */
  ghost predicate DescInv(s: State) {
    HasLog(s.view) ==>
      && s.view.generation % 2 == 0 && s.view.generation <= s.aux.h.generation
      && (s.view.generation == s.aux.h.generation ==>
            && !s.mgr.Moving? && !s.mgr.Truncated?
            && s.aux.seenStarts == s.aux.starts
            && s.aux.seen <= s.aux.recs
            && s.aux.k <= |s.aux.recs|
            && s.view.pos == Offset(s.aux.recs, s.aux.k))
  }

  predicate Current(s: State) {
    HasLog(s.view) && s.view.generation == s.aux.h.generation
  }

  // ----- order

  function Pending(s: State): seq<Rec> {
    (if s.waiting.Some? then s.waiting.value else []) + if s.held.Some? then [s.held.value] else []
  }

  function Id(r: Rec): nat { r.entry.recid }

  /** As long as no note about drops was filed, the log is sorted, and what waits will keep it so. */
  ghost predicate OrderInv(s: State) {
    && -1 <= s.aux.high <= s.recId
    && Sorted(s.aux.recs + s.aux.rest)
    && (forall r <- s.aux.recs + s.aux.rest :: Id(r) <= s.aux.high)
    && Sorted(Pending(s))
    && (forall r <- Pending(s) :: s.aux.high < Id(r) <= s.recId)
  }

  // ----- what was copied

  /** Of the records up to the last one copied, every match was copied or jumped over. */
  ghost predicate Covered(s: State, filter: Query) {
    forall r <- s.aux.recs + s.aux.rest ::
      Matches(filter, r) && Id(r) <= s.view.last ==> r in s.view.out || Id(r) in s.aux.jumped
  }

  /** Behind the read pointer lies nothing uncopied and unjumped, before it nothing copied or jumped. */
  ghost predicate Positioned(s: State, filter: Query)
    requires s.aux.k <= |s.aux.recs|
  {
    && (forall i :: 0 <= i < s.aux.k && Matches(filter, s.aux.recs[i]) ==>
          Id(s.aux.recs[i]) <= s.view.last || Id(s.aux.recs[i]) in s.aux.jumped)
    && (forall i :: s.aux.k <= i < |s.aux.recs| ==>
          s.view.last < Id(s.aux.recs[i]) && Id(s.aux.recs[i]) !in s.aux.jumped)
  }

  ghost predicate OutInv(s: State, filter: Query) {
    && Sorted(s.view.out)
    && (s.view.out == [] <==> s.view.last == -1)
    && (s.view.out != [] ==> s.view.last == Id(s.view.out[|s.view.out| - 1]))
    && s.view.last <= s.aux.high
    && (s.view.pc in {Resyncing, ResyncingEnd} ==> s.view.last >= 0)
    && Covered(s, filter)
    && (forall r <- s.view.out :: Id(r) !in s.aux.jumped)
    && (forall id <- s.aux.jumped :: id <= s.aux.high)
    && (s.view.last == -1 ==> s.aux.jumped == {})
    && (!s.aux.raced ==> s.aux.jumped == {})
    && (Current(s) && s.aux.k <= |s.aux.recs| ==>
          && (s.view.pc in {Seeking, Reading} ==> Positioned(s, filter))
          && (s.view.pc == ResyncingEnd && !s.aux.raced ==> forall r <- s.aux.recs :: Id(r) <= s.view.last))
  }

  /** Only matching records are copied. */
  ghost predicate MatchInv(s: State, filter: Query) {
    && (forall r <- s.view.out :: Matches(filter, r))
    && (filter.Some? && Current(s) && s.view.pc == Reading ==>
          s.aux.k < |s.aux.recs| && Matches(filter, s.aux.recs[s.aux.k]))
    && (s.view.pc == Seeking ==> filter.Some?)
  }

  ghost predicate Inv(s: State, filter: Query) {
    && FileInv(s)
    && DescInv(s)
    && MatchInv(s, filter)
    && (!s.aux.noted ==> OrderInv(s) && OutInv(s, filter))
  }

  lemma {:induction false} InitHolds(s: State, filter: Query)
    requires Init(s)
    ensures Inv(s, filter)
  {
    hide HeaderBytes, Frames;
    assert s.aux.recs + s.aux.rest == s.aux.recs;
    assert Pending(s) == [];
  }

  // ----- steps that file records

  lemma {:induction false} FilingKeepsFile(s: State, more: seq<Rec>, filter: Query)
    requires FileInv(s) && s.mgr.Idle? && ValidRecs(more) && DescInv(s) && MatchInv(s, filter)
    ensures FileInv(File(s, more)) && DescInv(File(s, more)) && MatchInv(File(s, more), filter)
  {
    hide IsLog, Frames, Sliding;
    LogGrows(s.file, s.aux.h, s.aux.recs, more);
    if Current(s) {
      OffsetOfPrefix(s.aux.recs, more, s.aux.k);
    }
  }

  /** Filing the front of what is pending keeps the log sorted and below what is left. */
  lemma {:induction false} FilingOrder(s: State, more: seq<Rec>, left: seq<Rec>)
    requires s.aux.rest == [] && OrderInv(s) && Pending(s) == more + left
    ensures var s' := File(s, more);
            && Sorted(s'.aux.recs + s'.aux.rest) && (forall r <- s'.aux.recs + s'.aux.rest :: Id(r) <= s'.aux.high)
            && s.aux.high <= s'.aux.high <= s.recId
            && Sorted(left) && (forall r <- left :: s'.aux.high < Id(r) <= s.recId)
            && (forall r <- more :: s.aux.high < Id(r))
  {
    hide Frames, Offset, Pending;
    var s', p := File(s, more), Pending(s);
    assert s.aux.recs + s.aux.rest == s.aux.recs;
    assert s'.aux.recs + s'.aux.rest == s.aux.recs + more;
    PartsSorted(more, left);
    forall r | r in more
      ensures s.aux.high < Id(r) <= s'.aux.high
    {
      var i :| 0 <= i < |more| && more[i] == r;
      assert r in p;
    }
    forall r | r in left
      ensures s'.aux.high < Id(r) <= s.recId
    {
      var i :| 0 <= i < |left| && left[i] == r;
      assert p[|more| + i] == r && r in p;
      assert more != [] ==> p[|more| - 1] == more[|more| - 1];
    }
    if more != [] {
      assert more[|more| - 1] in p;
    }
    SortedAppend(s.aux.recs, more, s.aux.high);
  }

  lemma {:induction false} PartsSorted(a: seq<Rec>, b: seq<Rec>)
    requires Sorted(a + b)
    ensures Sorted(a) && Sorted(b)
  {
    assert forall i :: 0 <= i < |a| ==> a[i] == (a + b)[i];
    assert forall i :: 0 <= i < |b| ==> b[i] == (a + b)[|a| + i];
  }

  /** Records filed above everything copied are behind the read pointer. */
  lemma {:induction false} FilingKeepsOut(s: State, more: seq<Rec>, filter: Query)
    requires s.aux.rest == [] && OutInv(s, filter) && DescInv(s)
    requires s.aux.high <= File(s, more).aux.high
    requires forall r <- more :: s.aux.high < Id(r)
    ensures OutInv(File(s, more), filter)
  {
    hide Frames, Offset, Matches;
    var s' := File(s, more);
    assert s.aux.recs + s.aux.rest == s.aux.recs;
    assert s'.aux.recs + s'.aux.rest == s.aux.recs + more;
  }

  lemma {:induction false} FilingKeepsOrder(s: State, more: seq<Rec>, left: seq<Rec>, filter: Query)
    requires s.aux.rest == [] && OrderInv(s) && OutInv(s, filter) && DescInv(s)
    requires Pending(s) == more + left
    ensures var s' := File(s, more);
            && Sorted(s'.aux.recs + s'.aux.rest) && (forall r <- s'.aux.recs + s'.aux.rest :: Id(r) <= s'.aux.high)
            && s.aux.high <= s'.aux.high <= s.recId
            && Sorted(left) && (forall r <- left :: s'.aux.high < Id(r) <= s.recId)
            && OutInv(s', filter)
  {
    hide File, OutInv, DescInv, OrderInv;
    FilingOrder(s, more, left);
    FilingKeepsOut(s, more, filter);
  }

  lemma {:induction false} SortedAppend(a: seq<Rec>, b: seq<Rec>, m: int)
    requires Sorted(a) && Sorted(b) && (forall r <- a :: Id(r) <= m) && forall r <- b :: m < Id(r)
    ensures Sorted(a + b)
  {
    forall i, j | 0 <= i < j < |a + b|
      ensures (a + b)[i].entry.recid < (a + b)[j].entry.recid
    {
      if i < |a| <= j {
        assert Id(a[i]) <= m < Id(b[j - |a|]);
      }
    }
  }

  /** A step that leaves the file, the log, the manager and the reader alone keeps their part of the invariant. */
  ghost predicate SameLogAndView(s: State, s': State) {
    s'.file == s.file && s'.mgr == s.mgr && s'.view == s.view && s'.aux == s.aux
  }

  lemma {:induction false} OtherPartsKept(s: State, s': State, filter: Query)
    requires Inv(s, filter) && SameLogAndView(s, s')
    requires s'.held.Some? ==> s'.mgr.Idle? && s'.held.value.Valid()
    requires s'.waiting.Some? ==> ValidRecs(s'.waiting.value)
    requires !s.aux.noted ==> OrderInv(s')
    ensures Inv(s', filter)
  {
    hide IsLog, Sliding, DescInv, MatchInv, OutInv, OrderInv;
    BufferOnly(s, s', filter);
  }

  /** Submitting a record puts it behind all that is pending, or drops it. */
  lemma {:induction false} SubmitPending(s: State, step: Step)
    requires FileInv(s) && Enabled(s, step) && step.Submit?
    ensures var s' := WriterStep(s, step);
            var rec := EventWriter.WithId(step.ev, NextId(s));
            && SameLogAndView(s, s') && s'.recId == NextId(s) == Id(rec)
            && (Pending(s') == Pending(s) || Pending(s') == Pending(s) + [rec])
            && (s'.held.Some? ==> s'.mgr.Idle? && s'.held.value.Valid())
            && (s'.waiting.Some? ==> ValidRecs(s'.waiting.value))
  {
    hide EventWriter.WithId, Frames, Frame, IsLog, Sliding, EventWriter.NextRecId;
    var s' := WriterStep(s, step);
    var rec := EventWriter.WithId(step.ev, NextId(s));
    IdOf(step.ev, NextId(s));
    if s'.waiting.Some? && s.waiting.Some? && s'.waiting.value == s.waiting.value + [rec] {
      EventWriter.OneValid(rec);
      ValidAppend(s.waiting.value, [rec]);
    }
  }

  lemma {:induction false} SubmitKeeps(s: State, step: Step, filter: Query)
    requires Inv(s, filter) && Enabled(s, step) && step.Submit?
    ensures Inv(WriterStep(s, step), filter)
  {
    hide EventWriter.WithId, WriterStep, FileInv, OutInv, MatchInv, DescInv, Pending;
    SubmitPending(s, step);
    var rec := EventWriter.WithId(step.ev, NextId(s));
    if !s.aux.noted {
      SortedAppend(Pending(s), [rec], s.recId);
    }
    OtherPartsKept(s, WriterStep(s, step), filter);
  }

  lemma {:induction false} IdOf(ev: Rec, id: nat)
    ensures Id(EventWriter.WithId(ev, id)) == id
  {
  }

  lemma {:induction false} DrainKeeps(s: State, filter: Query)
    requires Inv(s, filter) && WriterEnabled(s, DrainBuffer)
    ensures Inv(WriterStep(s, DrainBuffer), filter)
  {
    hide Frames, IsLog, Sliding, OutInv, MatchInv, DescInv, File;
    var more := s.waiting.value;
    var s1, s' := File(s, more), WriterStep(s, DrainBuffer);
    FileFrame(s, more);
    FilingKeepsFile(s, more, filter);
    if !s.aux.noted {
      FilingKeepsOrder(s, more, [s.held.value], filter);
      assert Pending(s') == [s.held.value];
    }
    BufferOnly(s1, s', filter);
  }

  lemma {:induction false} FileFrame(s: State, more: seq<Rec>)
    ensures var s' := File(s, more);
            && s'.mgr == s.mgr && s'.recId == s.recId && s'.held == s.held && s'.waiting == s.waiting
            && s'.dropped == s.dropped && s'.view == s.view && s'.aux.noted == s.aux.noted && s'.aux.rest == s.aux.rest
  {
    hide Frames;
  }

  /** The reader's part of the invariant does not look at the writer's buffer. */
  lemma {:induction false} BufferOnly(s: State, s': State, filter: Query)
    requires SameLogAndView(s, s')
    ensures DescInv(s) ==> DescInv(s')
    ensures MatchInv(s, filter) ==> MatchInv(s', filter)
    ensures OutInv(s, filter) ==> OutInv(s', filter)
  {
    hide Offset;
  }

  lemma {:induction false} FileRecordKeeps(s: State, filter: Query)
    requires Inv(s, filter) && WriterEnabled(s, FileRecord)
    ensures Inv(WriterStep(s, FileRecord), filter)
  {
    hide Frames, IsLog, Sliding, OutInv, MatchInv, DescInv, File;
    var more := [s.held.value];
    var s1, s' := File(s, more), WriterStep(s, FileRecord);
    EventWriter.OneValid(s.held.value);
    FileFrame(s, more);
    FilingKeepsFile(s, more, filter);
    if !s.aux.noted {
      assert Pending(s) == more + [];
      FilingKeepsOrder(s, more, [], filter);
      assert Pending(s') == [];
    }
    BufferOnly(s1, s', filter);
  }

  lemma {:induction false} FileNoteKeeps(s: State, step: Step, filter: Query)
    requires Inv(s, filter) && Enabled(s, step) && step.FileNote?
    ensures Inv(WriterStep(s, step), filter)
  {
    hide Frames, IsLog, Sliding, EventWriter.DropNote;
    var note := EventWriter.DropNote(NextId(s), s.dropped, step.magic, step.stamp);
    EventWriter.OneValid(note);
    FilingKeepsFile(s, [note], filter);
  }

  lemma {:induction false} WriterKeeps(s: State, step: Step, filter: Query)
    requires Inv(s, filter) && Enabled(s, step) && WriterEnabled(s, step)
    ensures Inv(WriterStep(s, step), filter)
  {
    match step
    case PrivateEvent =>
      hide IsLog, Sliding;
      OtherPartsKept(s, WriterStep(s, step), filter);
    case Submit(_, _) => SubmitKeeps(s, step, filter);
    case DrainBuffer => DrainKeeps(s, filter);
    case FileNote(_, _) => FileNoteKeeps(s, step, filter);
    case FileRecord => FileRecordKeeps(s, filter);
    case _ => assert false;
  }

  // ----- steps of the compactor

  lemma {:induction false} SetOddKeepsFile(s: State)
    requires FileInv(s) && s.mgr.Locked? && s.aux.h.generation + 2 < 0x1_0000_0000
    ensures FileInv(ManagerStep(s, SetOdd))
  {
    hide HeaderBytes, SetGeneration, Frames, Sliding;
    var h := s.aux.h;
    var h' := h.(generation := h.generation + 1);
    SetGenerationKeepsBody(h, Frames(s.aux.recs), GenOdd);
    var s' := ManagerStep(s, SetOdd);
    assert IsLog(s'.file, h', s.aux.recs);
    HeaderRoundTrip(h);
    HeaderRoundTrip(h');
    assert |s'.file| == |s.file|;
    StartsSliding(s'.file, h', s.aux.recs);
  }

  lemma {:induction false} SetEvenKeepsFile(s: State)
    requires FileInv(s) && s.mgr.Truncated? && s.aux.h.generation + 1 < 0x1_0000_0000
    ensures FileInv(ManagerStep(s, SetEven))
  {
    hide HeaderBytes, SetGeneration, Frames, Sliding;
    SetGenerationKeepsBody(s.aux.h, Frames(s.aux.recs), GenEven);
  }

  lemma {:induction false} MoveKeepsFile(s: State)
    requires FileInv(s) && ManagerEnabled(s, MoveOne)
    ensures s.aux.rest != []
    ensures FileInv(ManagerStep(s, MoveOne))
  {
    hide HeaderBytes, CompactTurn, Doomed, Sliding;
    var fi, query, msg := s.mgr.fi, s.mgr.query, s.mgr.msg;
    if s.aux.rest == [] {
      SlidingDone(s.file, fi, s.aux.h, s.aux.recs);
    }
    TurnSlides(s.file, fi, s.aux.h, s.aux.recs, s.aux.rest, query, msg);
  }

  lemma {:induction false} TruncateKeepsFile(s: State)
    requires FileInv(s) && ManagerEnabled(s, Truncate)
    ensures s.aux.rest == []
    ensures FileInv(ManagerStep(s, Truncate))
  {
    hide HeaderBytes, Frames, Sliding;
    var fi := s.mgr.fi;
    if s.aux.rest != [] {
      SlidingMore(s.file, fi, s.aux.h, s.aux.recs, s.aux.rest);
    }
    SlidingDone(s.file, fi, s.aux.h, s.aux.recs);
    SlidingValid(s.file, fi, s.aux.h, s.aux.recs, s.aux.rest);
  }

  /** The records of the log after a step of the compactor: the same, or one fewer. */
  lemma {:induction false} ManagerKeepsRecords(s: State, step: Step)
    requires FileInv(s) && ManagerEnabled(s, step)
    ensures var s' := ManagerStep(s, step);
            var before, after := s.aux.recs + s.aux.rest, s'.aux.recs + s'.aux.rest;
            || after == before
            || exists i :: 0 <= i < |before| && after == before[..i] + before[i + 1..]
  {
    hide IsLog, Sliding, CompactTurn, Doomed, SetGeneration;
    var s' := ManagerStep(s, step);
    var before := s.aux.recs + s.aux.rest;
    if step.MoveOne? {
      MoveKeepsFile(s);
      var n := |s.aux.recs|;
      if Doomed(s.mgr.query, s.mgr.msg, s.aux.rest[0]) {
        assert s'.aux.recs + s'.aux.rest == before[..n] + before[n + 1..];
      } else {
        assert s'.aux.recs + s'.aux.rest == before;
      }
    } else if step.SetOdd? {
      assert s'.aux.recs + s'.aux.rest == before;
    }
  }

  lemma {:induction false} FewerKeepsOrder(before: seq<Rec>, after: seq<Rec>)
    requires Sorted(before)
    requires after == before || exists i :: 0 <= i < |before| && after == before[..i] + before[i + 1..]
    ensures Sorted(after) && forall r <- after :: r in before
  {
  }

  lemma {:induction false} ManagerKeepsFile(s: State, step: Step)
    requires FileInv(s) && ManagerEnabled(s, step)
    ensures FileInv(ManagerStep(s, step))
  {
    hide IsLog, Sliding, SetGeneration, CompactTurn, Doomed;
    match step
    case SetOdd => SetOddKeepsFile(s);
    case MoveOne => MoveKeepsFile(s);
    case Truncate => TruncateKeepsFile(s);
    case SetEven => SetEvenKeepsFile(s);
    case _ =>
  }

  lemma {:induction false} ManagerFrame(s: State, step: Step)
    requires ManagerEnabled(s, step)
    ensures var s' := ManagerStep(s, step);
            && s'.view == s.view && s'.recId == s.recId && s'.held == s.held && s'.waiting == s.waiting
            && s'.aux.noted == s.aux.noted && s'.aux.high == s.aux.high && s'.aux.raced == s.aux.raced
            && s'.aux.jumped == s.aux.jumped && s'.aux.k == s.aux.k && s'.aux.seen == s.aux.seen
            && s'.aux.seenStarts == s.aux.seenStarts
            && s.aux.h.generation <= s'.aux.h.generation
  {
    hide SetGeneration, CompactTurn, Doomed;
  }

  /** While records move or the log is cut no descriptor is current, and otherwise its log stays put. */
  lemma {:induction false} ManagerKeepsDesc(s: State, step: Step)
    requires FileInv(s) && DescInv(s) && ManagerEnabled(s, step)
    ensures DescInv(ManagerStep(s, step))
    ensures Current(ManagerStep(s, step)) ==> Current(s) && ManagerStep(s, step).aux.recs == s.aux.recs
  {
    hide IsLog, Sliding, Offset, SetGeneration, CompactTurn, Doomed;
  }

  lemma {:induction false} ManagerKeeps(s: State, step: Step, filter: Query)
    requires Inv(s, filter) && ManagerEnabled(s, step)
    ensures Inv(ManagerStep(s, step), filter)
  {
    hide FileInv, DescInv, OutInv, ManagerStep, ManagerEnabled;
    ManagerKeepsFile(s, step);
    ManagerFrame(s, step);
    ManagerKeepsDesc(s, step);
    ManagerKeepsRecords(s, step);
    var s' := ManagerStep(s, step);
    if !s.aux.noted {
      FewerKeepsOrder(s.aux.recs + s.aux.rest, s'.aux.recs + s'.aux.rest);
      assert Pending(s') == Pending(s);
      OutSurvives(s, s', filter);
    }
  }

  /** Losing records, or the descriptor going out of date, does not touch what was copied. */
  lemma {:induction false} OutSurvives(s: State, s': State, filter: Query)
    requires OutInv(s, filter) && s'.view == s.view
    requires s'.aux.jumped == s.aux.jumped && s'.aux.high == s.aux.high && s'.aux.raced == s.aux.raced
    requires forall r <- s'.aux.recs + s'.aux.rest :: r in s.aux.recs + s.aux.rest
    requires Current(s') ==> Current(s) && s'.aux.recs == s.aux.recs && s'.aux.k == s.aux.k
    ensures OutInv(s', filter)
  {
  }

  // ----- steps of the reader

  /** What the reader's gate sees. */
  lemma {:induction false} Gate(s: State)
    requires FileInv(s)
    ensures UpToDate(s.file, s.view.generation) <==> s.view.generation == s.aux.h.generation
  {
    HeaderInFile(s);
  }

  lemma {:induction false} CurrentLog(s: State)
    requires FileInv(s) && DescInv(s) && Current(s)
    ensures IsLog(s.file, s.aux.h, s.aux.recs) && s.aux.rest == []
    ensures s.aux.k <= |s.aux.recs| && s.view.pos == Offset(s.aux.recs, s.aux.k)
    ensures s.aux.recs + s.aux.rest == s.aux.recs
  {
    hide IsLog, Sliding, Offset;
  }

  /** Opening, at record level: it succeeds exactly when the generation is even. */
  lemma {:induction false} OpenEffect(s: State, filter: Query)
    requires FileInv(s)
    ensures ViewStep(s, OpenLog, filter)
         == if s.aux.h.generation % 2 == 1 then s
            else s.(view := View(if s.view.last < 0 then Top(filter) else Resyncing, s.aux.h.generation, LOG_HDR_SIZE,
                                 s.view.last, s.view.out),
                    aux := s.aux.(seen := s.aux.recs, seenStarts := s.aux.starts, k := 0))
  {
    hide MappedHeader, IsLog, Sliding;
    HeaderInFile(s);
    HeaderValid(s);
  }

  lemma {:induction false} HeaderValid(s: State)
    requires FileInv(s)
    ensures s.aux.h.Valid()
  {
  }

  lemma {:induction false} OpenKeeps(s: State, filter: Query)
    requires Inv(s, filter) && ViewEnabled(s, OpenLog)
    ensures Inv(ViewStep(s, OpenLog, filter), filter)
  {
    hide ViewStep, OrderInv, Offset, OutInv, IsLog, Sliding;
    OpenEffect(s, filter);
    if s.aux.h.generation % 2 == 0 {
      var s' := ViewStep(s, OpenLog, filter);
      SameFileInv(s, s');
      NoFramesBefore(s.aux.recs);
      if !s.aux.noted {
        OpenKeepsOut(s, s', filter);
      }
    }
  }

  lemma {:induction false} OpenKeepsOut(s: State, s': State, filter: Query)
    requires OutInv(s, filter)
    requires s'.aux == s.aux.(seen := s'.aux.seen, seenStarts := s'.aux.seenStarts, k := 0)
    requires s'.view.last == s.view.last && s'.view.out == s.view.out
    requires s'.view.pc == if s.view.last < 0 then Top(filter) else Resyncing
    ensures OutInv(s', filter)
  {
    hide Matches;
  }

  lemma {:induction false} NoFramesBefore(rs: seq<Rec>)
    ensures Offset(rs, 0) == LOG_HDR_SIZE
  {
    assert rs[..0] == [];
  }

  lemma {:induction false} CloseKeeps(s: State, s': State, filter: Query)
    requires Inv(s, filter) && !HasLog(s'.view)
    requires s' == s.(view := s.view.(pc := s'.view.pc))
    ensures Inv(s', filter)
  {
    hide IsLog, Sliding, Offset;
  }

  /** A filtered seek of the copying loop, at record level. */
  lemma {:induction false} SeekEffect(s: State, filter: Query)
    requires FileInv(s) && DescInv(s) && s.view.pc == Seeking && filter.Some?
    ensures var s' := ViewStep(s, SeekMatch, filter);
            if !Current(s) then s' == s.(view := s.view.(pc := Closed))
            else
              var j := NextMatch(s.aux.recs, s.aux.k, filter);
              if j == |s.aux.recs| then s' == s.(view := s.view.(pc := Finished))
              else s' == s.(view := s.view.(pc := Reading, pos := Offset(s.aux.recs, j)), aux := s.aux.(k := j))
  {
    hide FileInv, UpToDate, SeekFwdFrom, Offset, IsLog;
    Gate(s);
    if Current(s) {
      CurrentLog(s);
      SeekFwdFindsNearest(s.file, s.aux.h, s.aux.recs, s.view.pos, s.aux.k, filter);
    }
  }

  /** A read of the copying loop, at record level. */
  lemma {:induction false} ReadEffect(s: State, filter: Query)
    requires FileInv(s) && DescInv(s) && s.view.pc == Reading
    ensures var s' := ViewStep(s, ReadNext, filter);
            if !Current(s) then s' == s.(view := s.view.(pc := Closed))
            else if s.aux.k == |s.aux.recs| then s' == s.(view := s.view.(pc := Finished))
            else
              var r := s.aux.recs[s.aux.k];
              s' == s.(view := View(Top(filter), s.view.generation, Offset(s.aux.recs, s.aux.k + 1), Id(r),
                                    s.view.out + [r]),
                       aux := s.aux.(k := s.aux.k + 1))
  {
    hide FileInv, UpToDate, ReadRecord, Offset, IsLog;
    Gate(s);
    if Current(s) {
      CurrentLog(s);
      ReadAt(s.file, s.aux.h, s.aux.recs, s.aux.k, POSIX_LOG_ENTRY_MAXLEN);
      if s.aux.k < |s.aux.recs| {
        DataFits(s.file, s.aux.h, s.aux.recs, s.aux.k);
      }
    }
  }

  /** The resynchronising seek, at record level. */
  lemma {:induction false} ResyncEffect(s: State, filter: Query)
    requires FileInv(s) && DescInv(s) && s.view.pc == Resyncing && s.view.last >= 0
    ensures var s' := ViewStep(s, MaintenanceProtocol.Resync, filter);
            if !Current(s) then s' == s.(view := s.view.(pc := Closed))
            else
              var j := NextMatch(s.aux.recs, 0, IdAbove(s.view.last));
              if j == |s.aux.recs| then
                s' == s.(view := s.view.(pc := ResyncingEnd, pos := LOG_HDR_SIZE), aux := s.aux.(k := 0))
              else
                s' == s.(view := s.view.(pc := Top(filter), pos := Offset(s.aux.recs, j)),
                         aux := s.aux.(k := j, jumped := set id <- s.aux.jumped | id <= s.view.last))
  {
    hide FileInv, UpToDate, SeekFwdFrom, Offset, IsLog;
    Gate(s);
    if Current(s) {
      CurrentLog(s);
      NoFramesBefore(s.aux.recs);
      SeekFwdFindsNearest(s.file, s.aux.h, s.aux.recs, LOG_HDR_SIZE, 0, IdAbove(s.view.last));
    }
  }

  /** The seek to the end, at record level. */
  lemma {:induction false} ResyncEndEffect(s: State, filter: Query)
    requires FileInv(s) && DescInv(s) && s.view.pc == ResyncingEnd
    ensures var s' := ViewStep(s, ResyncEnd, filter);
            if !Current(s) then s' == s.(view := s.view.(pc := Closed))
            else
              s' == s.(view := s.view.(pc := Top(filter), pos := Offset(s.aux.recs, |s.aux.recs|)),
                       aux := s.aux.(k := |s.aux.recs|,
                                     jumped := s.aux.jumped + set id <- Ids(s.aux.recs) | id > s.view.last))
  {
    hide FileInv, UpToDate, Offset, IsLog, Ids;
    Gate(s);
    if Current(s) {
      CurrentLog(s);
      LogEnds(s.file, s.aux.h, s.aux.recs);
    }
  }

  lemma {:induction false} SeekKeeps(s: State, filter: Query)
    requires Inv(s, filter) && s.view.pc == Seeking
    ensures Inv(ViewStep(s, SeekMatch, filter), filter)
  {
    hide FileInv, ViewStep, Offset, OutInv, OrderInv;
    SeekEffect(s, filter);
    var s' := ViewStep(s, SeekMatch, filter);
    if !Current(s) || NextMatch(s.aux.recs, s.aux.k, filter) == |s.aux.recs| {
      CloseKeeps(s, s', filter);
    } else {
      SameFileInv(s, s');
      if !s.aux.noted {
        FoundKeepsOut(s, s', filter);
      }
    }
  }

  lemma {:induction false} FoundKeepsOut(s: State, s': State, filter: Query)
    requires Current(s) && s.view.pc == Seeking && s.aux.k <= |s.aux.recs| && OutInv(s, filter)
    requires s'.aux == s.aux.(k := NextMatch(s.aux.recs, s.aux.k, filter))
    requires s'.view == s.view.(pc := Reading, pos := s'.view.pos)
    ensures OutInv(s', filter)
  {
    assert Positioned(s, filter);
    assert Positioned(s', filter);
  }

  lemma {:induction false} SameFileInv(s: State, s': State)
    requires FileInv(s)
    requires s'.file == s.file && s'.mgr == s.mgr && s'.held == s.held && s'.waiting == s.waiting
    requires s'.aux.h == s.aux.h && s'.aux.recs == s.aux.recs && s'.aux.rest == s.aux.rest
    ensures FileInv(s')
    ensures OrderInv(s) && s'.aux.high == s.aux.high && s'.recId == s.recId ==> OrderInv(s')
  {
    hide IsLog, Sliding;
  }

  lemma {:induction false} ReadKeeps(s: State, filter: Query)
    requires Inv(s, filter) && s.view.pc == Reading
    ensures Inv(ViewStep(s, ReadNext, filter), filter)
  {
    hide FileInv, ViewStep, Offset, OutInv, OrderInv;
    ReadEffect(s, filter);
    var s' := ViewStep(s, ReadNext, filter);
    if !Current(s) || s.aux.k == |s.aux.recs| {
      CloseKeeps(s, s', filter);
    } else {
      SameFileInv(s, s');
      CurrentLog(s);
      if !s.aux.noted {
        CopyKeepsOut(s, s', filter);
      }
    }
  }

  /** Copying the record at the read pointer. */
  lemma {:induction false} CopyKeepsOut(s: State, s': State, filter: Query)
    requires Current(s) && s.view.pc == Reading && s.aux.k < |s.aux.recs| && s.aux.rest == []
    requires OrderInv(s) && OutInv(s, filter)
    requires s'.aux == s.aux.(k := s.aux.k + 1)
    requires s'.view == View(Top(filter), s.view.generation, s'.view.pos, Id(s.aux.recs[s.aux.k]),
                             s.view.out + [s.aux.recs[s.aux.k]])
    ensures OutInv(s', filter)
  {
    hide Matches, OutInv, OrderInv, Covered, Positioned;
    CopyOrder(s, filter);
    assert s'.view.out[|s'.view.out| - 1] == s.aux.recs[s.aux.k];
    CopyCovers(s, s', filter);
    CopyRest(s, s', filter);
  }

  /** The record at the read pointer is above everything copied and at or above everything before it. */
  lemma {:induction false} CopyOrder(s: State, filter: Query)
    requires Current(s) && s.view.pc == Reading && s.aux.k < |s.aux.recs| && s.aux.rest == []
    requires OrderInv(s) && OutInv(s, filter)
    ensures var r := s.aux.recs[s.aux.k];
            && Sorted(s.aux.recs) && Sorted(s.view.out + [r])
            && s.view.last < Id(r) <= s.aux.high && Id(r) !in s.aux.jumped
  {
    hide Matches, Covered;
    var r := s.aux.recs[s.aux.k];
    assert s.aux.recs + s.aux.rest == s.aux.recs;
    OutIsBelow(s, filter);
    SortedAppend(s.view.out, [r], s.view.last);
  }

  lemma {:induction false} CopyCovers(s: State, s': State, filter: Query)
    requires Current(s) && s.view.pc == Reading && s.aux.k < |s.aux.recs| && s.aux.rest == []
    requires Sorted(s.aux.recs) && OutInv(s, filter)
    requires s'.aux == s.aux.(k := s.aux.k + 1)
    requires s'.view.last == Id(s.aux.recs[s.aux.k]) && s'.view.out == s.view.out + [s.aux.recs[s.aux.k]]
    ensures Covered(s', filter) && Positioned(s', filter)
  {
    hide Matches;
    var recs, k := s.aux.recs, s.aux.k;
    assert recs + s.aux.rest == recs && Positioned(s, filter);
    forall x | x in recs && Matches(filter, x) && Id(x) <= Id(recs[k])
      ensures x in s'.view.out || Id(x) in s'.aux.jumped
    {
      var i :| 0 <= i < |recs| && recs[i] == x;
      assert i <= k;
      assert x in recs + s.aux.rest;
    }
  }

  lemma {:induction false} CopyRest(s: State, s': State, filter: Query)
    requires s.aux.k < |s.aux.recs| && s.aux.rest == [] && OutInv(s, filter)
    requires s'.aux == s.aux.(k := s.aux.k + 1)
    requires s'.view == View(Top(filter), s.view.generation, s'.view.pos, Id(s.aux.recs[s.aux.k]),
                             s.view.out + [s.aux.recs[s.aux.k]])
    requires Covered(s', filter) && Positioned(s', filter)
    requires Sorted(s'.view.out) && Id(s.aux.recs[s.aux.k]) <= s.aux.high && Id(s.aux.recs[s.aux.k]) !in s.aux.jumped
    ensures OutInv(s', filter)
  {
    hide Matches, Covered, Positioned, Sorted;
  }

  lemma {:induction false} OutIsBelow(s: State, filter: Query)
    requires OutInv(s, filter)
    ensures forall x <- s.view.out :: Id(x) <= s.view.last
  {
    var out := s.view.out;
    forall x | x in out
      ensures Id(x) <= s.view.last
    {
      var i :| 0 <= i < |out| && out[i] == x;
      assert i == |out| - 1 || Id(out[i]) < Id(out[|out| - 1]);
    }
  }

  lemma {:induction false} ResyncKeeps(s: State, filter: Query)
    requires Inv(s, filter) && s.view.pc == Resyncing
    ensures Inv(ViewStep(s, MaintenanceProtocol.Resync, filter), filter)
  {
    hide FileInv, ViewStep, Offset, OutInv, OrderInv;
    var s' := ViewStep(s, MaintenanceProtocol.Resync, filter);
    if s.view.last < 0 {
      NothingToResync(s, filter);
    } else {
      ResyncEffect(s, filter);
      if !Current(s) {
        CloseKeeps(s, s', filter);
      } else {
        SameFileInv(s, s');
        CurrentLog(s);
        NoFramesBefore(s.aux.recs);
        if !s.aux.noted {
          ResyncKeepsOut(s, s', filter);
        }
      }
    }
  }

  lemma {:induction false} NothingToResync(s: State, filter: Query)
    requires s.view.last < 0
    ensures ViewStep(s, MaintenanceProtocol.Resync, filter) == s
  {
  }

  lemma {:induction false} ResyncKeepsOut(s: State, s': State, filter: Query)
    requires Current(s) && s.view.pc == Resyncing && s.aux.rest == []
    requires OrderInv(s) && OutInv(s, filter)
    requires var j := NextMatch(s.aux.recs, 0, IdAbove(s.view.last));
             && s'.view == s.view.(pc := if j == |s.aux.recs| then ResyncingEnd else Top(filter), pos := s'.view.pos)
             && s'.aux == if j == |s.aux.recs| then s.aux.(k := 0)
                          else s.aux.(k := j, jumped := set id <- s.aux.jumped | id <= s.view.last)
    ensures OutInv(s', filter)
  {
    hide Matches, NextMatch, OutInv;
    var recs, last := s.aux.recs, s.view.last;
    assert recs + s.aux.rest == recs;
    LastKnown(s, filter);
    SplitAtLast(recs, last);
    if NextMatch(recs, 0, IdAbove(last)) < |recs| {
      FoundAboveKeepsOut(s, s', filter);
    } else {
      assert forall r <- recs :: Id(r) <= last;
      NoneAboveKeepsOut(s, s', filter);
    }
  }

  lemma {:induction false} LastKnown(s: State, filter: Query)
    requires OutInv(s, filter) && s.view.pc == Resyncing
    ensures s.view.last >= 0
  {
  }

  lemma {:induction false} FoundAboveKeepsOut(s: State, s': State, filter: Query)
    requires OutInv(s, filter) && s.aux.rest == [] && s'.aux.k <= |s.aux.recs|
    requires s'.view == s.view.(pc := Top(filter), pos := s'.view.pos)
    requires s'.aux == s.aux.(k := s'.aux.k, jumped := set id <- s.aux.jumped | id <= s.view.last)
    requires forall i :: 0 <= i < s'.aux.k ==> Id(s.aux.recs[i]) <= s.view.last
    requires forall i :: s'.aux.k <= i < |s.aux.recs| ==> s.view.last < Id(s.aux.recs[i])
    ensures OutInv(s', filter)
  {
    hide Matches;
    assert Positioned(s', filter);
  }

  lemma {:induction false} NoneAboveKeepsOut(s: State, s': State, filter: Query)
    requires OutInv(s, filter) && s.view.last >= 0
    requires s'.view == s.view.(pc := ResyncingEnd, pos := s'.view.pos)
    requires s'.aux == s.aux.(k := 0)
    requires forall r <- s.aux.recs :: Id(r) <= s.view.last
    ensures OutInv(s', filter)
  {
    hide Matches;
  }

  /** The first record above last splits a sorted log. */
  lemma {:induction false} SplitAtLast(recs: seq<Rec>, last: int)
    requires Sorted(recs) && last >= 0
    ensures var j := NextMatch(recs, 0, IdAbove(last));
            && (forall i :: 0 <= i < j ==> Id(recs[i]) <= last)
            && (forall i :: j <= i < |recs| ==> last < Id(recs[i]))
  {
    var j := NextMatch(recs, 0, IdAbove(last));
    forall i | 0 <= i < j
      ensures Id(recs[i]) <= last
    {
      assert !Matches(IdAbove(last), recs[i]);
    }
    if j < |recs| {
      assert Matches(IdAbove(last), recs[j]);
    }
  }

  lemma {:induction false} ResyncEndKeeps(s: State, filter: Query)
    requires Inv(s, filter) && s.view.pc == ResyncingEnd
    ensures Inv(ViewStep(s, ResyncEnd, filter), filter)
  {
    ResyncEndEffect(s, filter);
    var s' := ViewStep(s, ResyncEnd, filter);
    if !Current(s) {
      CloseKeeps(s, s', filter);
    } else {
      SameFileInv(s, s');
      CurrentLog(s);
      hide FileInv, ViewStep, Offset;
      if !s.aux.noted {
        EndKeepsOut(s, s', filter);
      }
    }
  }

  lemma {:induction false} EndKeepsOut(s: State, s': State, filter: Query)
    requires Current(s) && s.view.pc == ResyncingEnd && s.aux.rest == [] && s.aux.k <= |s.aux.recs|
    requires OrderInv(s) && OutInv(s, filter)
    requires s'.view == s.view.(pc := Top(filter), pos := s'.view.pos)
    requires s'.aux == s.aux.(k := |s.aux.recs|,
                              jumped := s.aux.jumped + set id <- Ids(s.aux.recs) | id > s.view.last)
    ensures OutInv(s', filter)
  {
    var recs := s.aux.recs;
    assert recs + s.aux.rest == recs;
    OutIsBelow(s, filter);
    assert forall i :: 0 <= i < |recs| ==> recs[i] in recs && Id(recs[i]) in Ids(recs);
    assert Positioned(s', filter);
  }

  lemma {:induction false} ViewKeeps(s: State, step: Step, filter: Query)
    requires Inv(s, filter) && ViewEnabled(s, step)
    ensures Inv(ViewStep(s, step, filter), filter)
  {
    match step
    case OpenLog => OpenKeeps(s, filter);
    case SeekMatch => SeekKeeps(s, filter);
    case ReadNext => ReadKeeps(s, filter);
    case Resync => ResyncKeeps(s, filter);
    case ResyncEnd => ResyncEndKeeps(s, filter);
    case GiveUp => CloseKeeps(s, ViewStep(s, step, filter), filter);
    case _ => assert false;
  }

  // ----- runs

  lemma {:induction false} StepKeeps(s: State, step: Step, filter: Query)
    requires Inv(s, filter) && Enabled(s, step)
    ensures Inv(Apply(s, step, filter), filter)
  {
    hide Inv, WriterStep, ManagerStep, ViewStep;
    if WriterEnabled(s, step) {
      WriterKeeps(s, step, filter);
    } else if ManagerEnabled(s, step) {
      ManagerKeeps(s, step, filter);
    } else {
      ViewKeeps(s, step, filter);
    }
  }

  lemma {:induction false} RunKeeps(s: State, steps: seq<Step>, filter: Query)
    requires Init(s) && Run(s, steps, filter)
    ensures Inv(After(s, steps, filter), filter)
    decreases |steps|
  {
    hide Inv, Init, Apply, Enabled;
    if steps == [] {
      InitHolds(s, filter);
    } else {
      RunKeeps(s, steps[..|steps| - 1], filter);
      StepKeeps(After(s, steps[..|steps| - 1], filter), steps[|steps| - 1], filter);
    }
  }

  /**
   Generation safety, over every run: while a descriptor passes the gate, no compaction has started since it
   was opened, the file is a well-formed log that extends the one opened, and the read pointer is a record
   boundary.
   */
  lemma {:induction false} GenerationSafety(s0: State, steps: seq<Step>, filter: Query)
    requires Init(s0) && Run(s0, steps, filter)
    ensures var s := After(s0, steps, filter);
            HasLog(s.view) && UpToDate(s.file, s.view.generation) ==>
              && s.aux.seenStarts == s.aux.starts
              && IsLog(s.file, s.aux.h, s.aux.recs)
              && s.aux.seen <= s.aux.recs
              && exists k :: 0 <= k <= |s.aux.recs| && s.view.pos == Offset(s.aux.recs, k)
  {
    hide IsLog, Offset, UpToDate, FileInv, MatchInv, OrderInv, OutInv, Init, Run, After;
    RunKeeps(s0, steps, filter);
    var s := After(s0, steps, filter);
    Gate(s);
    if HasLog(s.view) && UpToDate(s.file, s.view.generation) {
      CurrentLog(s);
    }
  }

  /** The step by which the reader's copying loop returns. */
  ghost predicate Returns(s: State, step: Step, filter: Query) {
    Enabled(s, step) && (step.SeekMatch? || step.ReadNext?) && Apply(s, step, filter).view.pc == Finished
  }

  /**
   When the reader returns, in any interleaving in which no note about drops was filed: what it copied is
   strictly increasing in id and matches, and a matching record then in the log was copied exactly when it
   was not jumped over.
   */
  lemma {:induction false} ReaderCopiesWhatWasNotJumped(s0: State, steps: seq<Step>, step: Step, filter: Query)
    requires Init(s0) && Run(s0, steps, filter)
    requires var s := After(s0, steps, filter); Returns(s, step, filter) && !s.aux.noted
    ensures var s' := Apply(After(s0, steps, filter), step, filter);
            && Sorted(s'.view.out)
            && IsLog(s'.file, s'.aux.h, s'.aux.recs)
            && (forall r <- s'.view.out :: Matches(filter, r))
            && (forall r <- s'.aux.recs | Matches(filter, r) :: r in s'.view.out <==> Id(r) !in s'.aux.jumped)
  {
    hide Run, After, Init;
    RunKeeps(s0, steps, filter);
    ReturnIsExact(After(s0, steps, filter), step, filter);
  }

  lemma {:induction false} ReturnIsExact(s: State, step: Step, filter: Query)
    requires Inv(s, filter) && Returns(s, step, filter) && !s.aux.noted
    ensures var s' := Apply(s, step, filter);
            && s' == s.(view := s.view.(pc := Finished))
            && IsLog(s.file, s.aux.h, s.aux.recs)
            && (forall r <- s.aux.recs | Matches(filter, r) :: r in s.view.out <==> Id(r) !in s.aux.jumped)
  {
    hide FileInv, Returns, Apply, IsLog, Matches, OrderInv, Offset;
    ReturnState(s, step, filter);
    CurrentLog(s);
    var recs := s.aux.recs;
    assert Positioned(s, filter);
    forall r | r in recs && Matches(filter, r)
      ensures r in s.view.out <==> Id(r) !in s.aux.jumped
    {
      var i :| 0 <= i < |recs| && recs[i] == r;
      assert i < s.aux.k;
      assert r in recs + s.aux.rest;
    }
  }

  /** The loop returns only at the end of the log, or where no match is left. */
  lemma {:induction false} ReturnState(s: State, step: Step, filter: Query)
    requires Inv(s, filter) && Returns(s, step, filter)
    ensures Apply(s, step, filter) == s.(view := s.view.(pc := Finished))
    ensures Current(s) && s.view.pc in {Seeking, Reading} && s.aux.k <= |s.aux.recs|
    ensures forall i :: s.aux.k <= i < |s.aux.recs| ==> !Matches(filter, s.aux.recs[i])
  {
    hide FileInv, ViewStep, OutInv, OrderInv, Offset;
    if step.SeekMatch? {
      SeekEffect(s, filter);
    } else {
      ReadEffect(s, filter);
    }
  }

  /**
   Without a record filed between a failed resync seek and the seek to the end, nothing is ever jumped
   over: on return every matching record then in the log has been copied.
   */
  lemma {:induction false} ReaderIsComplete(s0: State, steps: seq<Step>, step: Step, filter: Query)
    requires Init(s0) && Run(s0, steps, filter)
    requires var s := After(s0, steps, filter); Returns(s, step, filter) && !s.aux.noted && !s.aux.raced
    ensures var s' := Apply(After(s0, steps, filter), step, filter);
            && Sorted(s'.view.out)
            && (forall r <- s'.view.out :: Matches(filter, r))
            && (forall r <- s'.aux.recs | Matches(filter, r) :: r in s'.view.out)
  {
    hide Run, After, Init;
    RunKeeps(s0, steps, filter);
    ReturnIsExact(After(s0, steps, filter), step, filter);
  }
}
