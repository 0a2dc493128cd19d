/**
 A run in which the forward reader misses a record although nothing is filed between its resync seeks: the note
 about dropped events outruns the event behind it, and the reader takes its bearings from the note.
 */
module ReaderAfterDrops {
  import opened Options
  import opened Bytes
  import opened Framing
  import opened LogAccess
  import EventWriter
  import opened MaintenanceProtocol
  import opened ProtocolSafety
  import opened ProtocolRuns

  /** The filter is after the note about one dropped event and after event last, not after event ev. */
  ghost predicate TellsApart(filter: Query, ev: Rec, last: Rec, magic: nat, stamp: seq<byte>) {
    forall id ::
      && !Matches(filter, EventWriter.WithId(ev, id)) && Matches(filter, EventWriter.WithId(last, id))
      && Matches(filter, EventWriter.DropNote(id, 1, magic, stamp))
  }

  ghost predicate NoneMatches(rs: seq<Rec>, filter: Query) {
    forall r <- rs :: !Matches(filter, r)
  }

  // ----- events that cannot get the lock fill the buffer until one is dropped

  ghost predicate Filling(s: State, filter: Query) {
    && s.mgr.Idle? && s.held.None? && !s.aux.noted && s.dropped == 0
    && s.waiting.Some? && s.waiting.value != [] && NoneMatches(s.waiting.value, filter)
    && |Frames(s.waiting.value)| <= EventWriter.MAX_USER_EVLBUF
    && s.recId + 2 * (EventWriter.MAX_USER_EVLBUF - |Frames(s.waiting.value)|) < 0xffff_0000
  }

  lemma {:induction false} ValidWithId(ev: Rec, id: nat)
    requires ev.Valid() && id < 0x1_0000_0000
    ensures EventWriter.WithId(ev, id).Valid() && |Frame(EventWriter.WithId(ev, id))| >= REC_HDR_SIZE
  {
    hide Frame;
    FrameLength(EventWriter.WithId(ev, id));
  }

  /** One more goes into the buffer or is the first to be dropped. */
  lemma {:induction false} SubmitUnlocked(s: State, ev: Rec, filter: Query)
    requires Filling(s, filter) && ev.Valid() && forall id :: !Matches(filter, EventWriter.WithId(ev, id))
    ensures Enabled(s, Submit(ev, false))
    ensures var t := Apply(s, Submit(ev, false), filter);
            && t == s.(recId := t.recId, waiting := t.waiting, dropped := t.dropped)
            && (t.dropped == 0 ==> Filling(t, filter) && |Frames(s.waiting.value)| < |Frames(t.waiting.value)|)
            && (t.dropped != 0 ==> t.dropped == 1 && t.waiting == s.waiting && t.recId < 0xffff_8000)
  {
    hide Frames, Frame, EventWriter.WithId;
    var rec := EventWriter.WithId(ev, NextId(s));
    ValidWithId(ev, NextId(s));
    FramesAppend(s.waiting.value, [rec]);
    FramesOne(rec);
  }

  lemma {:induction false} FillUntilDrop(s0: State, before: seq<Step>, s: State, ev: Rec, filter: Query)
    returns (steps: seq<Step>, t: State)
    requires Reached(s0, before, s, filter) && Filling(s, filter) && ev.Valid()
    requires forall id :: !Matches(filter, EventWriter.WithId(ev, id))
    ensures Reached(s0, steps, t, filter)
    ensures t == s.(recId := t.recId, waiting := t.waiting, dropped := 1)
    ensures t.waiting.Some? && t.waiting.value != [] && NoneMatches(t.waiting.value, filter) && t.recId < 0xffff_8000
    decreases EventWriter.MAX_USER_EVLBUF - |Frames(s.waiting.value)|
  {
    hide Reached, Apply, Enabled, Frames;
    var submit := Submit(ev, false);
    SubmitUnlocked(s, ev, filter);
    Go(s0, before, s, submit, filter);
    var next := Apply(s, submit, filter);
    if next.dropped == 0 {
      steps, t := FillUntilDrop(s0, before + [submit], next, ev, filter);
    } else {
      steps, t := before + [submit], next;
    }
  }

  lemma {:induction false} DropOne(s0: State, ev: Rec, filter: Query) returns (steps: seq<Step>, t: State)
    requires Init(s0) && ev.Valid() && s0.recId < 0x8000_0000
    requires forall id :: !Matches(filter, EventWriter.WithId(ev, id))
    ensures Reached(s0, steps, t, filter)
    ensures t == s0.(recId := t.recId, waiting := t.waiting, dropped := 1)
    ensures t.waiting.Some? && t.waiting.value != [] && NoneMatches(t.waiting.value, filter) && t.recId < 0xffff_8000
  {
    hide Frame, EventWriter.WithId, Inv, Run, After;
    EmptyRun(s0, filter);
    var submit := Submit(ev, false);
    var rec := EventWriter.WithId(ev, NextId(s0));
    ValidWithId(ev, NextId(s0));
    FrameLength(rec);
    FramesOne(rec);
    NoFrames();
    assert [] + [rec] == [rec];
    assert s0.waiting == None;
    hide Frames;
    Go(s0, [], s0, submit, filter);
    var s := Apply(s0, submit, filter);
    assert s.waiting == Some([rec]);
    steps, t := FillUntilDrop(s0, [] + [submit], s, ev, filter);
  }

  // ----- the note is filed in front of the event that has the lower id

  /** The last two records are a note and the event it outran, everything else is below them and of no interest. */
  ghost predicate OutOfOrder(recs: seq<Rec>, note: Rec, last: Rec, filter: Query) {
    && |recs| >= 2 && recs[|recs| - 2] == note && recs[|recs| - 1] == last && Id(last) < Id(note)
    && (forall r <- recs :: Id(r) <= Id(note))
    && NoneMatches(recs[..|recs| - 2], filter) && Matches(filter, note) && Matches(filter, last)
  }

  lemma {:induction false} FileNoteFirst(s0: State, before: seq<Step>, s: State, last: Rec, magic: nat,
      stamp: seq<byte>, filter: Query)
    returns (steps: seq<Step>, t: State, note: Rec)
    requires Reached(s0, before, s, filter) && s.mgr.Idle? && s.held.None? && !s.aux.noted && s.aux.rest == []
    requires s.waiting.Some? && s.waiting.value != [] && s.dropped == 1 && s.recId < 0xffff_8000
    requires NoneMatches(s.aux.recs, filter) && NoneMatches(s.waiting.value, filter) && last.Valid()
    requires EventWriter.DropNote(0, 1, magic, stamp).Valid()
    requires forall id :: Matches(filter, EventWriter.WithId(last, id))
                          && Matches(filter, EventWriter.DropNote(id, 1, magic, stamp))
    ensures Reached(s0, steps, t, filter) && t.held.Some? && t.waiting.None? && t.mgr == s.mgr && t.view == s.view
    ensures OutOfOrder(t.aux.recs + [t.held.value], note, t.held.value, filter)
    ensures t.aux == s.aux.(recs := t.aux.recs, high := t.aux.high, noted := true,
                            raced := s.aux.raced || s.view.pc == ResyncingEnd)
  {
    hide Reached, Frames, Frame, EventWriter.WithId, EventWriter.DropNote;
    AllOld(s0, before, s, filter);
    var submit := Submit(last, true);
    ValidWithId(last, NextId(s));
    IdOf(last, NextId(s));
    Go(s0, before, s, submit, filter);
    var a := Apply(s, submit, filter);
    Go(s0, before + [submit], a, DrainBuffer, filter);
    var b := Apply(a, DrainBuffer, filter);
    var fileNote := FileNote(magic, stamp);
    note := EventWriter.DropNote(NextId(b), 1, magic, stamp);
    NoteOf(NextId(b), magic, stamp);
    Go(s0, before + [submit] + [DrainBuffer], b, fileNote, filter);
    t := Apply(b, fileNote, filter);
    steps := before + [submit] + [DrainBuffer] + [fileNote];
    assert t.aux.recs == s.aux.recs + s.waiting.value + [note];
    var recs := t.aux.recs + [t.held.value];
    assert recs[..|recs| - 2] == s.aux.recs + s.waiting.value;
  }

  lemma {:induction false} NoteOf(id: nat, magic: nat, stamp: seq<byte>)
    requires EventWriter.DropNote(0, 1, magic, stamp).Valid() && id < 0x1_0000_0000
    ensures EventWriter.DropNote(id, 1, magic, stamp).Valid() && Id(EventWriter.DropNote(id, 1, magic, stamp)) == id
  {
  }

  lemma {:induction false} AllOld(s0: State, steps: seq<Step>, s: State, filter: Query)
    requires Reached(s0, steps, s, filter) && !s.aux.noted && s.waiting.Some? && s.held.None? && s.aux.rest == []
    ensures forall r <- s.aux.recs + s.waiting.value :: Id(r) <= s.recId
  {
    hide FileInv, DescInv, OutInv, MatchInv;
    assert s.aux.recs + s.aux.rest == s.aux.recs && Pending(s) == s.waiting.value;
  }

  // ----- the reader copies the note; the event is filed and the log compacted; the reader starts again

  lemma {:induction false} CopyNote(s0: State, before: seq<Step>, s: State, front: seq<Rec>, note: Rec, filter: Query)
    returns (steps: seq<Step>, t: State)
    requires Reached(s0, before, s, filter) && s.mgr.Idle? && filter.Some?
    requires s.view.pc == Closed && s.view.last == -1 && s.view.out == []
    requires s.aux.recs == front + [note] && NoneMatches(front, filter) && Matches(filter, note)
    ensures Reached(s0, steps, t, filter)
    ensures t == s.(view := t.view, aux := s.aux.(seen := t.aux.seen, seenStarts := t.aux.seenStarts, k := t.aux.k))
    ensures t.view.pc == Seeking && t.view.last == Id(note) && t.view.out == [note] && Current(t)
  {
    hide Reached, Offset, Matches, NextMatch, Apply;
    var a := GoOpen(s0, before, s, filter);
    FirstAfter(front, note, filter);
    var b := GoSeek(s0, before + [OpenLog], a, filter);
    assert b.aux.recs[b.aux.k] == note;
    t := GoRead(s0, before + [OpenLog] + [SeekMatch], b, filter);
    steps := before + [OpenLog] + [SeekMatch] + [ReadNext];
  }

  lemma {:induction false} FirstAfter(front: seq<Rec>, note: Rec, filter: Query)
    requires NoneMatches(front, filter) && Matches(filter, note)
    ensures NextMatch(front + [note], 0, filter) == |front|
  {
    hide Matches;
    var all := front + [note];
    assert forall i :: 0 <= i < |front| ==> all[i] == front[i] && front[i] in front;
    assert all[|front|] == note;
  }

  /** The reader reopens the log; nothing stands above its last id, so it goes to the end of the log, and is done. */
  lemma {:induction false} ResyncPast(s0: State, before: seq<Step>, s: State, filter: Query)
    returns (steps: seq<Step>, t: State)
    requires Reached(s0, before, s, filter) && s.mgr.Idle? && filter.Some? && s.view.pc == Seeking && !Current(s)
    requires s.view.last >= 0 && forall r <- s.aux.recs :: Id(r) <= s.view.last
    ensures Reached(s0, steps, t, filter) && Returns(t, SeekMatch, filter)
    ensures t.aux.recs == s.aux.recs && t.aux.raced == s.aux.raced && t.view.out == s.view.out
    ensures Apply(t, SeekMatch, filter).view.out == s.view.out
  {
    hide Reached, Offset, Ids, NextMatch, Apply;
    var a := GoSeek(s0, before, s, filter);
    var b := GoOpen(s0, before + [SeekMatch], a, filter);
    var c := GoResync(s0, before + [SeekMatch] + [OpenLog], b, filter);
    steps := before + [SeekMatch] + [OpenLog] + [MaintenanceProtocol.Resync] + [ResyncEnd];
    t := GoResyncEnd(s0, before + [SeekMatch] + [OpenLog] + [MaintenanceProtocol.Resync], c, filter);
    var end := GoSeek(s0, steps, t, filter);
  }

  /**
   Completeness fails too when a note about drops was filed, even if nothing was filed between the resync seeks:
   from every log there is a run in which the reader returns while a matching record stands in the log uncopied.
   */
  lemma {:induction false} NoteHidesRecord(s0: State, ev: Rec, last: Rec, magic: nat, stamp: seq<byte>, filter: Query)
    requires Init(s0) && s0.recId < 0x8000_0000 && s0.aux.h.generation + 2 < 0x1_0000_0000
    requires ev.Valid() && last.Valid() && EventWriter.DropNote(0, 1, magic, stamp).Valid()
    requires filter.Some? && TellsApart(filter, ev, last, magic, stamp) && NoneMatches(s0.aux.recs, filter)
    ensures exists steps: seq<Step> ::
              && Run(s0, steps, filter) && Returns(After(s0, steps, filter), SeekMatch, filter)
              && !After(s0, steps, filter).aux.raced
              && exists x <- After(s0, steps, filter).aux.recs ::
                   Matches(filter, x) && x !in Apply(After(s0, steps, filter), SeekMatch, filter).view.out
  {
    hide Inv, Run, After, Returns, Apply, Enabled, EventWriter.WithId, EventWriter.DropNote, Matches;
    var s1steps, s1 := DropOne(s0, ev, filter);
    var s2steps, s2, note := FileNoteFirst(s0, s1steps, s1, last, magic, stamp, filter);
    var missed := s2.held.value;
    var front := s2.aux.recs[..|s2.aux.recs| - 1];
    LastTwo(s2.aux.recs, note, missed, filter);
    var s3steps, s3 := CopyNote(s0, s2steps, s2, front, note, filter);
    var s4steps, s4 := FileBehind(s0, s3steps, s3, filter);
    var s5steps, s5 := CompactNothing(s0, s4steps, s4, filter);
    var steps, s6 := ResyncPast(s0, s5steps, s5, filter);
    assert Run(s0, steps, filter) && After(s0, steps, filter) == s6;
    assert missed in s6.aux.recs && missed != note;
  }

  lemma {:induction false} LastTwo(recs: seq<Rec>, note: Rec, last: Rec, filter: Query)
    requires OutOfOrder(recs + [last], note, last, filter)
    ensures recs != [] && recs == recs[..|recs| - 1] + [note]
    ensures NoneMatches(recs[..|recs| - 1], filter) && Matches(filter, note) && Matches(filter, last)
  {
    hide Matches;
    var all := recs + [last];
    assert all[..|all| - 2] == recs[..|recs| - 1] && all[|all| - 2] == recs[|recs| - 1];
  }

  lemma {:induction false} FileBehind(s0: State, before: seq<Step>, s: State, filter: Query)
    returns (steps: seq<Step>, t: State)
    requires Reached(s0, before, s, filter) && s.held.Some? && s.waiting.None? && s.view.pc == Seeking
    ensures Reached(s0, steps, t, filter)
    ensures t == s.(file := t.file, held := None,
                    aux := s.aux.(recs := s.aux.recs + [s.held.value], high := t.aux.high))
  {
    hide Reached, Frames;
    Go(s0, before, s, FileRecord, filter);
    steps, t := before + [FileRecord], Apply(s, FileRecord, filter);
  }
}
