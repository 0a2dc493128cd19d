/**
 One event log shared by its writer (evlogd), the compactor (evlogmgr) and a forward reader (evlview), as a
 step system over the bytes of the file. Every read or seek of the reader, together with its check of the
 generation, is one step, and so is every write to the file.
 */
module MaintenanceProtocol {
  import opened Options
  import opened Bytes
  import opened Framing
  import opened LogAccess
  import opened Compaction
  import EventWriter
  import EvlView

  /** Where the compactor stands. It holds the lock except when idle. */
  datatype Manager =
    | Idle
    | Locked(query: Rec -> bool, msg: seq<byte>)
    | Moving(fi: OffsetInfo, query: Rec -> bool, msg: seq<byte>)
    | Truncated
    | Renewed

  datatype ViewPc = Closed | Seeking | Reading | Resyncing | ResyncingEnd | Finished | Failed

  /** The reader: its descriptor, the id of the last record it copied (-1: none), and what it copied. */
  datatype View = View(pc: ViewPc, generation: nat, pos: nat, last: int, out: seq<Rec>)

  /** Bookkeeping that no process sees. */
  datatype Aux = Aux(
    h: Header,            // the file's header
    recs: seq<Rec>,       // the log's records; while records move, those already packed
    rest: seq<Rec>,       // while records move, those not yet looked at
    high: int,            // the highest id ever filed
    noted: bool,          // a note about dropped events was filed
    raced: bool,          // a record was filed between a failed resync seek and the seek to the end
    starts: nat,          // compactions started
    seen: seq<Rec>,       // the log's records when the reader last opened it
    seenStarts: nat,      // compactions started by then
    k: nat,               // the record the read pointer stands before
    jumped: set<nat>)     // ids the seek to the end jumped over

  /** held is the record of a writer that has the lock; waiting and dropped are its secondary buffer. */
  datatype State = State(file: seq<byte>, mgr: Manager, recId: nat, held: Option<Rec>,
                         waiting: Option<seq<Rec>>, dropped: nat, view: View, aux: Aux)

  datatype Step =
    | PrivateEvent
    | Submit(ev: Rec, gotLock: bool)
    | DrainBuffer
    | FileNote(magic: nat, stamp: seq<byte>)
    | FileRecord
    | LockLog(query: Rec -> bool, msg: seq<byte>)
    | SetOdd
    | MoveOne
    | Truncate
    | SetEven
    | UnlockLog
    | OpenLog
    | SeekMatch
    | ReadNext
    | Resync
    | ResyncEnd
    | GiveUp

  // ----- the writer

  function NextId(s: State): nat { EventWriter.NextRecId(s.recId, 1) }

  function File(s: State, rs: seq<Rec>): State {
    s.(file := s.file + Frames(rs),
       aux := s.aux.(recs := s.aux.recs + rs,
                     high := if rs == [] then s.aux.high else rs[|rs| - 1].entry.recid,
                     raced := s.aux.raced || s.view.pc == ResyncingEnd))
  }

  function WriterStep(s: State, step: Step): State {
    match step
    case PrivateEvent => s.(recId := EventWriter.NextRecId(s.recId, 0))
    case Submit(ev, gotLock) =>
      var rec := EventWriter.WithId(ev, NextId(s));
      if gotLock then s.(recId := NextId(s), held := Some(rec))
      else
        var waiting := if s.waiting.Some? then s.waiting.value else [];
        var dropped := if s.waiting.Some? then s.dropped else 0;
        if |Frames(waiting)| + |Frame(rec)| <= EventWriter.MAX_USER_EVLBUF then
          s.(recId := NextId(s), waiting := Some(waiting + [rec]), dropped := dropped)
        else
          s.(recId := NextId(s), waiting := Some(waiting), dropped := dropped + 1)
    case DrainBuffer =>
      var waiting := if s.waiting.Some? then s.waiting.value else [];
      File(s, waiting).(waiting := if s.dropped > 0 then Some([]) else None)
    case FileNote(magic, stamp) =>
      var note := EventWriter.DropNote(NextId(s), s.dropped, magic, stamp);
      var s' := File(s, [note]);
      s'.(recId := NextId(s), waiting := None, aux := s'.aux.(noted := true))
    case FileRecord =>
      if s.held.Some? then File(s, [s.held.value]).(held := None) else s
    case _ => s
  }

  predicate WriterEnabled(s: State, step: Step) {
    match step
    case PrivateEvent => true
    case Submit(ev, gotLock) =>
      s.held.None? && (gotLock ==> s.mgr.Idle?) && NextId(s) < 0x1_0000_0000
    case DrainBuffer => s.held.Some? && s.waiting.Some? && (s.waiting.value != [] || s.dropped == 0)
    case FileNote(_, _) => s.held.Some? && s.waiting == Some([]) && s.dropped > 0 && NextId(s) < 0x1_0000_0000
    case FileRecord => s.held.Some? && s.waiting.None?
    case _ => false
  }

  // ----- the compactor

  function ManagerStep(s: State, step: Step): State {
    match (step, s.mgr)
    case (LockLog(query, msg), Idle) => s.(mgr := Locked(query, msg))
    case (SetOdd, Locked(query, msg)) =>
      s.(file := SetGeneration(s.file, GenOdd).file,
         mgr := Moving(StartCompaction(s.file), query, msg),
         aux := s.aux.(h := s.aux.h.(generation := s.aux.h.generation + 1), recs := [], rest := s.aux.recs,
                       starts := s.aux.starts + 1))
    case (MoveOne, Moving(fi, query, msg)) =>
      var t := CompactTurn(s.file, fi, query, msg);
      s.(file := t.file, mgr := Moving(t.fi, query, msg),
         aux := if s.aux.rest == [] then s.aux
                else s.aux.(recs := if Doomed(query, msg, s.aux.rest[0]) then s.aux.recs
                                    else s.aux.recs + [s.aux.rest[0]],
                            rest := s.aux.rest[1..]))
    case (Truncate, Moving(fi, _, _)) => s.(file := TruncateAtHole(s.file, fi), mgr := Truncated)
    case (SetEven, Truncated) =>
      s.(file := SetGeneration(s.file, GenEven).file, mgr := Renewed,
         aux := s.aux.(h := s.aux.h.(generation := s.aux.h.generation + 1)))
    case (UnlockLog, Renewed) => s.(mgr := Idle)
    case _ => s
  }

  predicate ManagerEnabled(s: State, step: Step) {
    match (step, s.mgr)
    case (LockLog(_, _), Idle) => s.held.None?
    case (SetOdd, Locked(_, _)) => s.aux.h.generation + 2 < 0x1_0000_0000
    case (MoveOne, Moving(fi, _, _)) => fi.bytesToProcess > 0
    case (Truncate, Moving(fi, _, _)) => fi.bytesToProcess <= 0
    case (SetEven, Truncated) => s.aux.h.generation + 1 < 0x1_0000_0000
    case (UnlockLog, Renewed) => true
    case _ => false
  }

  // ----- the reader

  /** The top of the copying loop: seek to the next match, or just read when there is no filter. */
  function Top(filter: Query): ViewPc {
    if filter.Some? then Seeking else Reading
  }

  function Ids(rs: seq<Rec>): set<nat> {
    set r <- rs :: r.entry.recid
  }

  function ViewStep(s: State, step: Step, filter: Query): State {
    var v := s.view;
    match step
    case OpenLog =>
      var hdr := MappedHeader(s.file);
      if hdr.magic != LOGFILE_MAGIC then s.(view := v.(pc := Failed))
      else if hdr.generation % 2 == 1 then s
      else s.(view := View(if v.last < 0 then Top(filter) else Resyncing, hdr.generation, LOG_HDR_SIZE, v.last, v.out),
              aux := s.aux.(seen := s.aux.recs, seenStarts := s.aux.starts, k := 0))
    case SeekMatch =>
      var r := PosixSeek(s.file, v.generation, v.pos, filter, Forward);
      if r.status == Ebadf then s.(view := v.(pc := Closed))
      else if r.status == Enoent then s.(view := v.(pc := Finished))
      else if r.status == Ok then
        s.(view := v.(pc := Reading, pos := r.pos),
           aux := s.aux.(k := if s.aux.k <= |s.aux.recs| then NextMatch(s.aux.recs, s.aux.k, filter) else 0))
      else s.(view := v.(pc := Failed))
    case ReadNext =>
      var o := PosixRead(s.file, v.generation, v.pos, POSIX_LOG_ENTRY_MAXLEN);
      if o.status == Ebadf then s.(view := v.(pc := Closed))
      else if o.status == Eagain then s.(view := v.(pc := Finished))
      else if o.status == Ok then
        s.(view := View(Top(filter), v.generation, o.pos, o.rec.entry.recid, v.out + [o.rec]),
           aux := s.aux.(k := s.aux.k + 1))
      else s.(view := v.(pc := Failed))
    case Resync =>
      if v.last < 0 then s else
      var r := PosixSeek(s.file, v.generation, v.pos, EvlView.IdAbove(v.last), First);
      if r.status == Ebadf then s.(view := v.(pc := Closed))
      else if r.status == Enoent then s.(view := v.(pc := ResyncingEnd, pos := r.pos), aux := s.aux.(k := 0))
      else if r.status == Ok then
        s.(view := v.(pc := Top(filter), pos := r.pos),
           aux := s.aux.(k := NextMatch(s.aux.recs, 0, EvlView.IdAbove(v.last)),
                         jumped := set id <- s.aux.jumped | id <= v.last))
      else s.(view := v.(pc := Failed))
    case ResyncEnd =>
      var r := PosixSeek(s.file, v.generation, v.pos, None, End);
      if r.status == Ebadf then s.(view := v.(pc := Closed))
      else
        s.(view := v.(pc := Top(filter), pos := r.pos),
           aux := s.aux.(k := |s.aux.recs|,
                         jumped := s.aux.jumped + set id <- Ids(s.aux.recs) | id > v.last))
    case GiveUp => s.(view := v.(pc := Failed))
    case _ => s
  }

  predicate ViewEnabled(s: State, step: Step) {
    match step
    case OpenLog => s.view.pc == Closed
    case SeekMatch => s.view.pc == Seeking
    case ReadNext => s.view.pc == Reading
    case Resync => s.view.pc == Resyncing
    case ResyncEnd => s.view.pc == ResyncingEnd
    case GiveUp => s.view.pc == Closed
    case _ => false
  }

  // ----- runs

  ghost predicate Enabled(s: State, step: Step) {
    && (WriterEnabled(s, step) || ManagerEnabled(s, step) || ViewEnabled(s, step))
    && (step.Submit? ==> EventWriter.WithId(step.ev, NextId(s)).Valid())
    && (step.FileNote? ==> EventWriter.DropNote(NextId(s), s.dropped, step.magic, step.stamp).Valid())
  }

  function Apply(s: State, step: Step, filter: Query): State {
    if step.PrivateEvent? || step.Submit? || step.DrainBuffer? || step.FileNote? || step.FileRecord? then
      WriterStep(s, step)
    else if step.LockLog? || step.SetOdd? || step.MoveOne? || step.Truncate? || step.SetEven? || step.UnlockLog? then
      ManagerStep(s, step)
    else ViewStep(s, step, filter)
  }

  /** A log in order, nobody at work on it, and a reader about to open it. */
  ghost predicate Init(s: State) {
    && IsLog(s.file, s.aux.h, s.aux.recs) && s.aux.h.generation % 2 == 0 && EvlView.Sorted(s.aux.recs)
    && s.mgr == Idle && s.held == None && s.waiting == None
    && s.view.pc == Closed && s.view.last == -1 && s.view.out == []
    && s.aux.rest == [] && s.aux.jumped == {} && !s.aux.noted && !s.aux.raced
    && -1 <= s.aux.high <= s.recId && forall r <- s.aux.recs :: r.entry.recid <= s.aux.high
  }

  ghost predicate Run(s: State, steps: seq<Step>, filter: Query)
    decreases |steps|
  {
    if steps == [] then true
    else
      var before := steps[..|steps| - 1];
      Run(s, before, filter) && Enabled(After(s, before, filter), steps[|steps| - 1])
  }

  function After(s: State, steps: seq<Step>, filter: Query): State
    decreases |steps|
  {
    if steps == [] then s else Apply(After(s, steps[..|steps| - 1], filter), steps[|steps| - 1], filter)
  }
}
