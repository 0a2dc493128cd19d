/**
 evlview: copying a log forward, and getting back to the right place after the log was reorganised.
 The log is sorted by record id; the last record copied may be gone.
 */
module EvlView {
  import opened Options
  import opened Bytes
  import opened Framing
  import opened LogAccess
  import opened LogDescriptors

  ghost predicate Sorted(rs: seq<Rec>) {
    forall i, j :: 0 <= i < j < |rs| ==> rs[i].entry.recid < rs[j].entry.recid
  }

  datatype ResyncAction = ToStart | ToEnd | BeforeLast | AfterLast

  datatype ResyncStrategy = ResyncStrategy(query: Query, direction: Direction, noentDxn: Direction, justSeek: bool)

  function IdAtMost(last: nat): Query { Some((r: Rec) => r.entry.recid <= last) }
  function IdAtLeast(last: nat): Query { Some((r: Rec) => r.entry.recid >= last) }
  function IdAbove(last: nat): Query { Some((r: Rec) => r.entry.recid > last) }

  function Strategy(action: ResyncAction, last: nat, fromEnd: bool): ResyncStrategy {
    if fromEnd then ResyncStrategy(IdAtMost(last), Last, Start, false)
    else ResyncStrategy(if action == BeforeLast then IdAtLeast(last) else IdAbove(last), First, End, true)
  }

  /** Where the seeks of a strategy leave the read pointer of a log opened at this generation. */
  function ResyncSeeks(file: seq<byte>, generation: nat, pos: nat, action: ResyncAction, last: nat, fromEnd: bool)
    : SeekResult
  {
    var rs := Strategy(action, last, fromEnd);
    var s := PosixSeek(file, generation, pos, rs.query, rs.direction);
    if s.status == Enoent then PosixSeek(file, generation, s.pos, None, rs.noentDxn)
    else if s.status != Ok || rs.justSeek then s
    else
      var o := PosixRead(file, generation, s.pos, 0);
      if o.status != Ok then SeekResult(o.status, o.pos)
      else if action == AfterLast || o.rec.entry.recid != last then SeekResult(Ok, o.pos)
      else PosixSeek(file, generation, o.pos, None, Backward)
  }

  /** The first record whose id is at least (after: above) last. */
  function Target(rs: seq<Rec>, action: ResyncAction, last: nat): (k: nat)
    ensures k <= |rs|
  {
    NextMatch(rs, 0, if action == BeforeLast then IdAtLeast(last) else IdAbove(last))
  }

  /** Seeking from the start of the log lands on the target. */
  lemma {:induction false} FromStartLands(file: seq<byte>, h: Header, rs: seq<Rec>, pos: nat, action: ResyncAction,
      last: nat)
    requires IsLog(file, h, rs)
    ensures ResyncSeeks(file, h.generation, pos, action, last, false)
         == SeekResult(Ok, Offset(rs, Target(rs, action, last)))
  {
    hide Frames, HeaderBytes, MappedHeader, SeekFwdFrom, SeekBkwdFrom;
    MappedHeaderOf(h, Frames(rs));
    OffsetEnds(h, rs);
    var q := Strategy(action, last, false).query;
    SeekFwdFindsNearest(file, h, rs, LOG_HDR_SIZE, 0, q);
  }

  /** Seeking back from the end, past the record found, lands on the same target. */
  lemma {:induction false} FromEndLands(file: seq<byte>, h: Header, rs: seq<Rec>, pos: nat, action: ResyncAction,
      last: nat)
    requires IsLog(file, h, rs) && Sorted(rs) && action in {BeforeLast, AfterLast}
    ensures ResyncSeeks(file, h.generation, pos, action, last, true)
         == SeekResult(Ok, Offset(rs, Target(rs, action, last)))
  {
    hide IsLog, MappedHeader, SeekFwdFrom, SeekBkwdFrom, Offset, ReadRecord, PrevMatch;
    StaysCurrent(file, h, rs);
    LogEnds(file, h, rs);
    SeekBkwdFindsNearest(file, h, rs, |file|, |rs|, IdAtMost(last));
    var j := PrevMatch(rs, |rs|, IdAtMost(last));
    TargetBesidePrev(rs, action, last, j);
    if j >= 0 {
      ReadAt(file, h, rs, j, 0);
      SeekBkwdFindsNearest(file, h, rs, Offset(rs, j + 1), j + 1, None);
      assert PrevMatch(rs, j + 1, None) == j by { PrevAny(rs, j + 1); }
    }
  }

  lemma {:induction false} PrevAny(rs: seq<Rec>, k: nat)
    requires 0 < k <= |rs|
    ensures PrevMatch(rs, k, None) == k - 1
  {
  }

  lemma {:induction false} LogEnds(file: seq<byte>, h: Header, rs: seq<Rec>)
    requires IsLog(file, h, rs)
    ensures Offset(rs, 0) == LOG_HDR_SIZE && Offset(rs, |rs|) == |file|
  {
    hide Frames, HeaderBytes;
    OffsetEnds(h, rs);
  }

  lemma {:induction false} TargetBesidePrev(rs: seq<Rec>, action: ResyncAction, last: nat, j: int)
    requires Sorted(rs) && j == PrevMatch(rs, |rs|, IdAtMost(last))
    ensures Target(rs, action, last)
         == if action == BeforeLast && j >= 0 && rs[j].entry.recid == last then j else j + 1
  {
    var q := if action == BeforeLast then IdAtLeast(last) else IdAbove(last);
    var k := Target(rs, action, last);
    if j + 1 < |rs| {
      assert !Matches(IdAtMost(last), rs[j + 1]);
      assert Matches(q, rs[j + 1]);
    }
    if j >= 0 {
      assert Matches(IdAtMost(last), rs[j]);
      forall i | 0 <= i < j
        ensures !Matches(q, rs[i])
      {
        assert rs[i].entry.recid < rs[j].entry.recid;
      }
    }
    if k < |rs| {
      assert Matches(q, rs[k]);
    }
  }

  /** The two strategies of figureResyncStrategy leave the read pointer at the same place. */
  lemma {:induction false} StrategiesAgree(file: seq<byte>, h: Header, rs: seq<Rec>, p: nat, q: nat,
      action: ResyncAction, last: nat)
    requires IsLog(file, h, rs) && Sorted(rs) && action in {BeforeLast, AfterLast}
    ensures ResyncSeeks(file, h.generation, p, action, last, true)
         == ResyncSeeks(file, h.generation, q, action, last, false)
  {
    FromStartLands(file, h, rs, q, action, last);
    FromEndLands(file, h, rs, p, action, last);
  }

  /** On a sorted log the target splits it: ids below are at most last (or below it), the others are not. */
  lemma {:induction false} TargetSplits(rs: seq<Rec>, action: ResyncAction, last: nat, i: nat)
    requires Sorted(rs) && i < |rs|
    ensures i < Target(rs, action, last)
       <==> if action == BeforeLast then rs[i].entry.recid < last else rs[i].entry.recid <= last
  {
    var q := if action == BeforeLast then IdAtLeast(last) else IdAbove(last);
    var k := Target(rs, action, last);
    if i < k {
      assert !Matches(q, rs[i]);
    } else {
      assert Matches(q, rs[k]);
    }
  }

  /** The records of rs that satisfy the filter, in order. */
  function Selected(rs: seq<Rec>, filter: Query): (out: seq<Rec>)
    ensures forall r <- out :: r in rs && Matches(filter, r)
    ensures forall r <- rs | Matches(filter, r) :: r in out
  {
    if rs == [] then []
    else (if Matches(filter, rs[0]) then [rs[0]] else []) + Selected(rs[1..], filter)
  }

  lemma {:induction false} SelectedSkips(rs: seq<Rec>, filter: Query, n: nat)
    requires n <= |rs| && forall i :: 0 <= i < n ==> !Matches(filter, rs[i])
    ensures Selected(rs, filter) == Selected(rs[n..], filter)
  {
    if n == 0 {
      assert rs[0..] == rs;
    } else {
      assert rs[1..][n - 1..] == rs[n..];
      SelectedSkips(rs[1..], filter, n - 1);
    }
  }

  class Viewer {
    const log: LogFile
    const filter: Query
    /** --new or --tail was given. */
    const fromEnd: bool
    var logdesc: LogDesc
    /** -1 until a record has been copied. */
    var lastRecordCopied: int
    var output: seq<Rec>

    constructor (log: LogFile, logdesc: LogDesc, filter: Query, fromEnd: bool)
      requires logdesc.file == log
      ensures this.log == log && this.filter == filter && this.fromEnd == fromEnd && this.logdesc == logdesc
      ensures lastRecordCopied == -1 && output == []
    {
      this.log, this.filter, this.fromEnd, this.logdesc := log, filter, fromEnd, logdesc;
      lastRecordCopied, output := -1, [];
    }

    method CopyRecord(rec: Rec)
      modifies this`output, this`lastRecordCopied
      ensures output == old(output) + [rec] && lastRecordCopied == rec.entry.recid
    {
      output := output + [rec];
      lastRecordCopied := rec.entry.recid;
    }

    method FigureResyncStrategy(action: ResyncAction) returns (rs: ResyncStrategy)
      requires action in {BeforeLast, AfterLast} && lastRecordCopied >= 0
      ensures rs == Strategy(action, lastRecordCopied, fromEnd)
    {
      rs := ResyncStrategy(None, Start, Start, false);
      if fromEnd {
        rs := rs.(direction := Last);
        rs := rs.(noentDxn := Start);
        rs := rs.(justSeek := false);
        rs := rs.(query := IdAtMost(lastRecordCopied));
      } else {
        rs := rs.(direction := First);
        rs := rs.(noentDxn := End);
        rs := rs.(justSeek := true);
        if action == BeforeLast {
          rs := rs.(query := IdAtLeast(lastRecordCopied));
        } else {
          rs := rs.(query := IdAbove(lastRecordCopied));
        }
      }
    }

    /**
     Reopens the log and puts the read pointer where the action wants it, while nobody else touches the
     log. Without a reopened log, maintenance is not over (Ebusy) or the file is no log (Einval).
     */
    method HandleReadOrSeekFailure(action: ResyncAction) returns (reopened: bool, status: Status)
      requires logdesc.file == log
      modifies this`logdesc
      ensures logdesc.file == log
      ensures var hdr := MappedHeader(log.bytes);
              reopened <==> hdr.magic == LOGFILE_MAGIC && hdr.generation % 2 == 0
      ensures !reopened ==> logdesc == old(logdesc) && status in {Einval, Ebusy}
      ensures reopened ==>
             (fresh(logdesc) && UpToDate(log.bytes, logdesc.generation)
             && SeekResult(status, logdesc.pos) ==
                if action == ToStart || lastRecordCopied < 0 then SeekResult(Ok, LOG_HDR_SIZE)
                else if action == ToEnd then SeekResult(Ok, |log.bytes|)
                else ResyncSeeks(log.bytes, logdesc.generation, LOG_HDR_SIZE, action, lastRecordCopied, fromEnd))
    {
      hide MappedHeader, SeekFwdFrom, SeekBkwdFrom, ReadRecord;
      var rs := ResyncStrategy(None, Start, Start, true);
      if lastRecordCopied >= 0 && action in {BeforeLast, AfterLast} {
        rs := FigureResyncStrategy(action);
      }
      var d;
      status, d := LogDesc.Open(log);
      reopened := d != null;
      if !reopened {
        return;
      }
      logdesc := d;
      if action == ToStart || lastRecordCopied < 0 {
        status := Ok;
        return;
      }
      if action == ToEnd {
        status := logdesc.Seek(None, End);
      } else {
        status := logdesc.Seek(rs.query, rs.direction);
      }
      if status == Enoent {
        status := logdesc.Seek(None, rs.noentDxn);
        return;
      } else if status != Ok {
        return;
      }
      if rs.justSeek {
        return;
      }
      var rec;
      status, rec := logdesc.ReadLog(0);
      if status != Ok || action == AfterLast {
        return;
      }
      if rec.entry.recid != lastRecordCopied {
        return;
      }
      status := logdesc.Seek(None, Backward);
    }

    /**
     Copies forward from record k to the end of a log that nobody else changes meanwhile: the output grows
     by exactly the matching records, in order.
     */
    method CopyForward(ghost h: Header, ghost rs: seq<Rec>, ghost k: nat)
      requires logdesc.file == log && IsLog(log.bytes, h, rs) && k <= |rs|
      requires logdesc.pos == Offset(rs, k) && logdesc.generation == h.generation
      modifies this`output, this`lastRecordCopied, logdesc`pos
      ensures output == old(output) + Selected(rs[k..], filter)
    {
      hide IsLog, Offset, PosixSeek, PosixRead, Selected;
      ghost var j := k;
      while true
        invariant k <= j <= |rs| && logdesc.pos == Offset(rs, j)
        invariant output + Selected(rs[j..], filter) == old(output) + Selected(rs[k..], filter)
        decreases |rs| - j
      {
        var status, rec;
        if filter.Some? {
          SeekSelects(log.bytes, h, rs, j, filter);
          status := logdesc.Seek(filter, Forward);
          if status == Enoent {
            return;
          }
          j := NextMatch(rs, j, filter);
        }
        ReadSelects(log.bytes, h, rs, j, filter);
        status, rec := logdesc.ReadLog(POSIX_LOG_ENTRY_MAXLEN);
        if status == Eagain {
          return;
        }
        assert output + ([rec] + Selected(rs[j + 1..], filter)) == (output + [rec]) + Selected(rs[j + 1..], filter);
        CopyRecord(rec);
        j := j + 1;
      }
    }
  }

  /** The filtered seek of the copying loop skips no selected record. */
  lemma {:induction false} SeekSelects(file: seq<byte>, h: Header, rs: seq<Rec>, j: nat, filter: Query)
    requires IsLog(file, h, rs) && j <= |rs|
    ensures var next := NextMatch(rs, j, filter);
            && PosixSeek(file, h.generation, Offset(rs, j), filter, Forward)
               == (if next < |rs| then SeekResult(Ok, Offset(rs, next)) else SeekResult(Enoent, Offset(rs, j)))
            && Selected(rs[j..], filter) == Selected(rs[next..], filter)
            && (next == |rs| ==> Selected(rs[next..], filter) == [])
  {
    hide IsLog, Offset, SeekFwdFrom, MappedHeader, Selected;
    StaysCurrent(file, h, rs);
    SeekFwdFindsNearest(file, h, rs, Offset(rs, j), j, filter);
    SelectedFromNext(rs, j, filter);
  }

  lemma {:induction false} SelectedFromNext(rs: seq<Rec>, j: nat, filter: Query)
    requires j <= |rs|
    ensures var next := NextMatch(rs, j, filter);
            && Selected(rs[j..], filter) == Selected(rs[next..], filter)
            && (next == |rs| ==> Selected(rs[next..], filter) == [])
  {
    hide Selected, Matches;
    var next := NextMatch(rs, j, filter);
    SelectedSkips(rs[j..], filter, next - j);
    assert rs[j..][next - j..] == rs[next..];
    assert Selected([], filter) == [] by { NothingSelected(filter); }
  }

  lemma {:induction false} NothingSelected(filter: Query)
    ensures Selected([], filter) == []
  {
  }

  /** The read of the copying loop yields the next record, or finds the end. */
  lemma {:induction false} ReadSelects(file: seq<byte>, h: Header, rs: seq<Rec>, j: nat, filter: Query)
    requires IsLog(file, h, rs) && j <= |rs|
    ensures var o := PosixRead(file, h.generation, Offset(rs, j), POSIX_LOG_ENTRY_MAXLEN);
            if j == |rs| then o.status == Eagain && Selected(rs[j..], filter) == []
            else
              && o == RecRead(Ok, Offset(rs, j + 1), rs[j])
              && (Matches(filter, rs[j]) ==> Selected(rs[j..], filter) == [rs[j]] + Selected(rs[j + 1..], filter))
  {
    hide Offset, ReadRecord, MappedHeader, HeaderBytes, Frames;
    StaysCurrent(file, h, rs);
    ReadAt(file, h, rs, j, POSIX_LOG_ENTRY_MAXLEN);
    if j < |rs| {
      assert rs[j..][1..] == rs[j + 1..];
    }
  }

  lemma {:induction false} StaysCurrent(file: seq<byte>, h: Header, rs: seq<Rec>)
    requires IsLog(file, h, rs)
    ensures UpToDate(file, h.generation) && MappedHeader(file) == h
  {
    hide MappedHeader, HeaderBytes, Frames;
    MappedHeaderOf(h, Frames(rs));
  }
}
