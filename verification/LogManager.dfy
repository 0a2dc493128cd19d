/** evlogmgr's loops over the log file, proved against Compaction. */
module LogManager {
  import opened Options
  import opened Bytes
  import opened Framing
  import opened LogAccess
  import opened LogDescriptors
  import opened Compaction
  import R = Repair

  class Manager {
    const log: LogFile
    var pos: nat
    var numDelrec: nat
    var reducedBytes: nat
    var query: Rec -> bool
    var logmgmtMsg: seq<byte>

    constructor (log: LogFile, query: Rec -> bool)
      ensures this.log == log && this.query == query
      ensures numDelrec == reducedBytes == 0 && logmgmtMsg == []
    {
      this.log, this.query := log, query;
      pos, numDelrec, reducedBytes, logmgmtMsg := 0, 0, 0, [];
    }

    method ReadInto(len: nat) returns (status: Status, buf: seq<byte>)
      modifies this`pos
      ensures BufRead(status, pos, buf) == ReadBuf(log.bytes, old(pos), len)
    {
      var b := ReadBuf(log.bytes, pos, len);
      status, pos, buf := b.status, b.pos, b.bytes;
    }

    method WriteBuf(b: seq<byte>)
      modifies this`pos, log
      ensures log.bytes == WriteAt(old(log.bytes), old(pos), b) && pos == old(pos) + |b|
    {
      log.bytes := WriteAt(log.bytes, pos, b);
      pos := pos + |b|;
    }

    method SetGenerationNumber(kind: SetGen) returns (status: Status)
      modifies this`pos, log
      ensures Written(status, log.bytes) == SetGeneration(old(log.bytes), kind)
    {
      hide HeaderOf, HeaderBytes, WriteAt;
      pos := 0;
      var buf;
      status, buf := ReadInto(LOG_HDR_SIZE);
      if status != Ok {
        return Ebadf;
      }
      assert buf == log.bytes[..LOG_HDR_SIZE];
      var hdr := HeaderOf(buf);
      if hdr.magic != LOGFILE_MAGIC {
        return Ebadf;
      }
      match kind {
        case GenIncr => hdr := hdr.(generation := hdr.generation + 1);
        case GenReset => hdr := hdr.(generation := 0);
        case GenEven =>
          if hdr.generation % 2 == 1 {
            hdr := hdr.(generation := hdr.generation + 1);
          }
        case GenOdd =>
          if hdr.generation % 2 == 0 {
            hdr := hdr.(generation := hdr.generation + 1);
          }
      }
      pos := 0;
      WriteBuf(HeaderBytes(hdr));
    }

    method DoesRecMatchForDel(rec: Rec, varbuf: seq<byte>) returns (matches: bool)
      modifies this`numDelrec, this`reducedBytes
      ensures matches == MatchesForDel(query, logmgmtMsg, rec, varbuf)
      ensures numDelrec == old(numDelrec) + if matches then 1 else 0
      ensures reducedBytes == old(reducedBytes) + if matches then REC_HDR_SIZE + rec.entry.size + SIZESIZE else 0
    {
      hide StrEqual;
      matches := false;
      if query(rec) {
        if !StrEqual(logmgmtMsg, varbuf) {
          numDelrec := numDelrec + 1;
          reducedBytes := reducedBytes + (REC_HDR_SIZE + rec.entry.size + SIZESIZE);
          matches := true;
        }
      }
    }

    method MoveRecordUp(fi: OffsetInfo, rechdr: Entry, varbuf: seq<byte>) returns (moved: bool, fi': OffsetInfo)
      modifies this`pos, log
      ensures (moved, log.bytes, fi') == MoveUp(old(log.bytes), fi, rechdr, varbuf)
    {
      hide EntryBytes, WriteAt;
      if rechdr.size > POSIX_LOG_ENTRY_MAXLEN {
        return false, fi;
      }
      pos := fi.beginhole;
      var image := EntryBytes(rechdr) + varbuf;
      WriteBuf(image);
      return true, fi.(beginhole := pos);
    }

    /** One turn of the compaction loop: reads the record at the offset, and deletes, moves or leaves it. */
    method CompactNext(fi: OffsetInfo) returns (status: Status, fi': OffsetInfo)
      modifies this`pos, this`numDelrec, this`reducedBytes, log
      ensures var t := CompactTurn(old(log.bytes), fi, query, logmgmtMsg);
              && status == t.status && log.bytes == t.file && fi' == t.fi
              && numDelrec == old(numDelrec) + t.deleted && reducedBytes == old(reducedBytes) + t.bytes
    {
      hide EntryOf, WriteAt, MatchesForDel, ReadBuf, MoveUp;
      fi' := fi;
      var head, rest;
      pos := fi.offset;
      status, head := ReadInto(REC_HDR_SIZE);
      if status != Ok {
        return Eio, fi;
      }
      var rechdr := EntryOf(head);
      if rechdr.magic / 0x1_0000 != LOGREC_MAGIC_HIWORD {
        return Eio, fi;
      }
      var reclen := REC_HDR_SIZE + rechdr.size + SIZESIZE;
      status, rest := ReadInto(rechdr.size + SIZESIZE);
      if status != Ok {
        return Eio, fi;
      }
      var doomed := DoesRecMatchForDel(Rec(rechdr, rest[..rechdr.size]), rest);
      if doomed {
        if fi'.beginhole == 0 {
          fi' := fi'.(beginhole := fi'.offset);
        }
      } else if fi'.beginhole != 0 {
        var moved;
        moved, fi' := MoveRecordUp(fi', rechdr, rest);
        if !moved {
          return Eio, fi;
        }
      }
      fi' := fi'.(offset := fi'.offset + reclen, bytesToProcess := fi'.bytesToProcess - reclen);
    }

    /** Slides the kept records down over the deleted ones and cuts the file at the end of the last. */
    method Compact() returns (status: Status)
      modifies this`pos, this`numDelrec, this`reducedBytes, log
      ensures Compacted(status, log.bytes, numDelrec, reducedBytes)
           == CompactLog(old(log.bytes), query, logmgmtMsg, old(reducedBytes))
    {
      hide CompactTurn;
      numDelrec := 0;
      if |log.bytes| == 0 {
        return Eio;
      }
      var fi := OffsetInfo(LOG_HDR_SIZE, 0, |log.bytes| - LOG_HDR_SIZE);
      while fi.bytesToProcess > 0
        invariant CompactFrom(log.bytes, fi, query, logmgmtMsg, numDelrec, reducedBytes)
               == CompactLog(old(log.bytes), query, logmgmtMsg, old(reducedBytes))
        decreases fi.bytesToProcess
      {
        status, fi := CompactNext(fi);
        if status != Ok {
          return;
        }
      }
      if 0 < fi.beginhole <= |log.bytes| {
        log.bytes := log.bytes[..fi.beginhole];
      }
      return Ok;
    }

    /** One turn of the counting loop. */
    method CountOne(offset: nat, varbuf: seq<byte>) returns (status: Status, recsize: nat, hit: bool, buf: seq<byte>)
      modifies this`pos
      ensures CountTurn(status, recsize, hit, buf) == CountNext(log.bytes, offset, query, logmgmtMsg, varbuf)
    {
      hide EntryOf, StrEqual, FromBytes, Refill, Front, ReadBuf;
      var head, body, word;
      pos := offset;
      status, head := ReadInto(REC_HDR_SIZE);
      if status != Ok {
        return Eio, 0, false, varbuf;
      }
      var rechdr := EntryOf(head);
      buf := varbuf;
      if 0 < rechdr.size <= POSIX_LOG_ENTRY_MAXLEN {
        status, body := ReadInto(rechdr.size);
        if status != Ok {
          return Eio, 0, false, varbuf;
        }
        buf := Refill(buf, body);
      }
      status, word := ReadInto(SIZESIZE);
      if status != Ok {
        return Eio, 0, false, varbuf;
      }
      var evlrecsize := FromBytes(word);
      if evlrecsize != REC_HDR_SIZE + rechdr.size {
        return Eio, 0, false, varbuf;
      }
      hit := query(Rec(rechdr, Front(buf, rechdr.size))) && (logmgmtMsg == [] || !StrEqual(logmgmtMsg, buf));
      return Ok, evlrecsize + SIZESIZE, hit, buf;
    }

    /** Counts what a deletion would remove; varbuf is the uninitialised data buffer. */
    method CountRecsForDeletion(varbuf: seq<byte>) returns (status: Status, records: nat, delrec: nat, delbytes: nat)
      modifies this`pos
      ensures Counted(status, records, delrec, delbytes)
           == CountForDeletion(log.bytes, query, logmgmtMsg, varbuf)
    {
      hide CountNext;
      records, delrec, delbytes := 0, 0, 0;
      if |log.bytes| == 0 {
        return Ebadf, 0, 0, 0;
      }
      var buf := varbuf;
      var offset := LOG_HDR_SIZE;
      var bytesToProcess := |log.bytes| - offset;
      while bytesToProcess != 0
        invariant CountFrom(log.bytes, offset, bytesToProcess, query, logmgmtMsg, buf,
                            Counted(Ok, records, delrec, delbytes))
               == CountForDeletion(log.bytes, query, logmgmtMsg, varbuf)
        decreases |log.bytes| - offset
      {
        var recsize, hit;
        status, recsize, hit, buf := CountOne(offset, buf);
        if status != Ok {
          return;
        }
        if hit {
          delrec := delrec + 1;
          delbytes := delbytes + recsize;
        }
        offset := offset + recsize;
        bytesToProcess := bytesToProcess - recsize;
        records := records + 1;
      }
      status := Ok;
    }

    /** The whole compaction, between taking and giving back the lock. */
    method CompactFile(msg: seq<byte>, backedUp: bool, force: bool) returns (status: Status)
      modifies this, log
      ensures Managed(status, log.bytes)
           == EvlCompactLog(old(log.bytes), old(query), msg, old(reducedBytes), backedUp, force)
    {
      hide SetGeneration, CompactLog;
      logmgmtMsg := msg;
      if !backedUp && !force {
        status := Ebadf;
      } else {
        status := SetGenerationNumber(GenOdd);
        if status != Ok {
          status := Ebadf;
        } else {
          status := Compact();
        }
      }
      var evened := SetGenerationNumber(GenEven);
      if evened != Ok {
        status := Ebadf;
      }
    }

    method ValidateRecord(offset: nat) returns (next: Option<nat>)
      modifies this`pos
      ensures next == R.ValidateRec(log.bytes, offset)
    {
      hide EntryOf, FromBytes, ReadBuf;
      pos := offset;
      var status, head, word;
      status, head := ReadInto(REC_HDR_SIZE);
      if status != Ok {
        return None;
      }
      var rechdr := EntryOf(head);
      pos := offset + rechdr.size + REC_HDR_SIZE;
      status, word := ReadInto(SIZESIZE);
      if status != Ok {
        return None;
      }
      var recsize := FromBytes(word);
      if rechdr.magic / 0x1_0000 == LOGREC_MAGIC_HIWORD && rechdr.size + REC_HDR_SIZE == recsize {
        return Some(offset + recsize + SIZESIZE);
      }
      return None;
    }

    /** Looks for a good record byte by byte. */
    method SearchForNextGoodRecord(start: nat) returns (found: Option<nat>)
      modifies this`pos
      ensures found == R.SearchFrom(log.bytes, start)
    {
      hide FromBytes, ReadBuf;
      var offset := start;
      pos := offset;
      var status, word := ReadInto(4);
      while status == Ok
        invariant R.SearchFrom(log.bytes, offset) == R.SearchFrom(log.bytes, start)
        invariant BufRead(status, pos, word) == ReadBuf(log.bytes, offset, 4)
        decreases |log.bytes| - offset
      {
        if FromBytes(word) / 0x1_0000 == LOGREC_MAGIC_HIWORD {
          var candidate := ExamineCandidate(offset);
          match candidate {
            case Good => return Some(offset);
            case CutShort => return None;
            case Bad =>
          }
        }
        offset := offset + 1;
        pos := offset;
        status, word := ReadInto(4);
      }
      return None;
    }

    method ExamineCandidate(offset: nat) returns (candidate: R.Candidate)
      modifies this`pos
      ensures candidate == R.Examine(log.bytes, offset)
    {
      hide FromBytes, ReadBuf;
      var status, word;
      pos := offset + 8;
      status, word := ReadInto(8);
      if status != Ok {
        return R.CutShort;
      }
      var logSize := FromBytes(word);
      pos := offset + logSize + REC_HDR_SIZE;
      status, word := ReadInto(SIZESIZE);
      if status != Ok {
        return R.CutShort;
      }
      return if logSize + REC_HDR_SIZE == FromBytes(word) then R.Good else R.Bad;
    }

    /** Moves the record at the offset, which is still to be read, into the hole. */
    method MoveNextRecord(fi: OffsetInfo) returns (m: R.Move)
      modifies this`pos, log
      ensures m == R.MoveNext(old(log.bytes), fi)
      ensures log.bytes == match m case Moved(f, _) => f case Broken(_) => old(log.bytes)
    {
      hide EntryOf, ReadBuf, WriteAt;
      pos := fi.offset;
      var status, head, rest;
      status, head := ReadInto(REC_HDR_SIZE);
      if status != Ok {
        return R.Broken(R.IoError(log.bytes));
      }
      var rechdr := EntryOf(head);
      if rechdr.magic / 0x1_0000 != LOGREC_MAGIC_HIWORD {
        return R.Broken(R.Again(log.bytes));
      }
      if rechdr.size > POSIX_LOG_ENTRY_MAXLEN {
        return R.Broken(R.Again(log.bytes));
      }
      status, rest := ReadInto(rechdr.size + SIZESIZE);
      if status != Ok {
        return R.Broken(R.Again(log.bytes));
      }
      var reclen := REC_HDR_SIZE + rechdr.size + SIZESIZE;
      var moved, fi' := MoveRecordUp(fi, rechdr, rest);
      return R.Moved(log.bytes, fi'.(offset := fi'.offset + reclen, bytesToProcess := fi'.bytesToProcess - reclen));
    }

    /** One pass of the repair. */
    method RepairPass() returns (outcome: R.Outcome)
      modifies this`pos, log
      ensures outcome == R.Pass(old(log.bytes))
      ensures outcome.file == log.bytes
    {
      hide R.ValidateRec, R.SearchFrom, R.MoveNext;
      ghost var file0 := log.bytes;
      var fi := OffsetInfo(LOG_HDR_SIZE, 0, |log.bytes| - LOG_HDR_SIZE);
      while fi.bytesToProcess > 0
        invariant log.bytes == file0 && fi.beginhole == 0 && fi.bytesToProcess == |file0| - fi.offset
        invariant R.ScanGood(file0, fi.offset) == R.ScanGood(file0, LOG_HDR_SIZE)
        decreases fi.bytesToProcess
      {
        var next := ValidateRecord(fi.offset);
        if next.None? {
          fi := fi.(beginhole := fi.offset);
          var found := SearchForNextGoodRecord(fi.offset);
          if found.None? {
            log.bytes := log.bytes[..fi.beginhole];
            return R.Done(1, log.bytes);
          }
          fi := fi.(offset := found.value, bytesToProcess := fi.bytesToProcess - (found.value - fi.offset));
          outcome := MoveTheRest(fi);
          return;
        }
        fi := fi.(offset := next.value, bytesToProcess := fi.bytesToProcess - (next.value - fi.offset));
      }
      return R.Done(0, log.bytes);
    }

    method MoveTheRest(start: OffsetInfo) returns (outcome: R.Outcome)
      modifies this`pos, log
      ensures outcome == R.MoveAll(old(log.bytes), start)
      ensures outcome.file == log.bytes
    {
      hide R.MoveNext;
      var fi := start;
      while fi.bytesToProcess > 0
        invariant R.MoveAll(log.bytes, fi) == R.MoveAll(old(log.bytes), start)
        decreases fi.bytesToProcess
      {
        var m := MoveNextRecord(fi);
        match m {
          case Broken(o) =>
            R.BrokenKeeps(log.bytes, fi);
            return o;
          case Moved(_, fi') => fi := fi';
        }
      }
      if 0 < fi.beginhole <= |log.bytes| {
        log.bytes := log.bytes[..fi.beginhole];
      }
      return R.Done(1, log.bytes);
    }

    /**
     Repeats the pass until it no longer starts over; Spins stands for never returning. The status is cleared once
     and stays 1 from the first bad block on.
     */
    method RepairFile() returns (result: R.Repaired)
      modifies this`pos, log
      ensures result == R.RepairLog(old(log.bytes))
      ensures result.Settled? ==> log.bytes == result.file
    {
      hide R.Pass, R.ScanGood;
      var problem := 0;
      if log.bytes == [] {
        return R.Settled(Eio, problem, log.bytes);
      }
      while true
        invariant R.RepairFrom(log.bytes, problem) == R.RepairFrom(old(log.bytes), 0)
        decreases |log.bytes| - R.ScanGood(log.bytes, LOG_HDR_SIZE)
      {
        var before := log.bytes;
        var outcome := RepairPass();
        match outcome {
          case Done(found, _) =>
            if found == 1 {
              problem := 1;
            }
            return R.Settled(Ok, problem, log.bytes);
          case IoError(_) =>
            problem := 1;
            return R.Settled(Eio, problem, log.bytes);
          case Again(_) => problem := 1;
        }
        if log.bytes == before {
          return R.Spins(log.bytes);
        }
        R.ChangedMakesProgress(before);
      }
    }
  }
}
