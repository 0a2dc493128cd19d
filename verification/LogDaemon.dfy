/** evlogd's logging routines over its log files and secondary buffers, proved against EventWriter. */
module LogDaemon {
  import opened Options
  import opened Bytes
  import opened Framing
  import opened LogDescriptors
  import opened EventWriter

  class LogInfo {
    const file: LogFile
    const logType: nat
    var buf: array?<byte>
    var watermark: nat
    var droppedEvt: nat

    constructor (file: LogFile, logType: nat)
      requires logType in {0, 1}
      ensures this.file == file && this.logType == logType && Valid() && Contents() == Side(file.bytes, None, 0)
    {
      this.file, this.logType := file, logType;
      buf, watermark, droppedEvt := null, 0, 0;
    }

    ghost predicate Valid()
      reads this
    {
      && logType in {0, 1}
      && (buf != null ==> buf.Length == BufSize(logType) && watermark <= buf.Length)
    }

    ghost function Contents(): Side
      reads this, file, buf
      requires Valid()
    {
      Side(file.bytes, if buf == null then None else Some(buf[..watermark]), droppedEvt)
    }

    /** Copies a record behind the watermark, or counts it as dropped when it does not fit. */
    method WriteRecToBuf(rbuf: seq<byte>)
      requires Valid()
      modifies this, buf
      ensures Valid() && Contents() == WriteToBuf(old(Contents()), rbuf, BufSize(logType))
      ensures file.bytes == old(file.bytes)
    {
      if buf == null {
        buf := new byte[BufSize(logType)](_ => 0);
        watermark := 0;
        droppedEvt := 0;
      }
      if watermark + |rbuf| <= buf.Length {
        ghost var before := buf[..watermark];
        forall i | 0 <= i < |rbuf| {
          buf[watermark + i] := rbuf[i];
        }
        assert buf[..watermark + |rbuf|] == before + rbuf;
        watermark := watermark + |rbuf|;
      } else {
        droppedEvt := droppedEvt + 1;
      }
    }

    method Append(b: seq<byte>)
      modifies file
      ensures file.bytes == old(file.bytes) + b
    {
      file.bytes := file.bytes + b;
    }
  }

  class EvlogDaemon {
    var gRecId: nat
    const evlLog: LogInfo
    const pvtLog: LogInfo

    constructor (evlLog: LogInfo, pvtLog: LogInfo, gRecId: nat)
      ensures this.evlLog == evlLog && this.pvtLog == pvtLog && this.gRecId == gRecId
    {
      this.evlLog, this.pvtLog, this.gRecId := evlLog, pvtLog, gRecId;
    }

    method GetNextRecId(logType: nat) returns (id: nat)
      modifies this`gRecId
      ensures id == gRecId == NextRecId(old(gRecId), logType)
    {
      if logType == 0 {
        if gRecId % 2 == 1 {
          gRecId := gRecId + 1;
        } else {
          gRecId := gRecId + 2;
        }
      } else if logType == 1 {
        if gRecId % 2 == 1 {
          gRecId := gRecId + 2;
        } else {
          gRecId := gRecId + 1;
        }
      }
      return gRecId;
    }

    /** Writes the whole buffer to the log, reports drops, and frees the buffer. */
    method DrainBufToLog(linfo: LogInfo, magic: nat, stamp: seq<byte>)
      requires linfo.Valid() && linfo.buf != null
      modifies this`gRecId, linfo`buf, linfo`watermark, linfo.file
      ensures linfo.Valid()
      ensures var noteId := NextRecId(old(gRecId), linfo.logType);
              var s := old(linfo.Contents());
              && linfo.Contents() == Drain(s, Frame(DropNote(noteId, s.droppedEvt, magic, stamp)))
              && gRecId == if s.droppedEvt > 0 then noteId else old(gRecId)
    {
      hide Frame, DropNote;
      linfo.Append(linfo.buf[..linfo.watermark]);
      if linfo.droppedEvt > 0 {
        var id := GetNextRecId(linfo.logType);
        var note := DropNote(id, linfo.droppedEvt, magic, stamp);
        linfo.Append(Frame(note));
      } else {
        assert linfo.file.bytes + [] == linfo.file.bytes;
      }
      linfo.buf := null;
      linfo.watermark := 0;
    }

    /** gotLock: whether the record lock on the log could be had at once. */
    method WriteRecToLog(linfo: LogInfo, rbuf: seq<byte>, gotLock: bool, magic: nat, stamp: seq<byte>)
      requires linfo.Valid()
      modifies this`gRecId, linfo, linfo.file, linfo.buf
      ensures linfo.Valid()
      ensures var s := old(linfo.Contents());
              var noteId := NextRecId(old(gRecId), linfo.logType);
              if !gotLock then
                linfo.Contents() == WriteToBuf(s, rbuf, BufSize(linfo.logType)) && gRecId == old(gRecId)
              else
                var drained := Drain(s, Frame(DropNote(noteId, s.droppedEvt, magic, stamp)));
                && linfo.Contents() == drained.(file := drained.file + rbuf)
                && gRecId == if s.buf.Some? && s.droppedEvt > 0 then noteId else old(gRecId)
    {
      hide Frame, DropNote, WriteToBuf;
      if !gotLock {
        linfo.WriteRecToBuf(rbuf);
        return;
      }
      if linfo.buf != null {
        DrainBufToLog(linfo, magic, stamp);
      }
      linfo.Append(rbuf);
    }

    /** Gives the event its id and logs it. */
    method LogEvlRec(linfo: LogInfo, ev: Rec, gotLock: bool, magic: nat, stamp: seq<byte>)
      requires linfo.Valid()
      modifies this`gRecId, linfo, linfo.file, linfo.buf
      ensures linfo.Valid()
      ensures (gRecId, linfo.Contents())
           == LogToSide(old(gRecId), old(linfo.Contents()), linfo.logType, ev, gotLock, magic, stamp)
    {
      hide EntryBytes, ToBytes, DropNote, Drain, WriteToBuf;
      var id := GetNextRecId(linfo.logType);
      var logrec := WithId(ev, id);
      var lbuf := EntryBytes(logrec.entry) + logrec.data + ToBytes(SIZESIZE, REC_HDR_SIZE + |logrec.data|);
      WriteRecToLog(linfo, lbuf, gotLock, magic, stamp);
    }
  }
}
