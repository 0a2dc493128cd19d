/** Log descriptors: the imperative read and seek operations, proved against LogAccess. */
module LogDescriptors {
  import opened Bytes
  import opened Framing
  import opened LogAccess

  /** A log file on disk. */
  class LogFile {
    var bytes: seq<byte>

    constructor (bytes: seq<byte>)
      ensures this.bytes == bytes
    {
      this.bytes := bytes;
    }

    /** Appends one record with its trailing size word. */
    method WriteRecord(entry: Entry, data: seq<byte>)
      modifies this
      ensures bytes == old(bytes) + EntryBytes(entry) + data + ToBytes(SIZESIZE, REC_HDR_SIZE + |data|)
    {
      hide EntryBytes, ToBytes;
      var wholeRecSize := REC_HDR_SIZE + |data|;
      var writebuf := EntryBytes(entry) + data;
      writebuf := writebuf + ToBytes(SIZESIZE, wholeRecSize);
      bytes := bytes + writebuf;
    }
  }

  class LogDesc {
    const file: LogFile
    const generation: nat
    var pos: nat

    constructor (file: LogFile, generation: nat)
      ensures this.file == file && this.generation == generation && pos == 0
    {
      this.file, this.generation, pos := file, generation, 0;
    }

    /** Opens a log. Only a log that is not under maintenance can be opened. */
    static method Open(file: LogFile) returns (status: Status, logd: LogDesc?)
      ensures status == Ok <==> logd != null
      ensures var hdr := MappedHeader(file.bytes);
              status == if hdr.magic != LOGFILE_MAGIC then Einval else if hdr.generation % 2 == 1 then Ebusy else Ok
      ensures logd != null ==> fresh(logd) && logd.file == file
      ensures logd != null ==> UpToDate(file.bytes, logd.generation) && logd.pos == LOG_HDR_SIZE
    {
      hide HeaderOf;
      var logHdr := MappedHeader(file.bytes);
      if logHdr.magic != LOGFILE_MAGIC {
        return Einval, null;
      }
      if logHdr.generation % 2 == 1 {
        return Ebusy, null;
      }
      var d := new LogDesc(file, logHdr.generation);
      d.pos := d.pos + LOG_HDR_SIZE;
      return Ok, d;
    }

    method ReadInto(len: nat) returns (status: Status, buf: seq<byte>)
      modifies this`pos
      ensures BufRead(status, pos, buf) == ReadBuf(file.bytes, old(pos), len)
    {
      var b := ReadBuf(file.bytes, pos, len);
      status, pos, buf := b.status, b.pos, b.bytes;
    }

    method Read(bufLen: nat) returns (status: Status, rec: Rec)
      modifies this`pos
      ensures RecRead(status, pos, rec) == ReadRecord(file.bytes, old(pos), bufLen)
    {
      hide EntryOf;
      rec := NO_REC;
      var head;
      status, head := ReadInto(REC_HDR_SIZE);
      if status != Ok {
        return;
      }
      var entry := EntryOf(head);
      if entry.size > POSIX_LOG_ENTRY_MAXLEN {
        status := Eio;
        return;
      }
      var data := [];
      if entry.size > 0 {
        if bufLen > 0 {
          status, data := ReadInto(entry.size);
          if status != Ok {
            status := Eio;
            return;
          }
          if bufLen < entry.size {
            data := data[..bufLen];
          }
        } else {
          pos := pos + entry.size;
        }
      }
      pos := pos + SIZESIZE;
      rec := Rec(entry, data);
    }

    method SeekFwd(q: Query) returns (status: Status)
      modifies this`pos
      ensures SeekResult(status, pos) == SeekFwdFrom(file.bytes, old(pos), old(pos), q)
    {
      hide ReadRecord;
      var startPosition := pos;
      while true
        invariant SeekFwdFrom(file.bytes, startPosition, pos, q)
               == SeekFwdFrom(file.bytes, startPosition, startPosition, q)
        decreases |file.bytes| - pos
      {
        var curPosition := pos;
        var rec;
        status, rec := Read(POSIX_LOG_ENTRY_MAXLEN);
        if status == Eagain {
          pos := startPosition;
          return Enoent;
        } else if status != Ok {
          return Eio;
        }
        if Matches(q, rec) {
          pos := curPosition;
          return Ok;
        }
      }
    }

    method SeekBkwd(q: Query) returns (status: Status)
      modifies this`pos
      ensures SeekResult(status, pos) == SeekBkwdFrom(file.bytes, old(pos), old(pos), q)
    {
      hide FromBytes, RecOfImage, ReadBuf, Matches;
      var startPosition := pos;
      var curPosition := startPosition;
      while curPosition > REC_HDR_SIZE
        invariant pos == curPosition
        invariant SeekBkwdFrom(file.bytes, startPosition, curPosition, q)
               == SeekBkwdFrom(file.bytes, startPosition, startPosition, q)
        decreases curPosition
      {
        pos := pos - SIZESIZE;
        var word, image;
        status, word := ReadInto(SIZESIZE);
        if status != Ok {
          return Eio;
        }
        var wholeRecSize := FromBytes(word);
        if wholeRecSize > REC_HDR_SIZE + POSIX_LOG_ENTRY_MAXLEN {
          return Einval;
        }
        if pos < wholeRecSize + SIZESIZE {
          return Eio;
        }
        pos := pos - (wholeRecSize + SIZESIZE);
        curPosition := pos;
        status, image := ReadInto(wholeRecSize);
        if status != Ok {
          return Eio;
        }
        pos := curPosition;
        if Matches(q, RecOfImage(image)) {
          return Ok;
        }
      }
      pos := startPosition;
      return Enoent;
    }

    method ReadLog(bufLen: nat) returns (status: Status, rec: Rec)
      modifies this`pos
      ensures RecRead(status, pos, rec) == PosixRead(file.bytes, generation, old(pos), bufLen)
    {
      hide MappedHeader, ReadRecord;
      if MappedHeader(file.bytes).generation != generation {
        return Ebadf, NO_REC;
      }
      status, rec := Read(bufLen);
    }

    method Seek(q: Query, dir: Direction) returns (status: Status)
      modifies this`pos
      ensures SeekResult(status, pos) == PosixSeek(file.bytes, generation, old(pos), q, dir)
    {
      hide MappedHeader, SeekFwdFrom, SeekBkwdFrom;
      if MappedHeader(file.bytes).generation != generation {
        return Ebadf;
      }
      match dir
      case Start =>
        if q.Some? {
          return Einval;
        }
        pos := LOG_HDR_SIZE;
        return Ok;
      case End =>
        if q.Some? {
          return Einval;
        }
        pos := |file.bytes|;
        return Ok;
      case First =>
        pos := LOG_HDR_SIZE;
        if q.Some? {
          status := SeekFwd(q);
          return;
        }
        return Ok;
      case Last =>
        pos := |file.bytes|;
        status := SeekBkwd(q);
      case Forward =>
        status := SeekFwd(q);
      case Backward =>
        status := SeekBkwd(q);
    }
  }
}
