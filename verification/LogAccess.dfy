/**
 What one read or seek of an event log does to the read pointer, as functions of the file's bytes.
 They are total: they say what happens on any bytes, well-formed log or not.
 */
module LogAccess {
  import opened Options
  import opened Bytes
  import opened Framing

  datatype Status = Ok | Eagain | Eio | Enoent | Ebadf | Einval | Ebusy

  /** A query is whatever the evaluator makes of a record; a missing query matches everything. */
  type Query = Option<Rec -> bool>

  predicate Matches(q: Query, r: Rec) {
    q.None? || q.value(r)
  }

  /** read(2) of len bytes at pos: the status, the new read pointer, and the bytes when all arrived. */
  datatype BufRead = BufRead(status: Status, pos: nat, bytes: seq<byte>)

  function ReadBuf(file: seq<byte>, pos: nat, len: nat): (b: BufRead)
    ensures b.status == Ok <==> 0 < len && pos + len <= |file|
    ensures b.status == Ok ==> b.bytes == file[pos..pos + len] && b.pos == pos + len
    ensures b.status == Eagain ==> b.pos == pos
    ensures b.status in {Ok, Eagain, Eio} && pos <= b.pos
  {
    if len == 0 || |file| <= pos then
      BufRead(Eagain, pos, [])
    else if |file| < pos + len then
      BufRead(Eio, |file|, [])
    else
      BufRead(Ok, pos + len, file[pos..pos + len])
  }

  datatype RecRead = RecRead(status: Status, pos: nat, rec: Rec)

  const NO_REC := Rec(Entry(0, 0, 0, []), [])

  /**
   Reading one record. A caller that passes bufLen == 0 does not want the data, which is then skipped
   by a seek; one whose buffer is short gets the first bufLen bytes.
   */
  function ReadRecord(file: seq<byte>, pos: nat, bufLen: nat): (o: RecRead)
    ensures o.status == Ok ==> pos + REC_HDR_SIZE + SIZESIZE <= o.pos && pos < |file|
    ensures o.status == Eagain ==> o.pos == pos
    ensures o.status in {Ok, Eagain, Eio}
  {
    var head := ReadBuf(file, pos, REC_HDR_SIZE);
    if head.status != Ok then RecRead(head.status, head.pos, NO_REC)
    else
      var entry := EntryOf(head.bytes);
      if entry.size > POSIX_LOG_ENTRY_MAXLEN then RecRead(Eio, head.pos, NO_REC)
      else if entry.size > 0 && bufLen > 0 then
        var body := ReadBuf(file, head.pos, entry.size);
        if body.status != Ok then RecRead(Eio, body.pos, NO_REC)
        else RecRead(Ok, body.pos + SIZESIZE,
                     Rec(entry, if bufLen < entry.size then body.bytes[..bufLen] else body.bytes))
      else
        RecRead(Ok, head.pos + entry.size + SIZESIZE, Rec(entry, []))
  }

  /** A record image taken apart. A header cut short is completed with zeros. */
  function RecOfImage(image: seq<byte>): Rec {
    if |image| < REC_HDR_SIZE then Rec(EntryOf(image + Zeros(REC_HDR_SIZE - |image|)), [])
    else Rec(EntryOf(image[..REC_HDR_SIZE]), image[REC_HDR_SIZE..])
  }

  datatype SeekResult = SeekResult(status: Status, pos: nat)

  /** Seeking forward from cur, having started at start. */
  function SeekFwdFrom(file: seq<byte>, start: nat, cur: nat, q: Query): (s: SeekResult)
    decreases |file| - cur
  {
    var o := ReadRecord(file, cur, POSIX_LOG_ENTRY_MAXLEN);
    if o.status == Eagain then SeekResult(Enoent, start)
    else if o.status != Ok then SeekResult(Eio, o.pos)
    else if Matches(q, o.rec) then SeekResult(Ok, cur)
    else SeekFwdFrom(file, start, o.pos, q)
  }

  /** Seeking backward from cur, having started at start. */
  function SeekBkwdFrom(file: seq<byte>, start: nat, cur: nat, q: Query): (s: SeekResult)
    decreases cur
  {
    if cur <= REC_HDR_SIZE then SeekResult(Enoent, start)
    else
      var word := ReadBuf(file, cur - SIZESIZE, SIZESIZE);
      if word.status != Ok then SeekResult(Eio, word.pos)
      else
        var wholeRecSize := FromBytes(word.bytes);
        if wholeRecSize > REC_HDR_SIZE + POSIX_LOG_ENTRY_MAXLEN then SeekResult(Einval, cur)
        else if cur < wholeRecSize + SIZESIZE then SeekResult(Eio, cur)
        else
          var back := cur - wholeRecSize - SIZESIZE;
          var whole := ReadBuf(file, back, wholeRecSize);
          if whole.status != Ok then SeekResult(Eio, whole.pos)
          else if Matches(q, RecOfImage(whole.bytes)) then SeekResult(Ok, back)
          else SeekBkwdFrom(file, start, back, q)
  }

  datatype Direction = Start | End | First | Last | Forward | Backward

  /** A descriptor is out of date once the generation in the file is not the one it was opened at. */
  predicate UpToDate(file: seq<byte>, generation: nat) {
    MappedHeader(file).generation == generation
  }

  function PosixRead(file: seq<byte>, generation: nat, pos: nat, bufLen: nat): RecRead {
    if !UpToDate(file, generation) then RecRead(Ebadf, pos, NO_REC) else ReadRecord(file, pos, bufLen)
  }

  function PosixSeek(file: seq<byte>, generation: nat, pos: nat, q: Query, dir: Direction): SeekResult {
    if !UpToDate(file, generation) then SeekResult(Ebadf, pos) else
    match dir
    case Start => if q.Some? then SeekResult(Einval, pos) else SeekResult(Ok, LOG_HDR_SIZE)
    case End => if q.Some? then SeekResult(Einval, pos) else SeekResult(Ok, |file|)
    case First =>
      if q.Some? then SeekFwdFrom(file, LOG_HDR_SIZE, LOG_HDR_SIZE, q) else SeekResult(Ok, LOG_HDR_SIZE)
    case Last => SeekBkwdFrom(file, |file|, |file|, q)
    case Forward => SeekFwdFrom(file, pos, pos, q)
    case Backward => SeekBkwdFrom(file, pos, pos, q)
  }

  // ----- on well-formed logs

  /** The nearest matching record at or after k, or |rs| when there is none. */
  function NextMatch(rs: seq<Rec>, k: nat, q: Query): (j: nat)
    requires k <= |rs|
    ensures k <= j <= |rs|
    ensures forall i :: k <= i < j ==> !Matches(q, rs[i])
    ensures j < |rs| ==> Matches(q, rs[j])
    decreases |rs| - k
  {
    if k == |rs| || Matches(q, rs[k]) then k else NextMatch(rs, k + 1, q)
  }

  /** The nearest matching record before k, or -1 when there is none. */
  function PrevMatch(rs: seq<Rec>, k: nat, q: Query): (j: int)
    requires k <= |rs|
    ensures -1 <= j < k
    ensures forall i :: j < i < k ==> !Matches(q, rs[i])
    ensures j >= 0 ==> Matches(q, rs[j])
  {
    if k == 0 then -1 else if Matches(q, rs[k - 1]) then k - 1 else PrevMatch(rs, k - 1, q)
  }

  /** A frame standing anywhere in a file reads back as its record. */
  lemma {:induction false} ReadFrame(pre: seq<byte>, r: Rec, post: seq<byte>, bufLen: nat)
    requires r.Valid()
    ensures var o := ReadRecord(pre + Frame(r) + post, |pre|, bufLen);
            && o.status == Ok
            && o.pos == |pre + Frame(r)|
            && o.rec.entry == r.entry
            && (|r.data| <= bufLen ==> o.rec == r)
  {
    hide Frame, EntryBytes, EntryOf;
    FrameAt(pre, r, post);
    EntryRoundTrip(r.entry);
  }

  /** Reading at a record boundary yields the record there; at the end of the log it says so. */
  lemma {:induction false} ReadAt(file: seq<byte>, h: Header, rs: seq<Rec>, k: nat, bufLen: nat)
    requires IsLog(file, h, rs) && k <= |rs|
    ensures var o := ReadRecord(file, Offset(rs, k), bufLen);
            if k == |rs| then o == RecRead(Eagain, Offset(rs, k), NO_REC)
            else
              && o.status == Ok
              && o.pos == Offset(rs, k + 1)
              && o.rec.entry == rs[k].entry
              && (|rs[k].data| <= bufLen ==> o.rec == rs[k])
  {
    hide Frame, Frames, HeaderBytes, ReadRecord;
    if k == |rs| {
      OffsetEnds(h, rs);
      ReadAtEnd(file, Offset(rs, k), bufLen);
    } else {
      LogSplit(h, rs, k);
      var pre := HeaderBytes(h) + Frames(rs[..k]);
      ReadFrame(pre, rs[k], Frames(rs[k + 1..]), bufLen);
      OffsetStep(rs, k);
      FrameAt(pre, rs[k], Frames(rs[k + 1..]));
    }
  }

  lemma {:induction false} ReadAtEnd(file: seq<byte>, pos: nat, bufLen: nat)
    requires |file| <= pos
    ensures ReadRecord(file, pos, bufLen) == RecRead(Eagain, pos, NO_REC)
  {
  }

  /** From any boundary, seeking forward finds the nearest match at or after it, or restores the pointer. */
  lemma {:induction false} SeekFwdFindsNearest(file: seq<byte>, h: Header, rs: seq<Rec>, start: nat, k: nat, q: Query)
    requires IsLog(file, h, rs) && k <= |rs|
    ensures SeekFwdFrom(file, start, Offset(rs, k), q)
         == var j := NextMatch(rs, k, q);
            if j < |rs| then SeekResult(Ok, Offset(rs, j)) else SeekResult(Enoent, start)
    decreases |rs| - k
  {
    hide IsLog, Offset, ReadRecord;
    ReadAt(file, h, rs, k, POSIX_LOG_ENTRY_MAXLEN);
    if k < |rs| {
      DataFits(file, h, rs, k);
      if !Matches(q, rs[k]) {
        SeekFwdFindsNearest(file, h, rs, start, k + 1, q);
      }
    }
  }

  lemma {:induction false} DataFits(file: seq<byte>, h: Header, rs: seq<Rec>, k: nat)
    requires IsLog(file, h, rs) && k < |rs|
    ensures |rs[k].data| <= POSIX_LOG_ENTRY_MAXLEN
  {
  }

  /** The record that ends where a frame ends is found by its trailing size word. */
  lemma {:induction false} BackOverFrame(pre: seq<byte>, r: Rec, post: seq<byte>)
    requires r.Valid()
    ensures var f := pre + Frame(r) + post;
            var cur := |pre + Frame(r)|;
            var n := REC_HDR_SIZE + |r.data|;
            && SIZESIZE + n <= cur <= |f|
            && ReadBuf(f, cur - SIZESIZE, SIZESIZE).status == Ok
            && FromBytes(ReadBuf(f, cur - SIZESIZE, SIZESIZE).bytes) == n
            && cur - n - SIZESIZE == |pre|
            && ReadBuf(f, |pre|, n).status == Ok
            && ReadBuf(f, |pre|, n).bytes == EntryBytes(r.entry) + r.data
  {
    hide Frame, EntryBytes, ToBytes;
    FrameAt(pre, r, post);
    SizeWord(|r.data|);
  }

  lemma {:induction false} SplitImage(r: Rec)
    requires r.Valid()
    ensures var w := EntryBytes(r.entry) + r.data;
            |w| == REC_HDR_SIZE + |r.data| && RecOfImage(w) == r
  {
    hide EntryBytes, EntryOf;
    EntryRoundTrip(r.entry);
    var w := EntryBytes(r.entry) + r.data;
    assert w[..REC_HDR_SIZE] == EntryBytes(r.entry);
    assert w[REC_HDR_SIZE..] == r.data;
  }

  /** One turn of the backward loop. */
  lemma {:induction false} SeekBkwdStep(file: seq<byte>, h: Header, rs: seq<Rec>, start: nat, k: nat, q: Query)
    requires IsLog(file, h, rs) && 0 < k <= |rs|
    ensures SeekBkwdFrom(file, start, Offset(rs, k), q)
         == if Matches(q, rs[k - 1]) then SeekResult(Ok, Offset(rs, k - 1))
            else SeekBkwdFrom(file, start, Offset(rs, k - 1), q)
  {
    hide Frame, Frames, HeaderBytes, EntryBytes, RecOfImage, ReadBuf, FromBytes;
    var r := rs[k - 1];
    LogSplit(h, rs, k - 1);
    var pre := HeaderBytes(h) + Frames(rs[..k - 1]);
    var post := Frames(rs[k..]);
    assert file == pre + Frame(r) + post;
    BackOverFrame(pre, r, post);
    SplitImage(r);
    OffsetStep(rs, k - 1);
    FrameAt(pre, r, post);
    assert Offset(rs, k) == |pre + Frame(r)| && Offset(rs, k - 1) == |pre|;
  }

  /** From any boundary, seeking backward finds the nearest match before it, or restores the pointer. */
  lemma {:induction false} SeekBkwdFindsNearest(file: seq<byte>, h: Header, rs: seq<Rec>, start: nat, k: nat, q: Query)
    requires IsLog(file, h, rs) && k <= |rs|
    ensures SeekBkwdFrom(file, start, Offset(rs, k), q)
         == var j := PrevMatch(rs, k, q);
            if j >= 0 then SeekResult(Ok, Offset(rs, j)) else SeekResult(Enoent, start)
  {
    if k == 0 {
      assert Offset(rs, 0) == LOG_HDR_SIZE;
    } else {
      hide IsLog, Offset, SeekBkwdFrom;
      SeekBkwdStep(file, h, rs, start, k, q);
      if !Matches(q, rs[k - 1]) {
        SeekBkwdFindsNearest(file, h, rs, start, k - 1, q);
      }
    }
  }

  /** Stepping back over a record and reading it again returns to the start and yields that record. */
  lemma {:induction false} BackThenRead(file: seq<byte>, h: Header, rs: seq<Rec>, k: nat)
    requires IsLog(file, h, rs) && 0 < k <= |rs|
    ensures var back := SeekBkwdFrom(file, Offset(rs, k), Offset(rs, k), None);
            && back.status == Ok
            && var o := ReadRecord(file, back.pos, POSIX_LOG_ENTRY_MAXLEN);
               o == RecRead(Ok, Offset(rs, k), rs[k - 1])
  {
    hide Offset, SeekBkwdFrom, ReadRecord;
    SeekBkwdStep(file, h, rs, Offset(rs, k), k, None);
    ReadAt(file, h, rs, k - 1, POSIX_LOG_ENTRY_MAXLEN);
  }

  /** Everything a reader gets by reading on from pos. */
  function ReadAllFrom(file: seq<byte>, pos: nat): (rs: seq<Rec>)
    decreases |file| - pos
  {
    var o := ReadRecord(file, pos, POSIX_LOG_ENTRY_MAXLEN);
    if o.status == Ok then [o.rec] + ReadAllFrom(file, o.pos) else []
  }

  /** What was written is what is read, record for record. */
  lemma {:induction false} ReadBackWhatWasWritten(file: seq<byte>, h: Header, rs: seq<Rec>, k: nat)
    requires IsLog(file, h, rs) && k <= |rs|
    ensures ReadAllFrom(file, Offset(rs, k)) == rs[k..]
    decreases |rs| - k
  {
    hide IsLog, Offset, ReadRecord;
    ReadAt(file, h, rs, k, POSIX_LOG_ENTRY_MAXLEN);
    if k < |rs| {
      DataFits(file, h, rs, k);
      ReadBackWhatWasWritten(file, h, rs, k + 1);
    }
  }

  /** Writing a valid record at the end of a log extends the log by that record. */
  lemma {:induction false} AppendKeepsLog(file: seq<byte>, h: Header, rs: seq<Rec>, r: Rec)
    requires IsLog(file, h, rs) && r.Valid()
    ensures IsLog(file + EntryBytes(r.entry) + r.data + ToBytes(SIZESIZE, REC_HDR_SIZE + |r.data|), h, rs + [r])
  {
    hide EntryBytes, ToBytes, HeaderBytes, Frames;
    FramesAppend(rs, [r]);
    FramesOne(r);
    assert EntryBytes(r.entry) + r.data + ToBytes(SIZESIZE, REC_HDR_SIZE + |r.data|) == Frame(r);
    assert file + EntryBytes(r.entry) + r.data + ToBytes(SIZESIZE, REC_HDR_SIZE + |r.data|)
        == file + Frame(r);
  }
}
