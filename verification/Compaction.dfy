/** evlogmgr's rewriting of a log in place, as functions of the file's bytes. */
module Compaction {
  import opened Bytes
  import opened Framing
  import opened LogAccess

  /** write(2) at an offset; a gap past the end of the file fills with zeros. */
  function WriteAt(file: seq<byte>, at: nat, b: seq<byte>): (f: seq<byte>)
    ensures |f| == if at + |b| <= |file| then |file| else at + |b|
    ensures f[at..at + |b|] == b
    ensures at <= |file| ==> f[..at] == file[..at]
    ensures at + |b| <= |file| ==> f[at + |b|..] == file[at + |b|..]
  {
    var front := if at <= |file| then file[..at] else file + Zeros(at - |file|);
    front + b + if at + |b| <= |file| then file[at + |b|..] else []
  }

  // ----- generation numbers

  datatype SetGen = GenReset | GenIncr | GenEven | GenOdd

  function NewGeneration(generation: nat, kind: SetGen): nat {
    match kind
    case GenReset => 0
    case GenIncr => generation + 1
    case GenEven => if generation % 2 == 1 then generation + 1 else generation
    case GenOdd => if generation % 2 == 0 then generation + 1 else generation
  }

  datatype Written = Written(status: Status, file: seq<byte>)

  function SetGeneration(file: seq<byte>, kind: SetGen): Written {
    if |file| < LOG_HDR_SIZE then Written(Ebadf, file)
    else
      var hdr := HeaderOf(file[..LOG_HDR_SIZE]);
      if hdr.magic != LOGFILE_MAGIC then Written(Ebadf, file)
      else Written(Ok, WriteAt(file, 0, HeaderBytes(hdr.(generation := NewGeneration(hdr.generation, kind)))))
  }

  /** Only the generation changes, whatever stands behind the header. */
  lemma {:induction false} SetGenerationKeepsBody(h: Header, body: seq<byte>, kind: SetGen)
    requires h.Valid() && NewGeneration(h.generation, kind) < 0x1_0000_0000
    ensures SetGeneration(HeaderBytes(h) + body, kind)
         == Written(Ok, HeaderBytes(h.(generation := NewGeneration(h.generation, kind))) + body)
  {
    hide HeaderBytes, HeaderOf;
    HeaderRoundTrip(h);
    var h' := h.(generation := NewGeneration(h.generation, kind));
    HeaderRoundTrip(h');
    var f := HeaderBytes(h) + body;
    assert f[..LOG_HDR_SIZE] == HeaderBytes(h);
    var w := WriteAt(f, 0, HeaderBytes(h'));
    assert w == w[0..0 + LOG_HDR_SIZE] + w[0 + LOG_HDR_SIZE..];
    assert f[0 + LOG_HDR_SIZE..] == body;
  }

  // ----- the deletion predicate

  /** strcmp(msg, buf) == 0 for a null-free msg. */
  predicate StrEqual(msg: seq<byte>, buf: seq<byte>) {
    |msg| < |buf| && buf[..|msg|] == msg && buf[|msg|] == 0
  }

  /** varbuf holds the record's data and, behind it, its size word. */
  predicate MatchesForDel(query: Rec -> bool, msg: seq<byte>, rec: Rec, varbuf: seq<byte>) {
    query(rec) && !StrEqual(msg, varbuf)
  }

  /** The data reads, as a C string in its buffer, as the compaction's own start message. */
  predicate Bears(msg: seq<byte>, r: Rec) {
    StrEqual(msg, r.data + ToBytes(SIZESIZE, REC_HDR_SIZE + |r.data|))
  }

  predicate Doomed(query: Rec -> bool, msg: seq<byte>, r: Rec) {
    query(r) && !Bears(msg, r)
  }

  // ----- one turn of the compaction loop

  datatype OffsetInfo = OffsetInfo(offset: nat, beginhole: nat, bytesToProcess: int)

  datatype Turn = Turn(status: Status, file: seq<byte>, fi: OffsetInfo, deleted: nat, bytes: nat)

  function StartCompaction(file: seq<byte>): OffsetInfo {
    OffsetInfo(LOG_HDR_SIZE, 0, |file| - LOG_HDR_SIZE)
  }

  function MoveUp(file: seq<byte>, fi: OffsetInfo, rechdr: Entry, varbuf: seq<byte>): (m: (bool, seq<byte>, OffsetInfo))
    ensures m.2.bytesToProcess == fi.bytesToProcess && m.2.offset == fi.offset
    ensures !m.0 ==> m.1 == file && m.2 == fi
  {
    if rechdr.size > POSIX_LOG_ENTRY_MAXLEN then (false, file, fi)
    else
      var written := EntryBytes(rechdr) + varbuf;
      (true, WriteAt(file, fi.beginhole, written), fi.(beginhole := fi.beginhole + |written|))
  }

  function CompactTurn(file: seq<byte>, fi: OffsetInfo, query: Rec -> bool, msg: seq<byte>): (t: Turn)
    ensures t.status == Ok ==> t.fi.bytesToProcess < fi.bytesToProcess
  {
    var head := ReadBuf(file, fi.offset, REC_HDR_SIZE);
    if head.status != Ok then Turn(Eio, file, fi, 0, 0)
    else
      var rechdr := EntryOf(head.bytes);
      if rechdr.magic / 0x1_0000 != LOGREC_MAGIC_HIWORD then Turn(Eio, file, fi, 0, 0)
      else
        var reclen := REC_HDR_SIZE + rechdr.size + SIZESIZE;
        var rest := ReadBuf(file, head.pos, rechdr.size + SIZESIZE);
        if rest.status != Ok then Turn(Eio, file, fi, 0, 0)
        else
          var rec := Rec(rechdr, rest.bytes[..rechdr.size]);
          if MatchesForDel(query, msg, rec, rest.bytes) then
            var fi' := if fi.beginhole == 0 then fi.(beginhole := fi.offset) else fi;
            Turn(Ok, file, fi'.(offset := fi'.offset + reclen, bytesToProcess := fi'.bytesToProcess - reclen), 1,
                 reclen)
          else if fi.beginhole != 0 then
            var (moved, file', fi') := MoveUp(file, fi, rechdr, rest.bytes);
            if !moved then Turn(Eio, file, fi, 0, 0)
            else
              Turn(Ok, file', fi'.(offset := fi'.offset + reclen, bytesToProcess := fi'.bytesToProcess - reclen), 0, 0)
          else
            Turn(Ok, file, fi.(offset := fi.offset + reclen, bytesToProcess := fi.bytesToProcess - reclen), 0, 0)
  }

  datatype Compacted = Compacted(status: Status, file: seq<byte>, deleted: nat, bytes: nat)

  /** The rest of the loop, and the final truncation at the hole. */
  function CompactFrom(file: seq<byte>, fi: OffsetInfo, query: Rec -> bool, msg: seq<byte>, deleted: nat, bytes: nat)
    : Compacted
    decreases fi.bytesToProcess
  {
    if fi.bytesToProcess <= 0 then Compacted(Ok, TruncateAtHole(file, fi), deleted, bytes)
    else
      var t := CompactTurn(file, fi, query, msg);
      if t.status != Ok then Compacted(t.status, t.file, deleted + t.deleted, bytes + t.bytes)
      else CompactFrom(t.file, t.fi, query, msg, deleted + t.deleted, bytes + t.bytes)
  }

  function TruncateAtHole(file: seq<byte>, fi: OffsetInfo): seq<byte> {
    if 0 < fi.beginhole <= |file| then file[..fi.beginhole] else file
  }

  /** before is the byte total an earlier compaction of the same process left. */
  function CompactLog(file: seq<byte>, query: Rec -> bool, msg: seq<byte>, before: nat): Compacted {
    if |file| == 0 then Compacted(Eio, file, 0, before)
    else CompactFrom(file, StartCompaction(file), query, msg, 0, before)
  }

  // ----- what compaction does to a well-formed log

  function Kept(rs: seq<Rec>, query: Rec -> bool, msg: seq<byte>): (ks: seq<Rec>)
    ensures |ks| <= |rs|
  {
    if rs == [] then []
    else (if Doomed(query, msg, rs[0]) then [] else [rs[0]]) + Kept(rs[1..], query, msg)
  }

  function CountOf(rs: seq<Rec>, p: Rec -> bool): nat {
    if rs == [] then 0 else (if p(rs[0]) then 1 else 0) + CountOf(rs[1..], p)
  }

  function BytesOf(rs: seq<Rec>, p: Rec -> bool): nat {
    if rs == [] then 0
    else (if p(rs[0]) then REC_HDR_SIZE + |rs[0].data| + SIZESIZE else 0) + BytesOf(rs[1..], p)
  }

  function DoomedBy(query: Rec -> bool, msg: seq<byte>): Rec -> bool {
    r => Doomed(query, msg, r)
  }

  /** Records are kept exactly when they are not doomed, and in their order. */
  lemma {:induction false} KeptIsFilter(rs: seq<Rec>, query: Rec -> bool, msg: seq<byte>)
    ensures forall r :: r in Kept(rs, query, msg) <==> r in rs && !Doomed(query, msg, r)
    ensures |Kept(rs, query, msg)| + CountOf(rs, DoomedBy(query, msg)) == |rs|
    ensures ValidRecs(rs) ==> ValidRecs(Kept(rs, query, msg))
  {
    if rs == [] {
    } else {
      KeptIsFilter(rs[1..], query, msg);
      assert rs == [rs[0]] + rs[1..];
    }
  }

  function Hole(fi: OffsetInfo): nat {
    if fi.beginhole == 0 then fi.offset else fi.beginhole
  }

  /**
   The file in the middle of a compaction: the kept records are packed behind the header up to the hole,
   the records not yet looked at stand from the offset to the end, and between them anything may stand.
   */
  ghost predicate Sliding(file: seq<byte>, fi: OffsetInfo, h: Header, kept: seq<Rec>, rest: seq<Rec>) {
    && h.Valid() && ValidRecs(kept) && ValidRecs(rest)
    && LOG_HDR_SIZE <= Hole(fi) <= fi.offset <= |file|
    && fi.bytesToProcess == |file| - fi.offset
    && file[..Hole(fi)] == HeaderBytes(h) + Frames(kept)
    && file[fi.offset..] == Frames(rest)
  }

  lemma {:induction false} StartsSliding(file: seq<byte>, h: Header, rs: seq<Rec>)
    requires IsLog(file, h, rs)
    ensures Sliding(file, StartCompaction(file), h, [], rs)
  {
    hide HeaderBytes;
    HeaderRoundTrip(h);
    assert file[..LOG_HDR_SIZE] == HeaderBytes(h);
    assert file[LOG_HDR_SIZE..] == Frames(rs);
  }

  /** The next record stands at the offset of a sliding compaction. */
  lemma {:induction false} SlidingSplit(file: seq<byte>, fi: OffsetInfo, h: Header, kept: seq<Rec>, rest: seq<Rec>)
    requires Sliding(file, fi, h, kept, rest) && rest != []
    ensures file == file[..fi.offset] + Frame(rest[0]) + Frames(rest[1..]) && rest[0].Valid()
    ensures |file[..fi.offset]| == fi.offset
  {
    hide HeaderBytes, Frame;
    assert file == file[..fi.offset] + file[fi.offset..];
    assert file[fi.offset..] == Frame(rest[0]) + Frames(rest[1..]);
    Associative(file[..fi.offset], Frame(rest[0]), Frames(rest[1..]));
  }

  /** What the loop reads at the offset of a sliding compaction is the next record. */
  lemma {:induction false} SlidingReads(file: seq<byte>, fi: OffsetInfo, h: Header, kept: seq<Rec>, rest: seq<Rec>)
    requires Sliding(file, fi, h, kept, rest) && rest != []
    ensures var r := rest[0];
            var head := ReadBuf(file, fi.offset, REC_HDR_SIZE);
            && head.status == Ok && EntryOf(head.bytes) == r.entry
            && var tail := ReadBuf(file, head.pos, r.entry.size + SIZESIZE);
               && tail.status == Ok
               && tail.bytes == r.data + ToBytes(SIZESIZE, REC_HDR_SIZE + |r.data|)
               && tail.pos <= |file|
    ensures fi.offset + |Frame(rest[0])| <= |file|
    ensures file[fi.offset..fi.offset + |Frame(rest[0])|] == Frame(rest[0])
    ensures file[fi.offset + |Frame(rest[0])|..] == Frames(rest[1..])
  {
    hide EntryBytes, EntryOf, ToBytes, Frame, Frames, Sliding;
    SlidingSplit(file, fi, h, kept, rest);
    var r, pre, post := rest[0], file[..fi.offset], Frames(rest[1..]);
    FrameAt(pre, r, post);
    FrameLength(r);
    EntryRoundTrip(r.entry);
    assert (pre + Frame(r) + post)[|pre| + |Frame(r)|..] == post;
  }

  /** What one turn does when the next record of the file is r. */
  function TurnOn(file: seq<byte>, fi: OffsetInfo, r: Rec, doomed: bool): Turn {
    var n := |Frame(r)|;
    if doomed then
      Turn(Ok, file, OffsetInfo(fi.offset + n, Hole(fi), fi.bytesToProcess - n), 1, n)
    else if fi.beginhole == 0 then
      Turn(Ok, file, OffsetInfo(fi.offset + n, 0, fi.bytesToProcess - n), 0, 0)
    else
      Turn(Ok, WriteAt(file, fi.beginhole, Frame(r)),
           OffsetInfo(fi.offset + n, fi.beginhole + n, fi.bytesToProcess - n), 0, 0)
  }

  lemma {:induction false} TurnIs(file: seq<byte>, fi: OffsetInfo, h: Header, kept: seq<Rec>, rest: seq<Rec>,
               query: Rec -> bool, msg: seq<byte>)
    requires Sliding(file, fi, h, kept, rest) && rest != []
    ensures CompactTurn(file, fi, query, msg) == TurnOn(file, fi, rest[0], Doomed(query, msg, rest[0]))
  {
    hide HeaderBytes, EntryOf, ToBytes, ReadBuf, WriteAt, Frames, EntryBytes, Frame;
    var r := rest[0];
    SlidingReads(file, fi, h, kept, rest);
    hide Sliding;
    FrameLength(r);
    FrameParts(r);
    RecFromParts(r);
  }

  lemma {:induction false} PassSlides(file: seq<byte>, fi: OffsetInfo, h: Header, kept: seq<Rec>, rest: seq<Rec>,
      doomed: bool)
    requires Sliding(file, fi, h, kept, rest) && rest != [] && (doomed || fi.beginhole == 0)
    ensures var t := TurnOn(file, fi, rest[0], doomed);
            Sliding(t.file, t.fi, h, if doomed then kept else kept + [rest[0]], rest[1..])
  {
    hide HeaderBytes, ReadBuf, Frames, Frame;
    var r := rest[0];
    SlidingReads(file, fi, h, kept, rest);
    FramesAppend(kept, [r]);
    FramesOne(r);
    var n := |Frame(r)|;
    assert file[..fi.offset + n] == file[..fi.offset] + file[fi.offset..fi.offset + n];
  }

  lemma {:induction false} MoveSlides(file: seq<byte>, fi: OffsetInfo, h: Header, kept: seq<Rec>, rest: seq<Rec>)
    requires Sliding(file, fi, h, kept, rest) && rest != [] && fi.beginhole != 0
    ensures var t := TurnOn(file, fi, rest[0], false);
            Sliding(t.file, t.fi, h, kept + [rest[0]], rest[1..]) && |t.file| == |file|
  {
    hide HeaderBytes, ReadBuf, Frames, Frame, WriteAt;
    var r := rest[0];
    SlidingReads(file, fi, h, kept, rest);
    FramesAppend(kept, [r]);
    FramesOne(r);
    var n, b := |Frame(r)|, fi.beginhole;
    var file' := WriteAt(file, b, Frame(r));
    assert file'[..b + n] == file'[..b] + file'[b..b + n];
    assert HeaderBytes(h) + (Frames(kept) + Frame(r)) == (HeaderBytes(h) + Frames(kept)) + Frame(r);
    assert file'[fi.offset + n..] == file'[b + n..][fi.offset - b..];
    assert file[fi.offset + n..] == file[b + n..][fi.offset - b..];
  }

  /** One turn keeps the shape and handles exactly the next record. */
  lemma {:induction false} TurnSlides(file: seq<byte>, fi: OffsetInfo, h: Header, kept: seq<Rec>, rest: seq<Rec>,
                   query: Rec -> bool, msg: seq<byte>)
    requires Sliding(file, fi, h, kept, rest) && rest != []
    ensures var t := CompactTurn(file, fi, query, msg);
            var doomed := Doomed(query, msg, rest[0]);
            && t.status == Ok
            && Sliding(t.file, t.fi, h, if doomed then kept else kept + [rest[0]], rest[1..])
            && t.deleted == (if doomed then 1 else 0)
            && t.bytes == (if doomed then REC_HDR_SIZE + |rest[0].data| + SIZESIZE else 0)
            && |t.file| == |file|
            && (t.fi.beginhole == 0 ==> t.file == file)
  {
    hide CompactTurn, Sliding, WriteAt, Doomed, Frame;
    var doomed := Doomed(query, msg, rest[0]);
    TurnIs(file, fi, h, kept, rest, query, msg);
    if doomed || fi.beginhole == 0 {
      PassSlides(file, fi, h, kept, rest, doomed);
    } else {
      MoveSlides(file, fi, h, kept, rest);
    }
    SlidingValid(file, fi, h, kept, rest);
    FrameLength(rest[0]);
  }

  lemma {:induction false} SlidingValid(file: seq<byte>, fi: OffsetInfo, h: Header, kept: seq<Rec>, rest: seq<Rec>)
    requires Sliding(file, fi, h, kept, rest)
    ensures h.Valid() && ValidRecs(kept) && ValidRecs(rest)
  {
  }

  lemma {:induction false} FrameParts(r: Rec)
    ensures Frame(r) == EntryBytes(r.entry) + (r.data + ToBytes(SIZESIZE, REC_HDR_SIZE + |r.data|))
  {
    hide EntryBytes, ToBytes;
  }

  lemma {:induction false} RecFromParts(r: Rec)
    requires r.Valid()
    ensures var varbuf := r.data + ToBytes(SIZESIZE, REC_HDR_SIZE + |r.data|);
            |varbuf| == r.entry.size + SIZESIZE && Rec(r.entry, varbuf[..r.entry.size]) == r
  {
    hide ToBytes;
  }

  /** From any sliding state, the rest of the loop leaves the header and the kept records. */
  lemma {:induction false} CompactFromKeeps(file: seq<byte>, fi: OffsetInfo, h: Header, kept: seq<Rec>, rest: seq<Rec>,
                                            query: Rec -> bool, msg: seq<byte>, deleted: nat, bytes: nat)
    requires Sliding(file, fi, h, kept, rest)
    ensures CompactFrom(file, fi, query, msg, deleted, bytes)
         == Compacted(Ok, HeaderBytes(h) + Frames(kept + Kept(rest, query, msg)),
                      deleted + CountOf(rest, DoomedBy(query, msg)), bytes + BytesOf(rest, DoomedBy(query, msg)))
    decreases |rest|
  {
    hide HeaderBytes, Frame, CompactTurn, Sliding, Doomed, Frames, Kept, CountOf, BytesOf;
    TallyStep(kept, rest, query, msg);
    if rest == [] {
      SlidingDone(file, fi, h, kept);
    } else {
      SlidingMore(file, fi, h, kept, rest);
      TurnSlides(file, fi, h, kept, rest, query, msg);
      var t := CompactTurn(file, fi, query, msg);
      var kept' := if Doomed(query, msg, rest[0]) then kept else kept + [rest[0]];
      CompactFromKeeps(t.file, t.fi, h, kept', rest[1..], query, msg, deleted + t.deleted, bytes + t.bytes);
    }
  }

  lemma {:induction false} TallyStep(kept: seq<Rec>, rest: seq<Rec>, query: Rec -> bool, msg: seq<byte>)
    ensures rest == [] ==>
      && kept + Kept(rest, query, msg) == kept
      && CountOf(rest, DoomedBy(query, msg)) == BytesOf(rest, DoomedBy(query, msg)) == 0
    ensures rest != [] ==>
      var doomed := Doomed(query, msg, rest[0]);
      && kept + Kept(rest, query, msg) == (if doomed then kept else kept + [rest[0]]) + Kept(rest[1..], query, msg)
      && CountOf(rest, DoomedBy(query, msg)) == (if doomed then 1 else 0) + CountOf(rest[1..], DoomedBy(query, msg))
      && BytesOf(rest, DoomedBy(query, msg))
         == (if doomed then REC_HDR_SIZE + |rest[0].data| + SIZESIZE else 0) + BytesOf(rest[1..], DoomedBy(query, msg))
  {
    hide Doomed;
  }

  lemma {:induction false} SlidingDone(file: seq<byte>, fi: OffsetInfo, h: Header, kept: seq<Rec>)
    requires Sliding(file, fi, h, kept, [])
    ensures fi.bytesToProcess == 0 && TruncateAtHole(file, fi) == HeaderBytes(h) + Frames(kept)
  {
    hide HeaderBytes;
    assert file[..|file|] == file;
  }

  lemma {:induction false} SlidingMore(file: seq<byte>, fi: OffsetInfo, h: Header, kept: seq<Rec>, rest: seq<Rec>)
    requires Sliding(file, fi, h, kept, rest) && rest != []
    ensures fi.bytesToProcess > 0
  {
    hide HeaderBytes, Frame;
    FrameLength(rest[0]);
  }

  /** Compacting in place is filtering: header and kept records stand byte for byte, in order. */
  lemma {:induction false} CompactionIsFilter(file: seq<byte>, h: Header, rs: seq<Rec>, query: Rec -> bool,
      msg: seq<byte>, before: nat)
    requires IsLog(file, h, rs)
    ensures var c := CompactLog(file, query, msg, before);
            var ks := Kept(rs, query, msg);
            && c.status == Ok
            && IsLog(c.file, h, ks)
            && c.deleted == |rs| - |ks| == CountOf(rs, DoomedBy(query, msg))
            && c.bytes - before == |file| - |c.file| == BytesOf(rs, DoomedBy(query, msg))
  {
    hide HeaderBytes, Frames, EntryBytes, Frame, CompactFrom;
    HeaderRoundTrip(h);
    StartsSliding(file, h, rs);
    CompactFromKeeps(file, StartCompaction(file), h, [], rs, query, msg, 0, before);
    KeptIsFilter(rs, query, msg);
    assert [] + Kept(rs, query, msg) == Kept(rs, query, msg);
    SizesAddUp(rs, query, msg);
  }

  lemma {:induction false} SizesAddUp(rs: seq<Rec>, query: Rec -> bool, msg: seq<byte>)
    requires ValidRecs(rs)
    ensures |Frames(rs)| == |Frames(Kept(rs, query, msg))| + BytesOf(rs, DoomedBy(query, msg))
  {
    hide EntryBytes, Frame;
    if rs == [] {
    } else {
      FrameLength(rs[0]);
      SizesAddUp(rs[1..], query, msg);
      var ks := Kept(rs, query, msg);
      if !Doomed(query, msg, rs[0]) {
        assert ks[1..] == Kept(rs[1..], query, msg);
      } else {
        assert ks == Kept(rs[1..], query, msg);
      }
    }
  }

  // ----- the whole operation

  datatype Managed = Managed(status: Status, file: seq<byte>)

  function FinishMaintenance(file: seq<byte>, ret: Status): Managed {
    var w := SetGeneration(file, GenEven);
    Managed(if w.status != Ok then Ebadf else ret, w.file)
  }

  /** Without a backup the compaction goes on only when forced; the generation is made even on every path. */
  function EvlCompactLog(file: seq<byte>, query: Rec -> bool, msg: seq<byte>, before: nat, backedUp: bool, force: bool)
    : Managed
  {
    if !backedUp && !force then FinishMaintenance(file, Ebadf)
    else
      var odd := SetGeneration(file, GenOdd);
      if odd.status != Ok then FinishMaintenance(odd.file, Ebadf)
      else
        var c := CompactLog(odd.file, query, msg, before);
        FinishMaintenance(c.file, c.status)
  }

  /**
   A compaction of a log leaves a log of the kept records whose generation is even and new, so that every
   descriptor opened before is out of date and a new open succeeds.
   */
  lemma {:induction false} CompactionRenewsLog(file: seq<byte>, h: Header, rs: seq<Rec>, query: Rec -> bool,
      msg: seq<byte>,
                            before: nat, backedUp: bool, force: bool)
    requires IsLog(file, h, rs) && h.generation + 2 < 0x1_0000_0000 && (backedUp || force)
    ensures var m := EvlCompactLog(file, query, msg, before, backedUp, force);
            var h' := MappedHeader(m.file);
            && m.status == Ok
            && IsLog(m.file, h', Kept(rs, query, msg))
            && h' == h.(generation := h'.generation)
            && h'.generation % 2 == 0 && h.generation < h'.generation <= h.generation + 2
  {
    hide HeaderBytes, Frames, SetGeneration, CompactLog, MappedHeader, Kept;
    var g := NewGeneration(h.generation, GenOdd);
    var h1 := h.(generation := g);
    var h2 := h.(generation := NewGeneration(g, GenEven));
    SetGenerationKeepsBody(h, Frames(rs), GenOdd);
    CompactionIsFilter(HeaderBytes(h1) + Frames(rs), h1, rs, query, msg, before);
    SetGenerationKeepsBody(h1, Frames(Kept(rs, query, msg)), GenEven);
    MappedHeaderOf(h2, Frames(Kept(rs, query, msg)));
  }

  // ----- predicting a compaction

  datatype Counted = Counted(status: Status, records: nat, deleted: nat, bytes: nat)

  /** A fixed-size buffer after len bytes were read into its front. */
  function Refill(varbuf: seq<byte>, b: seq<byte>): (v: seq<byte>)
    ensures |b| <= |v| && v[..|b|] == b
    ensures |b| <= |varbuf| ==> |v| == |varbuf|
  {
    if |b| <= |varbuf| then b + varbuf[|b|..] else b
  }

  function Front(varbuf: seq<byte>, n: nat): seq<byte> {
    if n <= |varbuf| then varbuf[..n] else varbuf
  }

  datatype CountTurn = CountTurn(status: Status, recsize: nat, hit: bool, varbuf: seq<byte>)

  /** varbuf keeps what an earlier record left there when a record has no data of its own. */
  function CountNext(file: seq<byte>, offset: nat, query: Rec -> bool, msg: seq<byte>,
      varbuf: seq<byte>): (t: CountTurn)
    ensures t.status == Ok ==> offset < |file| && t.recsize > 0
  {
    var head := ReadBuf(file, offset, REC_HDR_SIZE);
    if head.status != Ok then CountTurn(Eio, 0, false, varbuf)
    else
      var rechdr := EntryOf(head.bytes);
      var wanted := if rechdr.size <= POSIX_LOG_ENTRY_MAXLEN then rechdr.size else 0;
      var body := ReadBuf(file, head.pos, wanted);
      if wanted > 0 && body.status != Ok then CountTurn(Eio, 0, false, varbuf)
      else
        var varbuf' := if wanted > 0 then Refill(varbuf, body.bytes) else varbuf;
        var word := ReadBuf(file, head.pos + wanted, SIZESIZE);
        if word.status != Ok then CountTurn(Eio, 0, false, varbuf)
        else
          var evlrecsize := FromBytes(word.bytes);
          if evlrecsize != REC_HDR_SIZE + rechdr.size then CountTurn(Eio, 0, false, varbuf)
          else
            var hit := query(Rec(rechdr, Front(varbuf', rechdr.size))) && (msg == [] || !StrEqual(msg, varbuf'));
            CountTurn(Ok, evlrecsize + SIZESIZE, hit, varbuf')
  }

  function CountFrom(file: seq<byte>, offset: nat, bytesToProcess: int, query: Rec -> bool, msg: seq<byte>,
                     varbuf: seq<byte>, sofar: Counted): Counted
    decreases |file| - offset
  {
    if bytesToProcess == 0 then sofar
    else
      var t := CountNext(file, offset, query, msg, varbuf);
      if t.status != Ok then sofar.(status := t.status)
      else
        CountFrom(file, offset + t.recsize, bytesToProcess - t.recsize, query, msg, t.varbuf,
                  Counted(Ok, sofar.records + 1, sofar.deleted + (if t.hit then 1 else 0),
                          sofar.bytes + if t.hit then t.recsize else 0))
  }

  function CountForDeletion(file: seq<byte>, query: Rec -> bool, msg: seq<byte>, varbuf: seq<byte>): Counted {
    if |file| == 0 then Counted(Ebadf, 0, 0, 0)
    else CountFrom(file, LOG_HDR_SIZE, |file| - LOG_HDR_SIZE, query, msg, varbuf, Counted(Ok, 0, 0, 0))
  }

  /** One record of a well-formed log, counted. */
  function CountOn(r: Rec, query: Rec -> bool, sofar: Counted): Counted {
    Counted(Ok, sofar.records + 1, sofar.deleted + (if query(r) then 1 else 0),
            sofar.bytes + if query(r) then REC_HDR_SIZE + |r.data| + SIZESIZE else 0)
  }

  function Seen(r: Rec, varbuf: seq<byte>): seq<byte> {
    if |r.data| > 0 then Refill(varbuf, r.data) else varbuf
  }

  lemma {:induction false} SeenFront(r: Rec, varbuf: seq<byte>)
    requires r.Valid() && |varbuf| == POSIX_LOG_ENTRY_MAXLEN + 1
    ensures Front(Seen(r, varbuf), r.entry.size) == r.data && |Seen(r, varbuf)| == |varbuf|
  {
  }

  lemma {:induction false} CountFrame(pre: seq<byte>, r: Rec, post: seq<byte>, query: Rec -> bool, varbuf: seq<byte>)
    requires r.Valid() && |varbuf| == POSIX_LOG_ENTRY_MAXLEN + 1
    ensures CountNext(pre + Frame(r) + post, |pre|, query, [], varbuf)
         == CountTurn(Ok, |Frame(r)|, query(r), Seen(r, varbuf))
  {
    hide Frame, EntryBytes, EntryOf, ToBytes, FromBytes, Refill, Front, StrEqual;
    FrameAt(pre, r, post);
    FrameLength(r);
    EntryRoundTrip(r.entry);
    SizeWord(|r.data|);
    SeenFront(r, varbuf);
  }

  lemma {:induction false} CountNextAt(file: seq<byte>, h: Header, rs: seq<Rec>, k: nat, query: Rec -> bool,
      varbuf: seq<byte>)
    requires IsLog(file, h, rs) && k < |rs| && |varbuf| == POSIX_LOG_ENTRY_MAXLEN + 1
    ensures Offset(rs, k + 1) == Offset(rs, k) + REC_HDR_SIZE + |rs[k].data| + SIZESIZE <= |file|
    ensures CountNext(file, Offset(rs, k), query, [], varbuf)
         == CountTurn(Ok, REC_HDR_SIZE + |rs[k].data| + SIZESIZE, query(rs[k]), Seen(rs[k], varbuf))
  {
    hide Frame, Frames, HeaderBytes, CountNext, Seen, Offset;
    LogSplit(h, rs, k);
    OffsetStep(rs, k);
    FrameLength(rs[k]);
    CountFrame(HeaderBytes(h) + Frames(rs[..k]), rs[k], Frames(rs[k + 1..]), query, varbuf);
  }

  lemma {:induction false} CountFromNext(file: seq<byte>, offset: nat, n: int, query: Rec -> bool, varbuf: seq<byte>,
      sofar: Counted,
                      size: nat, hit: bool, varbuf': seq<byte>)
    requires n != 0 && CountNext(file, offset, query, [], varbuf) == CountTurn(Ok, size, hit, varbuf')
    ensures CountFrom(file, offset, n, query, [], varbuf, sofar)
         == CountFrom(file, offset + size, n - size, query, [], varbuf',
                      Counted(Ok, sofar.records + 1, sofar.deleted + (if hit then 1 else 0),
                              sofar.bytes + if hit then size else 0))
  {
    hide CountNext;
  }

  lemma {:induction false} CountFromCounts(file: seq<byte>, h: Header, rs: seq<Rec>, k: nat, query: Rec -> bool,
                                           varbuf: seq<byte>, sofar: Counted)
    requires IsLog(file, h, rs) && k <= |rs| && |varbuf| == POSIX_LOG_ENTRY_MAXLEN + 1 && sofar.status == Ok
    ensures CountFrom(file, Offset(rs, k), |file| - Offset(rs, k), query, [], varbuf, sofar)
         == Counted(Ok, sofar.records + |rs| - k, sofar.deleted + CountOf(rs[k..], query),
                    sofar.bytes + BytesOf(rs[k..], query))
    decreases |rs| - k
  {
    hide Frame, Frames, HeaderBytes, CountFrom, CountNext, Offset, Seen;
    if k == |rs| {
      OffsetEnds(h, rs);
      CountDone(file, Offset(rs, k), query, varbuf, sofar);
    } else {
      CountNextAt(file, h, rs, k, query, varbuf);
      SeenFront(rs[k], varbuf);
      CountFromNext(file, Offset(rs, k), |file| - Offset(rs, k), query, varbuf, sofar,
                    REC_HDR_SIZE + |rs[k].data| + SIZESIZE, query(rs[k]), Seen(rs[k], varbuf));
      CountFromCounts(file, h, rs, k + 1, query, Seen(rs[k], varbuf), CountOn(rs[k], query, sofar));
      assert rs[k..][1..] == rs[k + 1..];
    }
  }

  lemma {:induction false} CountDone(file: seq<byte>, offset: nat, query: Rec -> bool, varbuf: seq<byte>,
      sofar: Counted)
    ensures CountFrom(file, offset, 0, query, [], varbuf, sofar) == sofar
  {
  }

  /**
   What --status predicts and what --compact does differ by exactly the matching records that bear the
   compaction's own start message.
   */
  lemma {:induction false} PredictionMatchesCompaction(file: seq<byte>, h: Header, rs: seq<Rec>, query: Rec -> bool,
      msg: seq<byte>,
                                    varbuf: seq<byte>)
    requires IsLog(file, h, rs) && |varbuf| == POSIX_LOG_ENTRY_MAXLEN + 1
    ensures var predicted := CountForDeletion(file, query, [], varbuf);
            var done := CompactLog(file, query, msg, 0);
            var spared := (r: Rec) => query(r) && Bears(msg, r);
            && predicted.status == done.status == Ok
            && predicted.records == |rs|
            && predicted.deleted == done.deleted + CountOf(rs, spared)
            && predicted.bytes == done.bytes + BytesOf(rs, spared)
  {
    hide Frames, HeaderBytes, CountFrom, CompactLog, Bears;
    HeaderRoundTrip(h);
    OffsetEnds(h, rs);
    CountFromCounts(file, h, rs, 0, query, varbuf, Counted(Ok, 0, 0, 0));
    CompactionIsFilter(file, h, rs, query, msg, 0);
    assert rs[0..] == rs;
    SparedSplit(rs, query, msg);
  }

  lemma {:induction false} SparedSplit(rs: seq<Rec>, query: Rec -> bool, msg: seq<byte>)
    ensures var spared := (r: Rec) => query(r) && Bears(msg, r);
            && CountOf(rs, query) == CountOf(rs, DoomedBy(query, msg)) + CountOf(rs, spared)
            && BytesOf(rs, query) == BytesOf(rs, DoomedBy(query, msg)) + BytesOf(rs, spared)
  {
    hide Bears;
    if rs == [] {
    } else {
      SparedSplit(rs[1..], query, msg);
    }
  }
}
