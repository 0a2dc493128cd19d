/** evlogmgr --repair: finding and cutting out a bad block, as functions of the file's bytes. */
module Repair {
  import opened Options
  import opened Bytes
  import opened Framing
  import opened LogAccess
  import opened Compaction

  /** The offset behind a record that validates. */
  function ValidateRec(file: seq<byte>, offset: nat): (next: Option<nat>)
    ensures next.Some? ==> offset + REC_HDR_SIZE + SIZESIZE <= next.value <= |file|
  {
    var head := ReadBuf(file, offset, REC_HDR_SIZE);
    if head.status != Ok then None
    else
      var rechdr := EntryOf(head.bytes);
      var word := ReadBuf(file, offset + rechdr.size + REC_HDR_SIZE, SIZESIZE);
      if word.status != Ok then None
      else
        var recsize := FromBytes(word.bytes);
        if rechdr.magic / 0x1_0000 == LOGREC_MAGIC_HIWORD && rechdr.size + REC_HDR_SIZE == recsize
        then Some(offset + recsize + SIZESIZE) else None
  }

  predicate PassesMagic(file: seq<byte>, offset: nat) {
    offset + 4 <= |file| && FromBytes(file[offset..offset + 4]) / 0x1_0000 == LOGREC_MAGIC_HIWORD
  }

  datatype Candidate = Good | Bad | CutShort

  /** Whether a good record starts at an offset that passes the magic test. */
  function Examine(file: seq<byte>, offset: nat): Candidate {
    var sizeWord := ReadBuf(file, offset + 8, 8);
    if sizeWord.status != Ok then CutShort
    else
      var logSize := FromBytes(sizeWord.bytes);
      var recWord := ReadBuf(file, offset + logSize + REC_HDR_SIZE, SIZESIZE);
      if recWord.status != Ok then CutShort
      else if logSize + REC_HDR_SIZE == FromBytes(recWord.bytes) then Good
      else Bad
  }

  /** The first good record at or after offset, one byte at a time; it gives up when a candidate is cut short. */
  function SearchFrom(file: seq<byte>, offset: nat): (found: Option<nat>)
    ensures found.Some? ==> offset <= found.value && PassesMagic(file, found.value)
    decreases |file| - offset
  {
    if |file| < offset + 4 then None
    else if PassesMagic(file, offset) then
      match Examine(file, offset)
      case Good => Some(offset)
      case CutShort => None
      case Bad => SearchFrom(file, offset + 1)
    else SearchFrom(file, offset + 1)
  }

  /** The end of the leading run of valid records. */
  function ScanGood(file: seq<byte>, offset: nat): (bad: nat)
    ensures offset <= bad
    ensures bad < |file| ==> ValidateRec(file, bad).None?
    decreases |file| - offset
  {
    if |file| <= offset then offset
    else match ValidateRec(file, offset)
      case None => offset
      case Some(next) => ScanGood(file, next)
  }

  datatype Outcome = Done(status: nat, file: seq<byte>) | IoError(file: seq<byte>) | Again(file: seq<byte>)

  datatype Move = Moved(file: seq<byte>, fi: OffsetInfo) | Broken(outcome: Outcome)

  /** Moving the record at the offset into the hole. */
  function MoveNext(file: seq<byte>, fi: OffsetInfo): (m: Move)
    ensures m.Moved? ==> m.fi.bytesToProcess < fi.bytesToProcess
  {
    var head := ReadBuf(file, fi.offset, REC_HDR_SIZE);
    if head.status != Ok then Broken(IoError(file))
    else
      var rechdr := EntryOf(head.bytes);
      if rechdr.magic / 0x1_0000 != LOGREC_MAGIC_HIWORD then Broken(Again(file))
      else if rechdr.size > POSIX_LOG_ENTRY_MAXLEN then Broken(Again(file))
      else
        var rest := ReadBuf(file, head.pos, rechdr.size + SIZESIZE);
        if rest.status != Ok then Broken(Again(file))
        else
          var reclen := REC_HDR_SIZE + rechdr.size + SIZESIZE;
          var (moved, file', fi') := MoveUp(file, fi, rechdr, rest.bytes);
          Moved(file', fi'.(offset := fi'.offset + reclen, bytesToProcess := fi'.bytesToProcess - reclen))
  }

  /** Moving every following record into the hole, and cutting the file behind the last. */
  function MoveAll(file: seq<byte>, fi: OffsetInfo): (o: Outcome)
    decreases fi.bytesToProcess
  {
    if fi.bytesToProcess <= 0 then Done(1, TruncateAtHole(file, fi))
    else match MoveNext(file, fi)
      case Broken(o) => o
      case Moved(file', fi') => MoveAll(file', fi')
  }

  /** One pass over the file, from the label that a failed move jumps back to. */
  function Pass(file: seq<byte>): Outcome {
    var bad := ScanGood(file, LOG_HDR_SIZE);
    if |file| <= bad then Done(0, file)
    else match SearchFrom(file, bad)
      case None => Done(1, file[..bad])
      case Some(good) => MoveAll(file, OffsetInfo(good, bad, |file| - good))
  }

  // ----- repairing a log with one bad block

  /** A frame validates, and validating leads behind it. */
  lemma {:induction false} FrameValidates(pre: seq<byte>, r: Rec, post: seq<byte>)
    requires r.Framed()
    ensures ValidateRec(pre + Frame(r) + post, |pre|) == Some(|pre| + |Frame(r)|)
    ensures PassesMagic(pre + Frame(r) + post, |pre|)
    ensures SearchFrom(pre + Frame(r) + post, |pre|) == Some(|pre|)
  {
    hide Frame, EntryBytes, EntryOf, ToBytes, FromBytes;
    FrameAt(pre, r, post);
    FrameLength(r);
    EntryRoundTrip(r.entry);
    SizeWord(|r.data|);
    var f, p := pre + Frame(r) + post, |pre|;
    FieldsOf(f[p..p + REC_HDR_SIZE]);
    assert f[p..p + 4] == f[p..p + REC_HDR_SIZE][..4];
    assert f[p + 8..p + 16] == f[p..p + REC_HDR_SIZE][8..16];
  }

  lemma {:induction false} FieldsOf(s: seq<byte>)
    requires |s| == REC_HDR_SIZE
    ensures EntryOf(s).magic == FromBytes(s[..4]) && EntryOf(s).size == FromBytes(s[8..16])
  {
  }

  /** Header and size words fit together; unlike valid records these may be longer than evlogd writes them. */
  ghost predicate FramedRecs(rs: seq<Rec>) {
    forall i :: 0 <= i < |rs| ==> rs[i].Framed()
  }

  /** The scan runs over well-framed records to whatever stands behind them. */
  lemma {:induction false} ScanOverFrames(pre: seq<byte>, rs: seq<Rec>, post: seq<byte>)
    requires FramedRecs(rs)
    ensures ScanGood(pre + Frames(rs) + post, |pre|) == ScanGood(pre + Frames(rs) + post, |pre + Frames(rs)|)
    decreases |rs|
  {
    hide Frame, ValidateRec, ScanGood, Frames;
    if rs == [] {
      NoFrames();
    } else {
      FramesCons(rs);
      var r, more := rs[0], Frames(rs[1..]);
      Regroup(pre, Frame(r), more, post);
      FrameValidates(pre, r, more + post);
      FrameLength(r);
      ScanOne(pre + Frames(rs) + post, |pre|, |pre| + |Frame(r)|);
      ScanOverFrames(pre + Frame(r), rs[1..], post);
    }
  }

  lemma {:induction false} FramesCons(rs: seq<Rec>)
    requires rs != []
    ensures Frames(rs) == Frame(rs[0]) + Frames(rs[1..])
  {
    hide Frame;
  }

  lemma {:induction false} Regroup(a: seq<byte>, b: seq<byte>, c: seq<byte>, d: seq<byte>)
    ensures a + (b + c) + d == a + b + (c + d) == (a + b) + c + d
    ensures a + (b + c) == (a + b) + c
  {
  }

  /** A log of well-framed records is left as it is. */
  lemma {:induction false} FramedLogUnchanged(h: Header, rs: seq<Rec>)
    requires h.Valid() && FramedRecs(rs)
    ensures Pass(HeaderBytes(h) + Frames(rs)) == Done(0, HeaderBytes(h) + Frames(rs))
    ensures RepairLog(HeaderBytes(h) + Frames(rs)) == Settled(Ok, 0, HeaderBytes(h) + Frames(rs))
  {
    hide HeaderBytes, Frames, Frame, ScanGood;
    HeaderRoundTrip(h);
    var file := HeaderBytes(h) + Frames(rs);
    assert file == HeaderBytes(h) + Frames(rs) + [];
    ScanOverFrames(HeaderBytes(h), rs, []);
    ScanEnds(file, |file|);
  }

  lemma {:induction false} ScanEnds(file: seq<byte>, offset: nat)
    requires |file| <= offset || ValidateRec(file, offset).None?
    ensures ScanGood(file, offset) == offset
  {
  }

  /** No offset of the block passes the magic test. */
  ghost predicate BadBlock(file: seq<byte>, start: nat, stop: nat) {
    forall i :: start <= i < stop ==> !PassesMagic(file, i)
  }

  lemma {:induction false} BadOffsetFails(file: seq<byte>, offset: nat)
    requires !PassesMagic(file, offset)
    ensures ValidateRec(file, offset).None?
  {
    hide FromBytes;
    if offset + REC_HDR_SIZE <= |file| {
      FieldsOf(file[offset..offset + REC_HDR_SIZE]);
      assert file[offset..offset + 4] == file[offset..offset + REC_HDR_SIZE][..4];
    }
  }

  /** The byte scan crosses a bad block. */
  lemma {:induction false} SearchCrosses(file: seq<byte>, start: nat, stop: nat)
    requires start <= stop <= |file| && BadBlock(file, start, stop)
    ensures stop + 4 <= |file| ==> SearchFrom(file, start) == SearchFrom(file, stop)
    ensures stop == |file| ==> SearchFrom(file, start) == None
    decreases stop - start
  {
    hide PassesMagic, Examine;
    if start < stop {
      assert !PassesMagic(file, start);
      if start + 4 <= |file| {
        SearchCrosses(file, start + 1, stop);
      }
    }
  }

  // ----- repeating the pass

  lemma {:induction false} ValidateLocal(file: seq<byte>, file': seq<byte>, offset: nat, next: nat)
    requires ValidateRec(file, offset) == Some(next)
    requires next <= |file'| && file'[..next] == file[..next]
    ensures ValidateRec(file', offset) == Some(next)
  {
    hide EntryOf, FromBytes;
    var q := offset + REC_HDR_SIZE;
    assert file'[offset..q] == file'[..next][offset..q] == file[..next][offset..q] == file[offset..q];
    assert next <= |file| && file'[next - SIZESIZE..next] == file'[..next][next - SIZESIZE..next]
        == file[..next][next - SIZESIZE..next] == file[next - SIZESIZE..next];
  }

  /** The valid records before the bad block stay valid when only bytes behind them change. */
  lemma {:induction false} ScanAgrees(file: seq<byte>, file': seq<byte>, offset: nat, bad: nat)
    requires bad == ScanGood(file, offset) <= |file'| == |file| && file'[..bad] == file[..bad]
    ensures ScanGood(file', offset) == ScanGood(file', bad)
    decreases |file| - offset
  {
    hide ValidateRec;
    if offset < |file| && ValidateRec(file, offset).Some? {
      var next := ValidateRec(file, offset).value;
      assert file'[..next] == file'[..bad][..next] == file[..bad][..next] == file[..next];
      ValidateLocal(file, file', offset, next);
      ScanAgrees(file, file', next, bad);
    }
  }

  /** One move writes exactly the record's bytes over the hole. */
  lemma {:induction false} MoveCopies(file: seq<byte>, fi: OffsetInfo)
    requires MoveNext(file, fi).Moved?
    ensures var m := MoveNext(file, fi);
            var n := m.fi.offset - fi.offset;
            && REC_HDR_SIZE + SIZESIZE <= n && fi.offset + n <= |file|
            && m.fi == OffsetInfo(fi.offset + n, fi.beginhole + n, fi.bytesToProcess - n)
            && m.file == WriteAt(file, fi.beginhole, file[fi.offset..fi.offset + n])
            && n == REC_HDR_SIZE + EntryOf(file[fi.offset..fi.offset + REC_HDR_SIZE]).size + SIZESIZE
  {
    hide EntryOf, EntryBytes, WriteAt;
    var s := file[fi.offset..fi.offset + REC_HDR_SIZE];
    EntryImage(s);
    var n := MoveNext(file, fi).fi.offset - fi.offset;
    assert file[fi.offset..fi.offset + n] == EntryBytes(EntryOf(s)) + file[fi.offset + REC_HDR_SIZE..fi.offset + n];
  }

  /** Moving records never touches the bytes before the hole, nor the file's length. */
  lemma {:induction false} MoveAllKeepsFront(file: seq<byte>, fi: OffsetInfo)
    requires fi.beginhole <= fi.offset && fi.beginhole <= |file| && MoveAll(file, fi).Again?
    ensures |MoveAll(file, fi).file| == |file|
    ensures MoveAll(file, fi).file[..fi.beginhole] == file[..fi.beginhole]
    decreases fi.bytesToProcess
  {
    hide EntryOf, WriteAt, MoveNext;
    match MoveNext(file, fi)
    case Broken(o) => BrokenKeeps(file, fi);
    case Moved(file', fi') =>
      MoveCopies(file, fi);
      MoveAllKeepsFront(file', fi');
      var b, end := fi.beginhole, MoveAll(file, fi).file;
      assert end[..b] == end[..fi'.beginhole][..b] == file'[..fi'.beginhole][..b] == file'[..b];
  }

  lemma {:induction false} BrokenKeeps(file: seq<byte>, fi: OffsetInfo)
    requires MoveNext(file, fi).Broken?
    ensures MoveNext(file, fi).outcome in {IoError(file), Again(file)}
  {
    hide EntryOf, MoveUp;
  }

  /** The record a search finds is a valid one. */
  lemma {:induction false} FoundValidates(file: seq<byte>, offset: nat, good: nat)
    requires SearchFrom(file, offset) == Some(good)
    ensures good + REC_HDR_SIZE + SIZESIZE <= |file|
    ensures ValidateRec(file, good).Some?
    ensures var e := EntryOf(file[good..good + REC_HDR_SIZE]);
            && ValidateRec(file, good).value == good + REC_HDR_SIZE + e.size + SIZESIZE
            && e.magic / 0x1_0000 == LOGREC_MAGIC_HIWORD
    decreases |file| - offset
  {
    hide EntryOf, ValidateRec, Examine, PassesMagic;
    if good != offset {
      FoundValidates(file, offset + 1, good);
    } else {
      FoundHere(file, offset);
    }
  }

  lemma {:induction false} FoundHere(file: seq<byte>, offset: nat)
    requires SearchFrom(file, offset) == Some(offset)
    ensures offset + REC_HDR_SIZE + SIZESIZE <= |file|
    ensures ValidateRec(file, offset).Some?
    ensures var e := EntryOf(file[offset..offset + REC_HDR_SIZE]);
            && ValidateRec(file, offset).value == offset + REC_HDR_SIZE + e.size + SIZESIZE
            && e.magic / 0x1_0000 == LOGREC_MAGIC_HIWORD
  {
    hide EntryOf, FromBytes, SearchFrom, PassesMagic;
    SearchHit(file, offset);
    var s := file[offset..offset + REC_HDR_SIZE];
    FieldsOf(s);
    assert file[offset..offset + 4] == s[..4] by { SliceOfSlice(file, offset, REC_HDR_SIZE, 0, 4); }
    assert file[offset + 8..offset + 16] == s[8..16] by { SliceOfSlice(file, offset, REC_HDR_SIZE, 8, 16); }
    assert FromBytes(s[..4]) / 0x1_0000 == LOGREC_MAGIC_HIWORD by { MagicOf(file, offset); }
  }

  /** A candidate whose size words disagree does not validate. */
  lemma {:induction false} BadCandidateFails(file: seq<byte>, offset: nat)
    requires PassesMagic(file, offset) && Examine(file, offset) == Bad
    ensures ValidateRec(file, offset).None?
  {
    hide EntryOf, FromBytes;
    if ReadBuf(file, offset, REC_HDR_SIZE).status == Ok {
      var s := file[offset..offset + REC_HDR_SIZE];
      FieldsOf(s);
      assert file[offset + 8..offset + 16] == s[8..16] by { SliceOfSlice(file, offset, REC_HDR_SIZE, 8, 16); }
    }
  }

  /** The scan ends at stop without a record: at the end of the file, or at a candidate that is cut short there. */
  ghost predicate StopsAt(file: seq<byte>, offset: nat, stop: nat) {
    && offset <= stop
    && (|file| < stop + 4 || (PassesMagic(file, stop) && Examine(file, stop) == CutShort))
    && forall o :: offset <= o < stop ==> ValidateRec(file, o).None?
  }

  /** What the scan finds is the first record that validates; when it finds none, none validates where it looked. */
  lemma {:induction false} SearchFindsFirst(file: seq<byte>, offset: nat)
    ensures var found := SearchFrom(file, offset);
            found.Some? ==> forall o :: offset <= o < found.value ==> ValidateRec(file, o).None?
    ensures SearchFrom(file, offset).None? ==> exists stop :: StopsAt(file, offset, stop)
    decreases |file| - offset
  {
    hide ValidateRec, Examine, PassesMagic;
    if |file| < offset + 4 || (PassesMagic(file, offset) && Examine(file, offset) == CutShort) {
      assert StopsAt(file, offset, offset);
    } else if !(PassesMagic(file, offset) && Examine(file, offset) == Good) {
      if PassesMagic(file, offset) {
        BadCandidateFails(file, offset);
      } else {
        BadOffsetFails(file, offset);
      }
      SearchFindsFirst(file, offset + 1);
      if SearchFrom(file, offset + 1).None? {
        var stop :| StopsAt(file, offset + 1, stop);
        assert StopsAt(file, offset, stop);
      }
    }
  }

  lemma {:induction false} MagicOf(file: seq<byte>, offset: nat)
    requires PassesMagic(file, offset)
    ensures offset + 4 <= |file| && FromBytes(file[offset..offset + 4]) / 0x1_0000 == LOGREC_MAGIC_HIWORD
  {
  }

  lemma {:induction false} SliceOfSlice(s: seq<byte>, at: nat, len: nat, i: nat, j: nat)
    requires i <= j <= len && at + len <= |s|
    ensures s[at..at + len][i..j] == s[at + i..at + j]
  {
    var t := s[at..at + len];
    forall k | 0 <= k < j - i
      ensures t[i..j][k] == s[at + i..at + j][k]
    {
      assert t[i + k] == s[at + (i + k)];
    }
  }

  lemma {:induction false} SearchHit(file: seq<byte>, offset: nat)
    requires SearchFrom(file, offset) == Some(offset)
    ensures PassesMagic(file, offset) && offset + 16 <= |file|
    ensures var n := FromBytes(file[offset + 8..offset + 16]);
            && offset + n + REC_HDR_SIZE + SIZESIZE <= |file|
            && FromBytes(file[offset + n + REC_HDR_SIZE..offset + n + REC_HDR_SIZE + SIZESIZE]) == n + REC_HDR_SIZE
  {
    hide FromBytes, PassesMagic;
    assert Examine(file, offset) == Good by {
      hide Examine;
      assert SearchFrom(file, offset + 1) != Some(offset);
    }
    hide SearchFrom;
  }

  /** Whether the first record behind the bad block is too long to be moved. */
  ghost predicate Stuck(file: seq<byte>) {
    var bad := ScanGood(file, LOG_HDR_SIZE);
    bad < |file| && SearchFrom(file, bad).Some? &&
    var good := SearchFrom(file, bad).value;
    good + REC_HDR_SIZE <= |file| && EntryOf(file[good..good + REC_HDR_SIZE]).size > POSIX_LOG_ENTRY_MAXLEN
  }

  lemma {:induction false} StuckPass(file: seq<byte>)
    requires Stuck(file)
    ensures Pass(file) == Again(file)
  {
    hide EntryOf, ScanGood, SearchFrom, EntryBytes;
    var bad := ScanGood(file, LOG_HDR_SIZE);
    FoundValidates(file, bad, SearchFrom(file, bad).value);
  }

  /**
   A pass that starts over has moved at least one valid record up against the valid ones before it,
   unless the first record behind the bad block was too long to be moved.
   */
  lemma {:induction false} AgainMakesProgress(file: seq<byte>)
    requires Pass(file).Again? && !Stuck(file)
    ensures |Pass(file).file| == |file|
    ensures ScanGood(file, LOG_HDR_SIZE) < ScanGood(Pass(file).file, LOG_HDR_SIZE)
    ensures ScanGood(file, LOG_HDR_SIZE) < |file|
  {
    hide EntryOf, ScanGood, SearchFrom, WriteAt, ValidateRec, MoveAll, MoveNext;
    var bad := ScanGood(file, LOG_HDR_SIZE);
    var good := SearchFrom(file, bad).value;
    FoundValidates(file, bad, good);
    var fi := OffsetInfo(good, bad, |file| - good);
    MoveSucceeds(file, fi);
    MoveCopies(file, fi);
    MoveAllStep(file, fi);
    var m := MoveNext(file, fi);
    var n := m.fi.offset - good;
    MoveAllKeepsFront(m.file, m.fi);
    var file' := Pass(file).file;
    FrontOf(file, m.file, file', bad, file[good..good + n]);
    MovedValidates(file, file', good, bad, n);
    ScanAgrees(file, file', LOG_HDR_SIZE, bad);
    ScanOne(file', bad, bad + n);
  }

  lemma {:induction false} FrontOf(file: seq<byte>, file1: seq<byte>, file': seq<byte>, bad: nat, image: seq<byte>)
    requires bad + |image| <= |file| == |file1| == |file'| && file1 == WriteAt(file, bad, image)
    requires file'[..bad + |image|] == file1[..bad + |image|]
    ensures file'[..bad] == file[..bad] && file'[bad..bad + |image|] == image
  {
    hide WriteAt;
    var n := |image|;
    assert file'[..bad] == file'[..bad + n][..bad] == file1[..bad + n][..bad] == file1[..bad];
    assert file'[bad..bad + n] == file'[..bad + n][bad..] == file1[..bad + n][bad..] == file1[bad..bad + n];
  }

  lemma {:induction false} MoveAllStep(file: seq<byte>, fi: OffsetInfo)
    requires fi.bytesToProcess > 0 && MoveNext(file, fi).Moved?
    ensures MoveAll(file, fi) == MoveAll(MoveNext(file, fi).file, MoveNext(file, fi).fi)
  {
    hide MoveNext;
  }

  lemma {:induction false} MoveSucceeds(file: seq<byte>, fi: OffsetInfo)
    requires fi.offset + REC_HDR_SIZE <= |file|
    requires var e := EntryOf(file[fi.offset..fi.offset + REC_HDR_SIZE]);
             && e.magic / 0x1_0000 == LOGREC_MAGIC_HIWORD && e.size <= POSIX_LOG_ENTRY_MAXLEN
             && fi.offset + REC_HDR_SIZE + e.size + SIZESIZE <= |file|
    ensures MoveNext(file, fi).Moved?
  {
    hide EntryOf, MoveUp;
  }

  lemma {:induction false} ScanOne(file: seq<byte>, offset: nat, next: nat)
    requires offset < |file| && ValidateRec(file, offset) == Some(next)
    ensures ScanGood(file, offset) == ScanGood(file, next) >= next
  {
    hide ValidateRec;
  }

  /** A valid record copied elsewhere is valid there. */
  lemma {:induction false} MovedValidates(file: seq<byte>, file': seq<byte>, good: nat, bad: nat, n: nat)
    requires ValidateRec(file, good) == Some(good + n) && bad + n <= |file'|
    requires file'[bad..bad + n] == file[good..good + n]
    ensures ValidateRec(file', bad) == Some(bad + n)
  {
    hide EntryOf, FromBytes;
    var image := file[good..good + n];
    assert file'[bad..bad + REC_HDR_SIZE] == image[..REC_HDR_SIZE] == file[good..good + REC_HDR_SIZE];
    assert file'[bad + n - SIZESIZE..bad + n] == image[n - SIZESIZE..] == file[good + n - SIZESIZE..good + n];
  }

  lemma {:induction false} ChangedMakesProgress(file: seq<byte>)
    requires Pass(file).Again? && Pass(file).file != file
    ensures |Pass(file).file| == |file|
    ensures ScanGood(file, LOG_HDR_SIZE) < ScanGood(Pass(file).file, LOG_HDR_SIZE)
    ensures ScanGood(file, LOG_HDR_SIZE) < |file|
  {
    hide Pass, Stuck, ScanGood;
    if Stuck(file) {
      StuckPass(file);
    } else {
      AgainMakesProgress(file);
    }
  }

  /** What repairLog returns, the status it sets, and the file it leaves. Spins: it starts over for ever. */
  datatype Repaired = Settled(ret: Status, status: nat, file: seq<byte>) | Spins(file: seq<byte>)

  ghost function RepairLog(file: seq<byte>): Repaired {
    if file == [] then Settled(Eio, 0, file) else RepairFrom(file, 0)
  }

  /** All passes. The status is cleared once, before the first of them. */
  ghost function RepairFrom(file: seq<byte>, status: nat): Repaired
    decreases |file| - ScanGood(file, LOG_HDR_SIZE)
  {
    match Pass(file)
    case Done(found, end) => Settled(Ok, if found == 1 then 1 else status, end)
    case IoError(end) => Settled(Eio, 1, end)
    case Again(end) =>
      if end == file then Spins(file)
      else
        ChangedMakesProgress(file);
        RepairFrom(end, 1)
  }

  /** A pass starts over on an unchanged file exactly when it is stuck on a record too long to be moved. */
  lemma {:induction false} StartsOverExactlyWhenStuck(file: seq<byte>)
    ensures Pass(file) == Again(file) <==> Stuck(file)
  {
    hide Pass, Stuck;
    if Stuck(file) {
      StuckPass(file);
    } else if Pass(file) == Again(file) {
      AgainMakesProgress(file);
    }
  }

  /** The file that k passes leave, each of which starts over. */
  function AfterPasses(file: seq<byte>, k: nat): Option<seq<byte>>
    decreases k
  {
    if k == 0 then Some(file)
    else if Pass(file).Again? then AfterPasses(Pass(file).file, k - 1)
    else None
  }

  ghost predicate GetsStuck(file: seq<byte>, k: nat) {
    AfterPasses(file, k).Some? && Stuck(AfterPasses(file, k).value)
  }

  /** The repair never returns exactly when the file that some number of passes leave is stuck. */
  lemma {:induction false} SpinsExactlyWhenSomePassIsStuck(file: seq<byte>)
    ensures RepairLog(file).Spins? <==> exists k :: GetsStuck(file, k)
  {
    hide Pass, Stuck, ScanGood, RepairFrom;
    if file == [] {
      NothingToRepair();
      assert forall k :: AfterPasses(file, k).Some? ==> k == 0;
    } else {
      if RepairLog(file).Spins? {
        var k := SpinsAfter(file, 0);
      }
      forall k | GetsStuck(file, k)
        ensures RepairLog(file).Spins?
      {
        StuckSpins(file, 0, k);
      }
    }
  }

  lemma {:induction false} NothingToRepair()
    ensures !Pass([]).Again? && !Stuck([])
  {
  }

  lemma {:induction false} SpinsAfter(file: seq<byte>, status: nat) returns (k: nat)
    requires RepairFrom(file, status).Spins?
    ensures GetsStuck(file, k)
    decreases |file| - ScanGood(file, LOG_HDR_SIZE)
  {
    hide Pass, Stuck, ScanGood;
    if Pass(file) == Again(file) {
      StartsOverExactlyWhenStuck(file);
      k := 0;
    } else {
      ChangedMakesProgress(file);
      k := SpinsAfter(Pass(file).file, 1);
      k := k + 1;
    }
  }

  lemma {:induction false} StuckSpins(file: seq<byte>, status: nat, k: nat)
    requires GetsStuck(file, k)
    ensures RepairFrom(file, status).Spins?
    decreases k
  {
    hide Pass, Stuck, ScanGood;
    StartsOverExactlyWhenStuck(file);
    if k > 0 && Pass(file).file != file {
      StuckSpins(Pass(file).file, 1, k - 1);
    }
  }

  // ----- one bad block among well-framed records

  /** A file header, well-framed records, a block in which no offset passes the magic test, and whatever follows. */
  ghost predicate OneBadBlock(h: Header, good: seq<Rec>, block: seq<byte>, after: seq<byte>) {
    && h.Valid() && FramedRecs(good) && block != []
    && var front := HeaderBytes(h) + Frames(good);
       BadBlock(front + block + after, |front|, |front| + |block|)
  }

  function Damaged(h: Header, good: seq<Rec>, block: seq<byte>, after: seq<byte>): seq<byte> {
    HeaderBytes(h) + Frames(good) + block + after
  }

  /** The pass finds the block, and behind it the first record, if there is one. */
  lemma {:induction false} PassAtBlock(h: Header, good: seq<Rec>, block: seq<byte>, rest: seq<Rec>)
    requires OneBadBlock(h, good, block, Frames(rest)) && FramedRecs(rest)
    ensures var file := Damaged(h, good, block, Frames(rest));
            var at := |HeaderBytes(h) + Frames(good)|;
            && ScanGood(file, LOG_HDR_SIZE) == at < |file| && LOG_HDR_SIZE <= at
            && file[..at] == HeaderBytes(h) + Frames(good)
            && SearchFrom(file, at) == (if rest == [] then None else Some(at + |block|))
  {
    hide HeaderBytes, Frames, Frame, ScanGood, SearchFrom, ValidateRec, PassesMagic;
    var front := HeaderBytes(h) + Frames(good);
    var file := front + block + Frames(rest);
    HeaderRoundTrip(h);
    assert file == HeaderBytes(h) + Frames(good) + (block + Frames(rest));
    ScanOverFrames(HeaderBytes(h), good, block + Frames(rest));
    assert !PassesMagic(file, |front|);
    BadOffsetFails(file, |front|);
    ScanEnds(file, |front|);
    if rest == [] {
      NoFrames();
    } else {
      FoundBehindBlock(front + block, rest);
    }
    SearchCrosses(file, |front|, |front| + |block|);
  }

  lemma {:induction false} PassMoves(h: Header, good: seq<Rec>, block: seq<byte>, rest: seq<Rec>)
    requires OneBadBlock(h, good, block, Frames(rest)) && FramedRecs(rest) && rest != []
    ensures var front := HeaderBytes(h) + Frames(good);
            && LOG_HDR_SIZE <= |front|
            && Pass(Damaged(h, good, block, Frames(rest)))
            == MoveAll(front + block + Frames(rest), OffsetInfo(|front + block|, |front|, |Frames(rest)|))
  {
    hide HeaderBytes, Frames, OneBadBlock, FramedRecs, ScanGood, SearchFrom, MoveAll;
    PassAtBlock(h, good, block, rest);
  }

  lemma {:induction false} NothingLeft(file: seq<byte>, fi: OffsetInfo, front: seq<byte>, stale: seq<byte>)
    requires fi.bytesToProcess == 0 && file == front + stale && 0 < |front| == fi.beginhole
    ensures MoveAll(file, fi) == Done(1, front)
  {
  }

  lemma {:induction false} FoundBehindBlock(pre: seq<byte>, rest: seq<Rec>)
    requires FramedRecs(rest) && rest != []
    ensures |pre| + REC_HDR_SIZE <= |pre + Frames(rest)|
    ensures SearchFrom(pre + Frames(rest), |pre|) == Some(|pre|)
  {
    hide Frame, SearchFrom, PassesMagic;
    FrameLength(rest[0]);
    assert pre + Frames(rest) == pre + Frame(rest[0]) + Frames(rest[1..]);
    FrameValidates(pre, rest[0], Frames(rest[1..]));
  }

  /** What is left between moved frames and the unread bytes: the end of the gap and the frames, as long as the gap. */
  function Stale(gap: seq<byte>, frames: seq<byte>): (stale: seq<byte>)
    ensures |stale| == |gap|
  {
    (gap + frames)[|frames|..]
  }

  lemma {:induction false} MoveOneOver(pre: seq<byte>, gap: seq<byte>, r: Rec, tail: seq<byte>, bytes: int)
    requires r.Valid()
    ensures MoveNext(pre + gap + Frame(r) + tail, OffsetInfo(|pre + gap|, |pre|, bytes))
         == Moved(pre + Frame(r) + Stale(gap, Frame(r)) + tail,
                  OffsetInfo(|pre + gap + Frame(r)|, |pre + Frame(r)|, bytes - |Frame(r)|))
  {
    hide Frame, EntryOf, EntryBytes, MoveNext, WriteAt;
    var file, fi := pre + gap + Frame(r) + tail, OffsetInfo(|pre + gap|, |pre|, bytes);
    FrameAt(pre + gap, r, tail);
    FrameLength(r);
    EntryRoundTrip(r.entry);
    MoveSucceeds(file, fi);
    MoveCopies(file, fi);
    SlideOver(pre, gap, Frame(r), tail);
  }

  lemma {:induction false} SlideOver(pre: seq<byte>, gap: seq<byte>, frame: seq<byte>, tail: seq<byte>)
    ensures WriteAt(pre + gap + frame + tail, |pre|, frame) == pre + frame + Stale(gap, frame) + tail
  {
    var file, n := pre + gap + frame + tail, |frame|;
    assert file[..|pre|] == pre;
    assert file[|pre| + n..] == Stale(gap, frame) + tail;
    assert pre + frame + (Stale(gap, frame) + tail) == pre + frame + Stale(gap, frame) + tail;
  }

  /** Valid records behind a gap are moved up over it one after the other, and the gap ends up behind them. */
  lemma {:induction false} MoveRun(pre: seq<byte>, gap: seq<byte>, moved: seq<Rec>, tail: seq<byte>)
    requires ValidRecs(moved)
    ensures var fs := Frames(moved);
            MoveAll(pre + gap + fs + tail, OffsetInfo(|pre + gap|, |pre|, |fs| + |tail|))
            == MoveAll(pre + fs + Stale(gap, fs) + tail, OffsetInfo(|pre + gap + fs|, |pre + fs|, |tail|))
    decreases |moved|
  {
    hide Frame, Frames, MoveNext, MoveAll, Stale;
    if moved == [] {
      NoFrames();
      StaleOfNone(gap);
      assert pre + [] == pre && pre + gap + [] == pre + gap;
    } else {
      var r, more := moved[0], Frames(moved[1..]);
      FramesCons(moved);
      FrameLength(r);
      Regroup(pre + gap, Frame(r), more, tail);
      MoveOneOver(pre, gap, r, more + tail, |Frames(moved)| + |tail|);
      MoveAllStep(pre + gap + Frames(moved) + tail, OffsetInfo(|pre + gap|, |pre|, |Frames(moved)| + |tail|));
      var gap' := Stale(gap, Frame(r));
      Regroup(pre + Frame(r), gap', more, tail);
      Regroup(pre + Frame(r) + gap', more, tail, []);
      MoveRun(pre + Frame(r), gap', moved[1..], tail);
      StaleTwice(gap, Frame(r), more);
      Associative(pre, Frame(r), more);
    }
  }

  lemma {:induction false} StaleOfNone(gap: seq<byte>)
    ensures Stale(gap, []) == gap
  {
  }

  lemma {:induction false} StaleTwice(gap: seq<byte>, a: seq<byte>, b: seq<byte>)
    ensures Stale(Stale(gap, a), b) == Stale(gap, a + b)
  {
    assert (gap + a)[|a|..] + b == (gap + (a + b))[|a|..];
  }

  /**
   Good records, one bad block, good records: exactly the block goes; when no good record follows, the file is cut
   at the block.
   */
  lemma {:induction false} SingleBadBlockIsCutOut(h: Header, good: seq<Rec>, block: seq<byte>, rest: seq<Rec>)
    requires OneBadBlock(h, good, block, Frames(rest)) && ValidRecs(rest)
    ensures Pass(Damaged(h, good, block, Frames(rest))) == Done(1, HeaderBytes(h) + Frames(good + rest))
    ensures RepairLog(Damaged(h, good, block, Frames(rest))) == Settled(Ok, 1, HeaderBytes(h) + Frames(good + rest))
  {
    hide HeaderBytes, Frames, OneBadBlock, ScanGood, SearchFrom, MoveAll, Stale;
    var front, fs := HeaderBytes(h) + Frames(good), Frames(rest);
    FramesAppend(good, rest);
    Associative(HeaderBytes(h), Frames(good), fs);
    if rest == [] {
      hide FramedRecs;
      NoFrames();
      PassAtBlock(h, good, block, rest);
      assert front + [] == front;
    } else {
      PassMoves(h, good, block, rest);
      hide Pass, ValidRecs;
      var gap := Stale(block, fs);
      assert front + block + fs + [] == front + block + fs && front + fs + gap + [] == front + fs + gap;
      MoveRun(front, block, rest, []);
      NothingLeft(front + fs + gap, OffsetInfo(|front + block + fs|, |front + fs|, 0), front + fs, gap);
    }
  }

  lemma {:induction false} ValidAreFramed(moved: seq<Rec>, big: Rec, post: seq<Rec>)
    requires ValidRecs(moved) && big.Framed() && FramedRecs(post)
    ensures FramedRecs(moved) && FramedRecs(moved + [big] + post)
  {
  }

  /** The pass moves the records before the first overlong one and then starts over, the gap now behind them. */
  lemma {:induction false} PassStopsAtOverlong(h: Header, good: seq<Rec>, block: seq<byte>, moved: seq<Rec>, big: Rec,
      post: seq<Rec>)
    requires OneBadBlock(h, good, block, Frames(moved + [big] + post)) && ValidRecs(moved)
    requires big.Framed() && |big.data| > POSIX_LOG_ENTRY_MAXLEN && FramedRecs(post)
    ensures Pass(Damaged(h, good, block, Frames(moved + [big] + post)))
         == Again(Damaged(h, good + moved, Stale(block, Frames(moved)), Frames([big] + post)))
  {
    hide HeaderBytes, Frames, OneBadBlock, MoveAll, Stale, Pass, MoveNext;
    var front, fs, tail := HeaderBytes(h) + Frames(good), Frames(moved), Frames([big] + post);
    ValidAreFramed(moved, big, post);
    PassMoves(h, good, block, moved + [big] + post);
    FramesOfThree(moved, big, post);
    FramesAppend(good, moved);
    Associative(HeaderBytes(h), Frames(good), fs);
    Associative(front + block, fs, tail);
    MoveRun(front, block, moved, tail);
    var gap := Stale(block, fs);
    Associative(front + fs + gap, Frame(big), Frames(post));
    hide ValidRecs, FramedRecs;
    var fi := OffsetInfo(|front + block + fs|, |front + fs|, |tail|);
    FrameLength(big);
    BigBreaks(front + fs + gap, big, Frames(post), fi);
    BreaksOff(front + fs + gap + tail, fi);
  }

  lemma {:induction false} FramesOfThree(moved: seq<Rec>, big: Rec, post: seq<Rec>)
    ensures Frames(moved + [big] + post) == Frames(moved) + Frames([big] + post)
    ensures Frames([big] + post) == Frame(big) + Frames(post)
  {
    hide Frame, Frames;
    Associative(moved, [big], post);
    FramesAppend(moved, [big] + post);
    FramesAppend([big], post);
    FramesOne(big);
  }

  lemma {:induction false} BigBreaks(pre: seq<byte>, big: Rec, post: seq<byte>, fi: OffsetInfo)
    requires big.Framed() && |big.data| > POSIX_LOG_ENTRY_MAXLEN && fi.offset == |pre|
    ensures MoveNext(pre + Frame(big) + post, fi) == Broken(Again(pre + Frame(big) + post))
  {
    hide Frame, EntryOf, EntryBytes;
    FrameAt(pre, big, post);
    EntryRoundTrip(big.entry);
  }

  lemma {:induction false} BreaksOff(file: seq<byte>, fi: OffsetInfo)
    requires fi.bytesToProcess > 0 && MoveNext(file, fi).Broken?
    ensures MoveAll(file, fi) == MoveNext(file, fi).outcome
  {
    hide MoveNext;
  }

  /**
   Good records, one bad block, well-framed records: the first pass cuts out exactly the block if and only if no record
   behind it is longer than POSIX_LOG_ENTRY_MAXLEN.
   */
  lemma {:induction false} FirstPassCutsOutExactlyWhen(h: Header, good: seq<Rec>, block: seq<byte>, rest: seq<Rec>)
    requires OneBadBlock(h, good, block, Frames(rest)) && FramedRecs(rest)
    ensures Pass(Damaged(h, good, block, Frames(rest))) == Done(1, HeaderBytes(h) + Frames(good + rest))
       <==> forall r <- rest :: |r.data| <= POSIX_LOG_ENTRY_MAXLEN
  {
    hide OneBadBlock, Pass, Damaged, Frames, HeaderBytes;
    if forall r <- rest :: |r.data| <= POSIX_LOG_ENTRY_MAXLEN {
      SingleBadBlockIsCutOut(h, good, block, rest);
    } else {
      var k := FirstOverlong(rest);
      assert rest == rest[..k] + [rest[k]] + rest[k + 1..];
      PassStopsAtOverlong(h, good, block, rest[..k], rest[k], rest[k + 1..]);
    }
  }

  lemma {:induction false} FirstOverlong(rest: seq<Rec>) returns (k: nat)
    requires FramedRecs(rest) && exists r <- rest :: |r.data| > POSIX_LOG_ENTRY_MAXLEN
    ensures k < |rest| && |rest[k].data| > POSIX_LOG_ENTRY_MAXLEN && ValidRecs(rest[..k])
  {
    if |rest[0].data| > POSIX_LOG_ENTRY_MAXLEN {
      k := 0;
    } else {
      k := FirstOverlong(rest[1..]);
      k := k + 1;
      assert forall i :: 0 < i < k ==> rest[..k][i] == rest[1..][..k - 1][i - 1];
    }
  }

  /** A well-framed but overlong record directly behind a bad block makes the repair spin. */
  lemma {:induction false} OverlongRecordSpins(h: Header, good: seq<Rec>, block: seq<byte>, big: Rec, post: seq<Rec>,
      status: nat)
    requires OneBadBlock(h, good, block, Frames([big] + post))
    requires big.Framed() && |big.data| > POSIX_LOG_ENTRY_MAXLEN && FramedRecs(post)
    ensures var file := Damaged(h, good, block, Frames([big] + post));
            Stuck(file) && RepairFrom(file, status) == Spins(file) && RepairLog(file) == Spins(file)
  {
    hide Pass, Stuck, ScanGood, Frames, HeaderBytes, BadBlock;
    HeaderRoundTrip(h);
    NoFrames();
    assert [] + [big] + post == [big] + post && good + [] == good;
    PassStopsAtOverlong(h, good, block, [], big, post);
    StaleOfNone(block);
    StartsOverExactlyWhenStuck(Damaged(h, good, block, Frames([big] + post)));
  }

  lemma {:induction false} NotStuckOnValid(h: Header, good: seq<Rec>, block: seq<byte>, rest: seq<Rec>)
    requires OneBadBlock(h, good, block, Frames(rest)) && FramedRecs(rest) && rest != [] && rest[0].Valid()
    ensures !Stuck(Damaged(h, good, block, Frames(rest))) && Damaged(h, good, block, Frames(rest)) != []
  {
    hide Frame, Frames, ScanGood, SearchFrom, EntryOf, EntryBytes, HeaderBytes, OneBadBlock;
    PassAtBlock(h, good, block, rest);
    hide FramedRecs;
    var r, front := rest[0], HeaderBytes(h) + Frames(good);
    FramesCons(rest);
    Associative(front + block, Frame(r), Frames(rest[1..]));
    FrameAt(front + block, r, Frames(rest[1..]));
    EntryRoundTrip(r.entry);
  }

  /**
   A file that is not stuck and yet never repaired: valid records behind the block are moved up, and the next pass
   meets the overlong record behind what they left, when no offset of that passes the magic test.
   */
  lemma {:induction false} LaterPassSpins(h: Header, good: seq<Rec>, block: seq<byte>, moved: seq<Rec>, big: Rec,
      post: seq<Rec>)
    requires OneBadBlock(h, good, block, Frames(moved + [big] + post)) && ValidRecs(moved) && moved != []
    requires big.Framed() && |big.data| > POSIX_LOG_ENTRY_MAXLEN && FramedRecs(post)
    requires OneBadBlock(h, good + moved, Stale(block, Frames(moved)), Frames([big] + post))
    ensures var file := Damaged(h, good, block, Frames(moved + [big] + post));
            && !Stuck(file)
            && RepairLog(file) == Spins(Damaged(h, good + moved, Stale(block, Frames(moved)), Frames([big] + post)))
  {
    hide Pass, Stuck, ScanGood, Frames, HeaderBytes, OneBadBlock;
    var file := Damaged(h, good, block, Frames(moved + [big] + post));
    var file' := Damaged(h, good + moved, Stale(block, Frames(moved)), Frames([big] + post));
    ValidAreFramed(moved, big, post);
    NotStuckOnValid(h, good, block, moved + [big] + post);
    PassStopsAtOverlong(h, good, block, moved, big, post);
    StartsOverExactlyWhenStuck(file);
    OverlongRecordSpins(h, good + moved, Stale(block, Frames(moved)), big, post, 1);
  }

  /** A single stray byte in front of a well-framed record is a bad block, whatever its value. */
  lemma {:induction false} StrayByteIsBadBlock(h: Header, good: seq<Rec>, b: byte, rest: seq<Rec>)
    requires h.Valid() && FramedRecs(good) && FramedRecs(rest) && rest != []
    ensures OneBadBlock(h, good, [b], Frames(rest))
  {
    hide HeaderBytes, Frames, Frame, PassesMagic, EntryBytes;
    var front, r := HeaderBytes(h) + Frames(good), rest[0];
    FramesCons(rest);
    FrameLength(r);
    NoMagicAcross(front, b, r, Frames(rest[1..]));
    Associative(front + [b], Frame(r), Frames(rest[1..]));
  }

  lemma {:induction false} NoMagicAcross(front: seq<byte>, b: byte, r: Rec, post: seq<byte>)
    requires r.Framed()
    ensures !PassesMagic(front + [b] + Frame(r) + post, |front|)
  {
    hide FromBytes, ToBytes, Frame;
    var file, at, magic := front + [b] + Frame(r) + post, |front|, ToBytes(4, r.entry.magic);
    WordSizes();
    FrameStarts(r);
    assert file[at..at + 4] == [b, magic[0], magic[1], magic[2]];
    FromToBytes(4, r.entry.magic);
    HighHalf(magic);
    HighHalf([b, magic[0], magic[1], magic[2]]);
  }

  lemma {:induction false} FrameStarts(r: Rec)
    requires r.Framed()
    ensures |Frame(r)| >= 4 && |ToBytes(4, r.entry.magic)| == 4 && Frame(r)[..4] == ToBytes(4, r.entry.magic)
  {
    FrameLength(r);
    hide ToBytes;
  }

  lemma {:induction false} HighHalf(w: seq<byte>)
    requires |w| == 4
    ensures FromBytes(w) / 0x1_0000 == w[2] as nat + 256 * w[3] as nat
  {
    assert w[1..][1..] == w[2..] && w[2..][1..] == w[3..] && w[3..][1..] == [];
    assert FromBytes(w[3..]) == w[3];
    assert FromBytes(w[2..]) == w[2] as nat + 256 * w[3] as nat;
    assert FromBytes(w) == w[0] as nat + 256 * (w[1] as nat + 256 * FromBytes(w[2..]));
  }

  /**
   So one stray byte, valid records and an overlong one are enough: the repair, not stuck at first, never returns.
   */
  lemma {:induction false} StrayByteSpins(h: Header, good: seq<Rec>, b: byte, moved: seq<Rec>, big: Rec, post: seq<Rec>)
    requires h.Valid() && FramedRecs(good) && ValidRecs(moved) && moved != []
    requires big.Framed() && |big.data| > POSIX_LOG_ENTRY_MAXLEN && FramedRecs(post)
    ensures var file := Damaged(h, good, [b], Frames(moved + [big] + post));
            !Stuck(file) && RepairLog(file).Spins?
  {
    hide Frames, HeaderBytes, Stuck, RepairLog, OneBadBlock, Stale;
    ValidAreFramed(moved, big, post);
    StrayByteIsBadBlock(h, good, b, moved + [big] + post);
    var stale := Stale([b], Frames(moved));
    assert stale == [stale[0]];
    StrayByteIsBadBlock(h, good + moved, stale[0], [big] + post);
    LaterPassSpins(h, good, [b], moved, big, post);
  }

  /** The repair of this log returns, and exactly the block is gone. */
  ghost predicate CutsOut(h: Header, good: seq<Rec>, block: seq<byte>, rest: seq<Rec>) {
    RepairLog(Damaged(h, good, block, Frames(rest))) == Settled(Ok, 1, HeaderBytes(h) + Frames(good + rest))
  }

  /**
   Repair is sure to cut out a bad block among well-framed records, whatever the block, if and only if no record behind
   it is longer than POSIX_LOG_ENTRY_MAXLEN. Otherwise one stray byte makes it spin.
   */
  lemma {:induction false} BlockIsCutOutExactlyWhen(h: Header, good: seq<Rec>, rest: seq<Rec>)
    requires h.Valid() && FramedRecs(good) && FramedRecs(rest)
    ensures (forall block | OneBadBlock(h, good, block, Frames(rest)) :: CutsOut(h, good, block, rest))
       <==> forall r <- rest :: |r.data| <= POSIX_LOG_ENTRY_MAXLEN
  {
    hide OneBadBlock, RepairLog, Stuck, Damaged, Frames, HeaderBytes;
    if forall r <- rest :: |r.data| <= POSIX_LOG_ENTRY_MAXLEN {
      forall block | OneBadBlock(h, good, block, Frames(rest))
        ensures CutsOut(h, good, block, rest)
      {
        SingleBadBlockIsCutOut(h, good, block, rest);
      }
    } else {
      var k := FirstOverlong(rest);
      assert rest == rest[..k] + [rest[k]] + rest[k + 1..];
      StrayByteIsBadBlock(h, good, 0, rest);
      if k == 0 {
        assert rest == [rest[0]] + rest[1..];
        OverlongRecordSpins(h, good, [0], rest[0], rest[1..], 0);
      } else {
        StrayByteSpins(h, good, 0, rest[..k], rest[k], rest[k + 1..]);
      }
      assert !CutsOut(h, good, [0], rest);
    }
  }

  /**
   When the block is as long as the frames moved over it, they end up in the file twice: the next pass finds nothing
   left to repair, and the status reports a problem fixed.
   */
  lemma {:induction false} RepairDuplicates(h: Header, good: seq<Rec>, block: seq<byte>, moved: seq<Rec>, big: Rec,
      post: seq<Rec>)
    requires OneBadBlock(h, good, block, Frames(moved + [big] + post)) && ValidRecs(moved)
    requires big.Framed() && |big.data| > POSIX_LOG_ENTRY_MAXLEN && FramedRecs(post)
    requires |block| == |Frames(moved)|
    ensures RepairLog(Damaged(h, good, block, Frames(moved + [big] + post)))
         == Settled(Ok, 1, HeaderBytes(h) + Frames(good + moved + moved + [big] + post))
  {
    hide Pass, Frames, HeaderBytes, FramedRecs, ValidRecs, OneBadBlock, Stale;
    var fs, tail, twice := Frames(moved), Frames([big] + post), good + moved + moved + [big] + post;
    PassStopsAtOverlong(h, good, block, moved, big, post);
    ValidAreFramed(moved, big, post);
    StaleIsAll(block, fs);
    TwiceFramed(h, good, block, moved, big, post);
    FramedLogUnchanged(h, twice);
    TwiceMoved(good, moved, [big] + post);
    assert twice == good + moved + moved + ([big] + post);
    Associative(HeaderBytes(h), Frames(good + moved) + fs, tail);
    Associative(HeaderBytes(h), Frames(good + moved), fs);
    var file, file' := Damaged(h, good, block, Frames(moved + [big] + post)), HeaderBytes(h) + Frames(twice);
    assert Damaged(h, good + moved, fs, tail) == file';
    assert Pass(file) == Again(file') && Pass(file') == Done(0, file');
    assert RepairFrom(file', 1) == Settled(Ok, 1, file');
  }

  lemma {:induction false} StaleIsAll(gap: seq<byte>, frames: seq<byte>)
    requires |gap| == |frames|
    ensures Stale(gap, frames) == frames
  {
  }

  lemma {:induction false} TwiceFramed(h: Header, good: seq<Rec>, block: seq<byte>, moved: seq<Rec>, big: Rec,
      post: seq<Rec>)
    requires OneBadBlock(h, good, block, Frames(moved + [big] + post))
    requires FramedRecs(moved) && big.Framed() && FramedRecs(post)
    ensures h.Valid() && FramedRecs(good + moved + moved + [big] + post)
    ensures Damaged(h, good, block, Frames(moved + [big] + post)) != []
  {
    hide BadBlock, HeaderBytes, Frames;
  }

  lemma {:induction false} TwiceMoved(good: seq<Rec>, moved: seq<Rec>, rest: seq<Rec>)
    ensures Frames(good + moved + moved + rest) == Frames(good + moved) + Frames(moved) + Frames(rest)
  {
    hide Frames;
    FramesAppend(good + moved + moved, rest);
    FramesAppend(good + moved, moved);
  }
}
