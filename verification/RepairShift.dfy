/**
 An overlong record behind the bad block does not always keep the repair from cutting it out: when the end of the
 moved records and the overlong record repeat one pattern, the next pass reads the record where the moved ones stop.
 */
module RepairShift {
  import opened Options
  import opened Bytes
  import opened Framing
  import opened LogAccess
  import opened Repair

  /** So little is left behind offset that the scan, if it meets a candidate at all, finds it cut short. */
  lemma {:induction false} NothingInTail(file: seq<byte>, offset: nat)
    requires |file| < offset + REC_HDR_SIZE
    ensures ValidateRec(file, offset).None? && SearchFrom(file, offset) == None
    decreases |file| - offset
  {
    hide PassesMagic, FromBytes, EntryOf;
    if offset + 4 <= |file| {
      NothingInTail(file, offset + 1);
    }
  }

  /** The stale end of the gap and the overlong record read as the record and a tail: the tail is cut off. */
  lemma {:induction false} ShiftedRecordIsFound(h: Header, good: seq<Rec>, block: seq<byte>, moved: seq<Rec>, big: Rec,
      tail: seq<byte>)
    requires OneBadBlock(h, good, block, Frames(moved + [big])) && ValidRecs(moved)
    requires big.Framed() && |big.data| > POSIX_LOG_ENTRY_MAXLEN
    requires Stale(block, Frames(moved)) + Frame(big) == Frame(big) + tail && |tail| < REC_HDR_SIZE
    ensures CutsOut(h, good, block, moved + [big])
  {
    hide OneBadBlock, BadBlock, Pass, Frames, Frame, HeaderBytes, Stale, ScanGood;
    var all, file := good + moved + [big], Damaged(h, good, block, Frames(moved + [big]));
    var front := HeaderBytes(h) + Frames(all);
    assert moved + [big] == moved + [big] + [] && good + (moved + [big]) == all;
    PassStopsAtOverlong(h, good, block, moved, big, []);
    assert [big] + [] == [big];
    FramesOne(big);
    FramesAppend(good + moved, [big]);
    HasHeader(h, good, block, moved, big);
    Regroup(HeaderBytes(h) + Frames(good + moved), Stale(block, Frames(moved)), Frame(big), []);
    Regroup(HeaderBytes(h) + Frames(good + moved), Frame(big), tail, []);
    Associative(HeaderBytes(h), Frames(good + moved), Frame(big));
    assert Pass(file) == Again(front + tail);
    ScanOverFrames(HeaderBytes(h), all, tail);
    NothingInTail(front + tail, |front|);
    ScanEnds(front + tail, |front|);
    assert |tail| == |block|;
    PassCutsTail(front, tail);
    assert Pass(file) != Pass(front + tail);
    assert RepairFrom(front + tail, 1) == Settled(Ok, 1, front);
  }

  lemma {:induction false} HasHeader(h: Header, good: seq<Rec>, block: seq<byte>, moved: seq<Rec>, big: Rec)
    requires OneBadBlock(h, good, block, Frames(moved + [big])) && ValidRecs(moved) && big.Framed()
    ensures h.Valid() && |HeaderBytes(h)| == LOG_HDR_SIZE && block != [] && FramedRecs(good + moved + [big])
    ensures Damaged(h, good, block, Frames(moved + [big])) != []
  {
    hide BadBlock, HeaderBytes, Frames;
    HeaderRoundTrip(h);
  }

  lemma {:induction false} PassCutsTail(front: seq<byte>, tail: seq<byte>)
    requires tail != [] && ScanGood(front + tail, LOG_HDR_SIZE) == |front| && SearchFrom(front + tail, |front|) == None
    ensures Pass(front + tail) == Done(1, front)
  {
    hide ScanGood, SearchFrom;
    assert (front + tail)[..|front|] == front;
  }

  // ----- a file that does it

  /** The repeated pattern: the start of a record header, the size word of the long record, that of the short one. */
  const SMALL_DATA: nat := 20
  const BIG_DATA: nat := 8208
  const MAGIC: nat := 0xfeef_0001
  const PERIOD: nat := 24

  function Pattern(id: nat): (p: seq<byte>)
    ensures |p| == PERIOD
  {
    ToBytes(4, MAGIC) + ToBytes(4, id) + ToBytes(8, BIG_DATA) + ToBytes(SIZESIZE, REC_HDR_SIZE + BIG_DATA)
    + ToBytes(SIZESIZE, REC_HDR_SIZE + SMALL_DATA)
  }

  function Repeated(p: seq<byte>, n: nat): (s: seq<byte>)
    requires |p| == PERIOD
    ensures |s| == n && forall k :: 0 <= k < n ==> s[k] == p[k % PERIOD]
  {
    seq(n, k requires 0 <= k < n => p[k % PERIOD])
  }

  /** A short record whose frame ends in the pattern, and a long one whose frame repeats it. */
  function Small(id: nat, other: nat): Rec {
    Rec(Entry(MAGIC, other, SMALL_DATA, Zeros(REC_HDR_SIZE - 16)), Pattern(id)[..SMALL_DATA])
  }

  function Big(id: nat): Rec {
    var s := Repeated(Pattern(id), REC_HDR_SIZE + BIG_DATA + SIZESIZE);
    Rec(Entry(MAGIC, id, BIG_DATA, s[16..REC_HDR_SIZE]), s[REC_HDR_SIZE..REC_HDR_SIZE + BIG_DATA])
  }

  lemma {:induction false} SliceOfRepeated(p: seq<byte>, n: nat, at: nat, i: nat, len: nat)
    requires |p| == PERIOD && at % PERIOD == i && i + len <= PERIOD && at + len <= n
    ensures Repeated(p, n)[at..at + len] == p[i..i + len]
  {
    var part, image := Repeated(p, n)[at..at + len], p[i..i + len];
    forall k | 0 <= k < len
      ensures part[k] == image[k]
    {
      assert (at + k) % PERIOD == i + k;
    }
  }

  lemma {:induction false} PatternParts(id: nat)
    ensures var p := Pattern(id);
            && p[0..4] == ToBytes(4, MAGIC) && p[4..8] == ToBytes(4, id) && p[8..16] == ToBytes(8, BIG_DATA)
            && p[16..20] == ToBytes(SIZESIZE, REC_HDR_SIZE + BIG_DATA)
            && p == p[..SMALL_DATA] + ToBytes(SIZESIZE, REC_HDR_SIZE + SMALL_DATA)
  {
    hide ToBytes;
  }

  lemma {:induction false} BigRepeats(id: nat)
    ensures Frame(Big(id)) == Repeated(Pattern(id), REC_HDR_SIZE + BIG_DATA + SIZESIZE)
  {
    hide ToBytes, Pattern, Repeated;
    var p, n := Pattern(id), REC_HDR_SIZE + BIG_DATA + SIZESIZE;
    var s := Repeated(p, n);
    PatternParts(id);
    SliceOfRepeated(p, n, 0, 0, 4);
    SliceOfRepeated(p, n, 4, 4, 4);
    SliceOfRepeated(p, n, 8, 8, 8);
    SliceOfRepeated(p, n, REC_HDR_SIZE + BIG_DATA, 16, 4);
    assert s == s[0..4] + s[4..8] + s[8..16] + s[16..REC_HDR_SIZE] + s[REC_HDR_SIZE..REC_HDR_SIZE + BIG_DATA]
                + s[REC_HDR_SIZE + BIG_DATA..n];
  }

  /** The pattern in front of its repetition is a repetition again. */
  lemma {:induction false} PatternInFront(p: seq<byte>, n: nat)
    requires |p| == PERIOD && PERIOD <= n
    ensures p + Repeated(p, n) == Repeated(p, n) + Repeated(p, n + PERIOD)[n..]
  {
    var s, t := Repeated(p, n), Repeated(p, n + PERIOD);
    forall k | 0 <= k < n + PERIOD
      ensures (p + s)[k] == t[k]
    {
      assert k < PERIOD ==> k % PERIOD == k;
      assert k >= PERIOD ==> (k - PERIOD) % PERIOD == k % PERIOD;
    }
    assert p + s == t && t[..n] == s;
  }

  lemma {:induction false} RecordsAreFramed(id: nat, other: nat)
    requires id < 0x1_0000_0000 && other < 0x1_0000_0000
    ensures Small(id, other).Valid() && Big(id).Framed() && |Big(id).data| == BIG_DATA > POSIX_LOG_ENTRY_MAXLEN
  {
    hide Pattern;
  }

  /** The short record's frame ends in the pattern. */
  lemma {:induction false} SmallEndsInPattern(id: nat, other: nat, block: seq<byte>)
    requires |block| == PERIOD && id < 0x1_0000_0000 && other < 0x1_0000_0000
    ensures Stale(block, Frame(Small(id, other))) == Pattern(id)
  {
    hide ToBytes, Pattern, EntryBytes;
    var r := Small(id, other);
    RecordsAreFramed(id, other);
    FrameLength(r);
    EntryRoundTrip(r.entry);
    PatternParts(id);
    assert Frame(r) == EntryBytes(r.entry) + Pattern(id);
    assert (block + Frame(r))[|Frame(r)|..] == Pattern(id);
  }

  lemma {:induction false} MagicBytes()
    ensures ToBytes(4, MAGIC) == [1, 0, 0xef, 0xfe]
  {
    assert ToBytes(1, 0xfe) == [0xfe];
    assert ToBytes(2, 0xfeef) == [0xef, 0xfe];
    assert ToBytes(3, 0xfe_ef00) == [0, 0xef, 0xfe];
  }

  lemma {:induction false} NoMagicAt(file: seq<byte>, offset: nat)
    requires offset + 4 <= |file| ==> file[offset + 3] != 0xfe
    ensures !PassesMagic(file, offset)
  {
    hide FromBytes;
    if offset + 4 <= |file| {
      HighHalf(file[offset..offset + 4]);
    }
  }

  lemma {:induction false} ZerosAreBadBlock(h: Header, good: seq<Rec>, id: nat, other: nat)
    requires h.Valid() && FramedRecs(good) && id < 0x1_0000_0000 && other < 0x1_0000_0000
    ensures OneBadBlock(h, good, Zeros(PERIOD), Frames([Small(id, other)] + [Big(id)]))
  {
    hide Frame, Frames, HeaderBytes, Big, Small, PassesMagic, ToBytes;
    var r, rest, front := Small(id, other), [Small(id, other)] + [Big(id)], HeaderBytes(h) + Frames(good);
    RecordsAreFramed(id, other);
    FramesCons(rest);
    SmallStarts(id, other);
    var after := Frames(rest);
    assert after[..4] == Frame(r)[..4];
    var file := front + Zeros(PERIOD) + after;
    forall i | |front| <= i < |front| + PERIOD
      ensures !PassesMagic(file, i)
    {
      var k := i + 3 - |front| - PERIOD;
      assert file[i + 3] == if k < 0 then 0 else after[..4][k];
      NoMagicAt(file, i);
    }
  }

  lemma {:induction false} SmallStarts(id: nat, other: nat)
    requires id < 0x1_0000_0000 && other < 0x1_0000_0000
    ensures |Frame(Small(id, other))| >= 4 && Frame(Small(id, other))[..4] == [1, 0, 0xef, 0xfe]
  {
    hide Frame, ToBytes, Pattern;
    RecordsAreFramed(id, other);
    FrameStarts(Small(id, other));
    MagicBytes();
  }

  /**
   Header, well-framed records, 24 zero bytes, the short record and the long one: the repair cuts out exactly the zeros,
   although the record behind them is too long to be moved.
   */
  lemma {:induction false} OverlongCanSurvive(h: Header, good: seq<Rec>, id: nat, other: nat)
    requires h.Valid() && FramedRecs(good) && id < 0x1_0000_0000 && other < 0x1_0000_0000
    ensures OneBadBlock(h, good, Zeros(PERIOD), Frames([Small(id, other)] + [Big(id)]))
    ensures |Big(id).data| > POSIX_LOG_ENTRY_MAXLEN && CutsOut(h, good, Zeros(PERIOD), [Small(id, other)] + [Big(id)])
  {
    hide OneBadBlock, Frames, Frame, Small, Big, Pattern, Stale, CutsOut, Repeated, ToBytes;
    var r, big, p, n := Small(id, other), Big(id), Pattern(id), REC_HDR_SIZE + BIG_DATA + SIZESIZE;
    RecordsAreFramed(id, other);
    ZerosAreBadBlock(h, good, id, other);
    FramesOne(r);
    SmallEndsInPattern(id, other, Zeros(PERIOD));
    BigRepeats(id);
    PatternInFront(p, n);
    ShiftedRecordIsFound(h, good, Zeros(PERIOD), [r], big, Repeated(p, n + PERIOD)[n..]);
  }
}
