/** The layout of an event log: a file header, then frames [entry][data][size]. */
module Framing {
  import opened Bytes

  /** sizeof(struct posix_log_entry), sizeof(log_header_t) and sizeof(evlrecsize_t) in the LP64 layout. */
  const REC_HDR_SIZE: nat := 88
  const LOG_HDR_SIZE: nat := 40
  const SIZESIZE: nat := 4
  const POSIX_LOG_ENTRY_MAXLEN: nat := 8192

  const LOGFILE_MAGIC: nat := 0xbeefface
  const LOGREC_MAGIC_HIWORD: nat := 0xfeef

  /** The record header. Only the members the log machinery itself reads are named. */
  datatype Entry = Entry(magic: nat, recid: nat, size: nat, rest: seq<byte>)
  {
    ghost predicate Valid() {
      && magic < 0x1_0000_0000
      && recid < 0x1_0000_0000
      && size < 0x1_0000_0000_0000_0000
      && |rest| == REC_HDR_SIZE - 16
    }
  }

  datatype Rec = Rec(entry: Entry, data: seq<byte>)
  {
    /** Header, data and size word fit together. */
    ghost predicate Framed() {
      && entry.Valid()
      && entry.magic / 0x1_0000 == LOGREC_MAGIC_HIWORD
      && entry.size == |data|
      && REC_HDR_SIZE + |data| < 0x1_0000_0000
    }

    /** A record as evlogd writes it. */
    ghost predicate Valid() {
      Framed() && |data| <= POSIX_LOG_ENTRY_MAXLEN
    }
  }

  datatype Header = Header(magic: nat, version: seq<byte>, lastRecId: nat, reserved: seq<byte>, generation: nat,
                           pad: seq<byte>)
  {
    ghost predicate Valid() {
      && magic == LOGFILE_MAGIC
      && lastRecId < 0x1_0000_0000
      && generation < 0x1_0000_0000
      && |version| == 12 && |reserved| == 12 && |pad| == 4
    }
  }

  function EntryBytes(e: Entry): seq<byte> {
    ToBytes(4, e.magic) + ToBytes(4, e.recid) + ToBytes(8, e.size) + e.rest
  }

  function EntryOf(s: seq<byte>): Entry
    requires |s| == REC_HDR_SIZE
  {
    Entry(FromBytes(s[..4]), FromBytes(s[4..8]), FromBytes(s[8..16]), s[16..])
  }

  lemma {:induction false} EntryRoundTrip(e: Entry)
    requires e.Valid()
    ensures |EntryBytes(e)| == REC_HDR_SIZE && EntryOf(EntryBytes(e)) == e
  {
    WordSizes();
    var s := EntryBytes(e);
    assert s[..4] == ToBytes(4, e.magic);
    assert s[4..8] == ToBytes(4, e.recid);
    assert s[8..16] == ToBytes(8, e.size);
    assert s[16..] == e.rest;
    FromToBytes(4, e.magic);
    FromToBytes(4, e.recid);
    FromToBytes(8, e.size);
  }

  lemma {:induction false} EntryImage(s: seq<byte>)
    requires |s| == REC_HDR_SIZE
    ensures EntryOf(s).Valid() && EntryBytes(EntryOf(s)) == s
  {
    WordSizes();
    ToFromBytes(s[..4]);
    ToFromBytes(s[4..8]);
    ToFromBytes(s[8..16]);
    assert s == s[..4] + s[4..8] + s[8..16] + s[16..];
  }

  function HeaderBytes(h: Header): seq<byte> {
    ToBytes(4, h.magic) + h.version + ToBytes(4, h.lastRecId) + h.reserved + ToBytes(4, h.generation) + h.pad
  }

  function HeaderOf(s: seq<byte>): Header
    requires |s| == LOG_HDR_SIZE
  {
    Header(FromBytes(s[..4]), s[4..16], FromBytes(s[16..20]), s[20..32], FromBytes(s[32..36]), s[36..])
  }

  lemma {:induction false} HeaderRoundTrip(h: Header)
    requires h.Valid()
    ensures |HeaderBytes(h)| == LOG_HDR_SIZE && HeaderOf(HeaderBytes(h)) == h
  {
    WordSizes();
    var s := HeaderBytes(h);
    assert s[..4] == ToBytes(4, h.magic);
    assert s[4..16] == h.version;
    assert s[16..20] == ToBytes(4, h.lastRecId);
    assert s[20..32] == h.reserved;
    assert s[32..36] == ToBytes(4, h.generation);
    assert s[36..] == h.pad;
    FromToBytes(4, h.magic);
    FromToBytes(4, h.lastRecId);
    FromToBytes(4, h.generation);
  }

  function Zeros(n: nat): (z: seq<byte>)
    ensures |z| == n && forall i :: 0 <= i < n ==> z[i] == 0
  {
    seq(n, i => 0)
  }

  /** The header seen through a mapping of the file's first page; bytes past the end of the file read as 0. */
  function MappedHeader(file: seq<byte>): Header {
    HeaderOf((file + Zeros(LOG_HDR_SIZE))[..LOG_HDR_SIZE])
  }

  lemma {:induction false} MappedHeaderOf(h: Header, rest: seq<byte>)
    requires h.Valid()
    ensures MappedHeader(HeaderBytes(h) + rest) == h
  {
    hide HeaderBytes, HeaderOf;
    HeaderRoundTrip(h);
    assert (HeaderBytes(h) + rest + Zeros(LOG_HDR_SIZE))[..LOG_HDR_SIZE] == HeaderBytes(h);
  }

  /** What one record occupies in the file; the trailing size word does not count itself. */
  function Frame(r: Rec): seq<byte> {
    EntryBytes(r.entry) + r.data + ToBytes(SIZESIZE, REC_HDR_SIZE + |r.data|)
  }

  function Frames(rs: seq<Rec>): seq<byte> {
    if rs == [] then [] else Frame(rs[0]) + Frames(rs[1..])
  }

  ghost predicate ValidRecs(rs: seq<Rec>) {
    forall i :: 0 <= i < |rs| ==> rs[i].Valid()
  }

  /** file is a well-formed log that holds exactly rs. */
  ghost predicate IsLog(file: seq<byte>, h: Header, rs: seq<Rec>) {
    h.Valid() && ValidRecs(rs) && file == HeaderBytes(h) + Frames(rs)
  }

  /** The file offset at which record k starts (or the end of the log when k == |rs|). */
  function Offset(rs: seq<Rec>, k: nat): nat
    requires k <= |rs|
  {
    LOG_HDR_SIZE + |Frames(rs[..k])|
  }

  lemma {:induction false} FrameLength(r: Rec)
    requires r.entry.Valid()
    ensures |Frame(r)| == REC_HDR_SIZE + |r.data| + SIZESIZE
  {
    EntryRoundTrip(r.entry);
  }

  lemma {:induction false} FramesAppend(a: seq<Rec>, b: seq<Rec>)
    ensures Frames(a + b) == Frames(a) + Frames(b)
  {
    hide Frame;
    if a == [] {
      assert a + b == b;
    } else {
      FramesAppend(a[1..], b);
      TailOfAppend(a, b);
      Associative(Frame(a[0]), Frames(a[1..]), Frames(b));
    }
  }

  lemma {:induction false} TailOfAppend<T>(a: seq<T>, b: seq<T>)
    requires a != []
    ensures (a + b)[0] == a[0] && (a + b)[1..] == a[1..] + b && a + b != []
  {
  }

  lemma {:induction false} Associative<T>(a: seq<T>, b: seq<T>, c: seq<T>)
    ensures a + (b + c) == (a + b) + c
  {
  }

  lemma {:induction false} FramesOne(r: Rec)
    ensures Frames([r]) == Frame(r)
  {
    assert Frames([r]) == Frame(r) + Frames([]);
  }

  lemma {:induction false} NoFrames()
    ensures Frames([]) == []
  {
  }

  lemma {:induction false} ValidAppend(a: seq<Rec>, b: seq<Rec>)
    requires ValidRecs(a) && ValidRecs(b)
    ensures ValidRecs(a + b)
  {
  }

  /** Appending the frames of more records extends the log by them. */
  lemma {:induction false} LogGrows(file: seq<byte>, h: Header, rs: seq<Rec>, more: seq<Rec>)
    requires IsLog(file, h, rs) && ValidRecs(more)
    ensures IsLog(file + Frames(more), h, rs + more)
  {
    hide HeaderBytes, Frames;
    FramesAppend(rs, more);
    ValidAppend(rs, more);
    Associative(HeaderBytes(h), Frames(rs), Frames(more));
  }

  /** Splits the frames of a log around record k. */
  lemma {:induction false} FramesSplit(rs: seq<Rec>, k: nat)
    requires k < |rs|
    ensures Frames(rs) == Frames(rs[..k]) + Frame(rs[k]) + Frames(rs[k + 1..])
    ensures Frames(rs[..k + 1]) == Frames(rs[..k]) + Frame(rs[k])
    ensures Frames(rs[k..]) == Frame(rs[k]) + Frames(rs[k + 1..])
  {
    hide Frame, Frames;
    SplitAt(rs, k);
    FramesOne(rs[k]);
    FramesAppend(rs[..k], [rs[k]]);
    FramesAppend(rs[..k + 1], rs[k + 1..]);
    FramesAppend([rs[k]], rs[k + 1..]);
  }

  lemma {:induction false} SplitAt<T>(s: seq<T>, k: nat)
    requires k < |s|
    ensures s[..k + 1] == s[..k] + [s[k]]
    ensures s[k..] == [s[k]] + s[k + 1..]
    ensures s == s[..k + 1] + s[k + 1..]
  {
  }

  lemma {:induction false} OffsetStep(rs: seq<Rec>, k: nat)
    requires k < |rs| && ValidRecs(rs)
    ensures Offset(rs, k + 1) == Offset(rs, k) + REC_HDR_SIZE + |rs[k].data| + SIZESIZE
  {
    FramesSplit(rs, k);
    FrameLength(rs[k]);
  }

  lemma {:induction false} OffsetEnds(h: Header, rs: seq<Rec>)
    requires h.Valid()
    ensures Offset(rs, 0) == LOG_HDR_SIZE
    ensures Offset(rs, |rs|) == |HeaderBytes(h) + Frames(rs)|
  {
    HeaderRoundTrip(h);
    assert rs[..|rs|] == rs;
  }

  lemma {:induction false} OffsetMonotonic(rs: seq<Rec>, j: nat, k: nat)
    requires j < k <= |rs| && ValidRecs(rs)
    ensures Offset(rs, j) + REC_HDR_SIZE + SIZESIZE <= Offset(rs, k)
    decreases k - j
  {
    OffsetStep(rs, j);
    if j + 1 < k {
      OffsetMonotonic(rs, j + 1, k);
    }
  }

  /** Appending to the log leaves the offsets of its records as they were. */
  lemma {:induction false} OffsetOfPrefix(a: seq<Rec>, b: seq<Rec>, k: nat)
    requires k <= |a|
    ensures Offset(a + b, k) == Offset(a, k)
  {
    assert (a + b)[..k] == a[..k];
  }

  /** The parts of a frame, wherever it stands in a file. */
  lemma {:induction false} FrameAt(pre: seq<byte>, r: Rec, post: seq<byte>)
    requires r.entry.Valid()
    ensures var f := pre + Frame(r) + post;
            var p := |pre|;
            var q := p + REC_HDR_SIZE;
            var z := q + |r.data|;
            && z + SIZESIZE <= |f|
            && f[p..q] == EntryBytes(r.entry)
            && f[q..z] == r.data
            && f[p..z] == EntryBytes(r.entry) + r.data
            && f[z..z + SIZESIZE] == ToBytes(SIZESIZE, REC_HDR_SIZE + |r.data|)
            && f[q..z + SIZESIZE] == r.data + ToBytes(SIZESIZE, REC_HDR_SIZE + |r.data|)
            && f[p..z + SIZESIZE] == Frame(r)
            && |pre + Frame(r)| == z + SIZESIZE
  {
    EntryRoundTrip(r.entry);
  }

  /** Record k of a log stands at its offset, with the earlier frames before it and the later ones behind. */
  lemma {:induction false} LogSplit(h: Header, rs: seq<Rec>, k: nat)
    requires h.Valid() && ValidRecs(rs) && k < |rs|
    ensures HeaderBytes(h) + Frames(rs)
         == HeaderBytes(h) + Frames(rs[..k]) + Frame(rs[k]) + Frames(rs[k + 1..])
    ensures |HeaderBytes(h) + Frames(rs[..k])| == Offset(rs, k)
  {
    hide Frame, Frames, HeaderBytes;
    HeaderRoundTrip(h);
    FramesSplit(rs, k);
  }

  /** The size word of a valid record reads back as the record's size. */
  lemma {:induction false} SizeWord(n: nat)
    requires REC_HDR_SIZE + n < 0x1_0000_0000
    ensures FromBytes(ToBytes(SIZESIZE, REC_HDR_SIZE + n)) == REC_HDR_SIZE + n
  {
    WordSizes();
    FromToBytes(SIZESIZE, REC_HDR_SIZE + n);
  }

  /** A log's bytes determine its records. */
  lemma {:induction false} FramesInjective(a: seq<Rec>, b: seq<Rec>)
    requires ValidRecs(a) && ValidRecs(b) && Frames(a) == Frames(b)
    ensures a == b
  {
    if b != [] {
      FrameLength(b[0]);
    }
    if a != [] {
      FrameLength(a[0]);
      var f := Frames(a);
      FrameAt([], a[0], Frames(a[1..]));
      FrameAt([], b[0], Frames(b[1..]));
      assert [] + Frame(a[0]) + Frames(a[1..]) == f == [] + Frame(b[0]) + Frames(b[1..]);
      EntryRoundTrip(a[0].entry);
      EntryRoundTrip(b[0].entry);
      assert a[0].entry == EntryOf(f[0..REC_HDR_SIZE]) == b[0].entry;
      assert |a[0].data| == |b[0].data|;
      assert a[0] == b[0];
      var n := |Frame(a[0])|;
      assert Frames(a[1..]) == f[n..] == Frames(b[1..]);
      FramesInjective(a[1..], b[1..]);
    }
  }
}
