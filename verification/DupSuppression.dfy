/**
 evlogd's suppression of repeated events: what each log remembers, which memo a new event replaces, when the
 counts of discarded events are reported. The daemon's own arrays are in DupBuffers.
 */
module DupSuppression {
  import opened Options
  import opened Bytes

  /** The fields on which two records are compared. Record id, time and magic are not among them. */
  datatype Event = Event(eventType: int, facility: int, severity: int, pid: int, uid: int, gid: int, pgrp: int,
    format: int, flags: int, thread: int, processor: int, data: seq<byte>)

  /** What reaches the log: an event, or a report that count events of one kind were discarded. */
  datatype Note = Logged(event: Event) | Discarded(facility: int, eventType: int, count: int)

  /** An element of the lookback array: a remembered event and how often it came again since. */
  datatype Memo = Free | Kept(event: Event, count: int, start: int)

  datatype Log = Log(memos: Option<seq<Memo>>, pending: int, written: seq<Note>)

  datatype Config = Config(on: bool, count: int, interval: int, timeout: int, size: nat)

  const DEFAULT_DUP_ARRAY_SIZE: nat := 5
  const DEFAULT_CONFIG: Config := Config(true, 10, 60, 180, DEFAULT_DUP_ARRAY_SIZE)
  const MAX_DUP_COUNT := 10000
  const MAX_DUP_INTERVAL := 3600

  function Score(m: Memo, now: int, cfg: Config): int {
    if m.Free? then 0
    else if m.start != 0 && now - m.start > cfg.interval then m.start + m.count
    else if m.start != 0 then m.start + cfg.interval + m.count + cfg.count
    else 2 * cfg.count + now + cfg.interval
  }

  predicate Matches(m: Memo, e: Event, now: int, cfg: Config) {
    m.Kept? && now - m.start < cfg.timeout && m.event == e
  }

  /** The first memo from i on that e repeats, or the length of the array. */
  function FirstMatch(ms: seq<Memo>, e: Event, now: int, cfg: Config, i: nat): (r: nat)
    requires i <= |ms|
    ensures i <= r <= |ms| && (r < |ms| ==> Matches(ms[r], e, now, cfg))
    ensures forall k :: i <= k < r ==> !Matches(ms[k], e, now, cfg)
    decreases |ms| - i
  {
    if i == |ms| || Matches(ms[i], e, now, cfg) then i else FirstMatch(ms, e, now, cfg, i + 1)
  }

  /** The first memo of least score among the first n. */
  function LeastScore(ms: seq<Memo>, now: int, cfg: Config, n: nat): (r: nat)
    requires 0 < n <= |ms|
    ensures r < n && forall k :: 0 <= k < n ==> Score(ms[r], now, cfg) <= Score(ms[k], now, cfg)
    ensures forall k :: 0 <= k < r ==> Score(ms[r], now, cfg) < Score(ms[k], now, cfg)
  {
    if n == 1 then 0
    else
      var r := LeastScore(ms, now, cfg, n - 1);
      if Score(ms[n - 1], now, cfg) < Score(ms[r], now, cfg) then n - 1 else r
  }

  predicate AllEqual(ms: seq<Memo>, now: int, cfg: Config, n: nat)
    requires n <= |ms|
  {
    forall k :: 0 < k < n ==> Score(ms[k], now, cfg) == Score(ms[0], now, cfg)
  }

  lemma {:induction false} FirstMatchStep(ms: seq<Memo>, e: Event, now: int, cfg: Config, i: nat)
    requires i < |ms|
    ensures FirstMatch(ms, e, now, cfg, i)
         == if Matches(ms[i], e, now, cfg) then i else FirstMatch(ms, e, now, cfg, i + 1)
    ensures FirstMatch(ms, e, now, cfg, |ms|) == |ms|
  {
  }

  lemma {:induction false} LeastScoreStep(ms: seq<Memo>, now: int, cfg: Config, n: nat)
    requires n < |ms|
    ensures LeastScore(ms, now, cfg, n + 1)
      == if n == 0 then 0
         else if Score(ms[n], now, cfg) < Score(ms[LeastScore(ms, now, cfg, n)], now, cfg) then n
         else LeastScore(ms, now, cfg, n)
  {
  }

  lemma {:induction false} AllEqualStep(ms: seq<Memo>, now: int, cfg: Config, n: nat)
    requires n <= |ms|
    ensures n <= 1 ==> AllEqual(ms, now, cfg, n)
    ensures 0 < n < |ms| ==> (AllEqual(ms, now, cfg, n + 1)
      <==> AllEqual(ms, now, cfg, n) && Score(ms[n], now, cfg) == Score(ms[LeastScore(ms, now, cfg, n)], now, cfg))
  {
  }

  function NextIndex(equalityIndex: int, size: nat): int {
    if equalityIndex + 1 >= size then 0 else equalityIndex + 1
  }

  function Report(m: Memo): seq<Note> {
    if m.Kept? && m.count > 0 then [Discarded(m.event.facility, m.event.eventType, m.count)] else []
  }

  function Pending(m: Memo): int {
    if m.Kept? then m.count else 0
  }

  // ---------------------------------------------------------------------------------------------------------
  // An event arrives

  datatype Arrival = Arrival(log: Log, equalityIndex: int, dropped: bool)

  function Calloc(n: nat): seq<Memo> {
    seq(n, _ => Free)
  }

  /** The lookback array, made if it is not there. */
  function Memos(l: Log, cfg: Config): seq<Memo> {
    if l.memos.Some? then l.memos.value else Calloc(cfg.size)
  }

  /** e repeats the memo at i: one more is pending, and reported when enough of them or old enough. */
  function CountRepeat(l: Log, ms: seq<Memo>, i: nat, now: int, cfg: Config): Log
    requires i < |ms| && ms[i].Kept?
  {
    var m := ms[i].(count := ms[i].count + 1);
    if m.count == cfg.count || now - m.start >= cfg.interval then
      Log(Some(ms[i := Free]), l.pending + 1 - m.count,
          l.written + [Discarded(m.event.facility, m.event.eventType, m.count)])
    else Log(Some(ms[i := m]), l.pending + 1, l.written)
  }

  /** e takes the place of the memo at i, whose pending count is reported first. */
  function Remember(l: Log, ms: seq<Memo>, i: nat, e: Event, now: int): Log
    requires i < |ms|
  {
    Log(Some(ms[i := Kept(e, 0, now)]), if Report(ms[i]) != [] then l.pending - Pending(ms[i]) else l.pending,
        l.written + Report(ms[i]))
  }

  function Victim(ms: seq<Memo>, now: int, cfg: Config, equalityIndex: int): (r: nat)
    requires 0 < |ms| && -1 <= equalityIndex
    ensures r < |ms|
  {
    if AllEqual(ms, now, cfg, |ms|) then NextIndex(equalityIndex, |ms|) else LeastScore(ms, now, cfg, |ms|)
  }

  function DropDup(l: Log, equalityIndex: int, e: Event, now: int, cfg: Config): Arrival
    requires 0 < |Memos(l, cfg)| && -1 <= equalityIndex
  {
    if !cfg.on then Arrival(l, equalityIndex, false)
    else
      var ms := Memos(l, cfg);
      var i := FirstMatch(ms, e, now, cfg, 0);
      if i < |ms| then Arrival(CountRepeat(l, ms, i, now, cfg), equalityIndex, true)
      else
        Arrival(Remember(l, ms, Victim(ms, now, cfg, equalityIndex), e, now),
          if AllEqual(ms, now, cfg, |ms|) then NextIndex(equalityIndex, |ms|) else equalityIndex, false)
  }

  /** The event is logged unless it is dropped. */
  function Arrive(l: Log, equalityIndex: int, e: Event, now: int, cfg: Config): Arrival
    requires 0 < |Memos(l, cfg)| && -1 <= equalityIndex
  {
    var a := DropDup(l, equalityIndex, e, now, cfg);
    if a.dropped then a else a.(log := a.log.(written := a.log.written + [Logged(e)]))
  }

  // ---------------------------------------------------------------------------------------------------------
  // Time passes

  function Left(m: Memo, now: int, cfg: Config): int {
    if m.Kept? then m.start + cfg.interval - now else 0
  }

  predicate Due(m: Memo, now: int, cfg: Config) {
    Pending(m) > 0 && Left(m, now, cfg) <= 0
  }

  /** The memos after those with a due report are freed. */
  function Settle(ms: seq<Memo>, now: int, cfg: Config): (r: seq<Memo>)
    ensures |r| == |ms| && forall k :: 0 <= k < |ms| ==> r[k] == if Due(ms[k], now, cfg) then Free else ms[k]
  {
    seq(|ms|, k requires 0 <= k < |ms| => if Due(ms[k], now, cfg) then Free else ms[k])
  }

  function DueReports(ms: seq<Memo>, now: int, cfg: Config): seq<Note> {
    if ms == [] then []
    else
      var m := ms[|ms| - 1];
      DueReports(ms[..|ms| - 1], now, cfg) + if Due(m, now, cfg) then Report(m) else []
  }

  /** The pending count of all memos of a kind, or of all of them. */
  datatype Kind = Any | Of(facility: int, eventType: int)

  predicate IsOf(e: Event, k: Kind) {
    k.Any? || (e.facility == k.facility && e.eventType == k.eventType)
  }

  function PendingOf(ms: seq<Memo>, k: Kind): int {
    if ms == [] then 0
    else
      var m := ms[|ms| - 1];
      PendingOf(ms[..|ms| - 1], k) + if m.Kept? && IsOf(m.event, k) then m.count else 0
  }

  function DuePending(ms: seq<Memo>, now: int, cfg: Config): int {
    if ms == [] then 0
    else
      var m := ms[|ms| - 1];
      DuePending(ms[..|ms| - 1], now, cfg) + if Due(m, now, cfg) then m.count else 0
  }

  /** The wait before the next report: tv, or the least time left where that is shorter or tv is 0. */
  function NextDue(ms: seq<Memo>, now: int, cfg: Config, tv: int): int {
    if ms == [] then tv
    else
      var m := ms[|ms| - 1];
      var before := NextDue(ms[..|ms| - 1], now, cfg, tv);
      if Pending(m) > 0 && Left(m, now, cfg) > 0 && (before == 0 || before > Left(m, now, cfg)) then Left(m, now, cfg)
      else before
  }

  function Check(l: Log, now: int, cfg: Config): Log {
    if l.pending == 0 || l.memos.None? then l
    else
      var ms := l.memos.value;
      Log(Some(Settle(ms, now, cfg)), l.pending - DuePending(ms, now, cfg), l.written + DueReports(ms, now, cfg))
  }

  function CheckWait(l: Log, now: int, cfg: Config, tv: int): int {
    if l.pending == 0 || l.memos.None? then tv else NextDue(l.memos.value, now, cfg, tv)
  }

  /** One memo's part of a check: its report if that is due, else the shorter wait. */
  function CheckOne(l: Log, i: nat, now: int, cfg: Config): Log
    requires l.memos.Some? && i < |l.memos.value|
  {
    var m := l.memos.value[i];
    if Due(m, now, cfg) then
      Log(Some(l.memos.value[i := Free]), l.pending - m.count, l.written + Report(m))
    else l
  }

  function WaitOne(m: Memo, now: int, cfg: Config, tv: int): int {
    if Pending(m) > 0 && Left(m, now, cfg) > 0 && (tv == 0 || tv > Left(m, now, cfg)) then Left(m, now, cfg) else tv
  }

  /** The check of l0 after its first i memos. */
  predicate CheckedUpTo(l0: Log, l: Log, i: nat, now: int, cfg: Config, tv: int, wait: int)
    requires l0.memos.Some? && i <= |l0.memos.value|
  {
    var ms := l0.memos.value;
    && l == Log(Some(Settle(ms[..i], now, cfg) + ms[i..]), l0.pending - DuePending(ms[..i], now, cfg),
                l0.written + DueReports(ms[..i], now, cfg))
    && wait == NextDue(ms[..i], now, cfg, tv)
  }

  lemma {:induction false} CheckStarts(l0: Log, now: int, cfg: Config, tv: int)
    requires l0.memos.Some?
    ensures CheckedUpTo(l0, l0, 0, now, cfg, tv, tv)
  {
    var ms := l0.memos.value;
    assert Settle(ms[..0], now, cfg) + ms[0..] == ms;
    assert l0.written + DueReports(ms[..0], now, cfg) == l0.written;
  }

  lemma {:induction false} CheckGoesOn(l0: Log, l: Log, i: nat, now: int, cfg: Config, tv: int, wait: int)
    requires l0.memos.Some? && i < |l0.memos.value| && CheckedUpTo(l0, l, i, now, cfg, tv, wait)
    ensures l.memos.Some? && |l.memos.value| == |l0.memos.value| && l.memos.value[i] == l0.memos.value[i]
    ensures CheckedUpTo(l0, CheckOne(l, i, now, cfg), i + 1, now, cfg, tv, WaitOne(l.memos.value[i], now, cfg, wait))
  {
    var ms := l0.memos.value;
    assert ms[..i + 1][..i] == ms[..i];
    var cur := Settle(ms[..i], now, cfg) + ms[i..];
    assert cur[i] == ms[i];
    assert (if Due(ms[i], now, cfg) then cur[i := Free] else cur) == Settle(ms[..i + 1], now, cfg) + ms[i + 1..];
  }

  lemma {:induction false} CheckEnds(l0: Log, l: Log, now: int, cfg: Config, tv: int, wait: int)
    requires l0.memos.Some? && l0.pending != 0 && CheckedUpTo(l0, l, |l0.memos.value|, now, cfg, tv, wait)
    ensures l == Check(l0, now, cfg) && wait == CheckWait(l0, now, cfg, tv)
  {
    var ms := l0.memos.value;
    assert ms[..|ms|] == ms;
    assert Settle(ms, now, cfg) + ms[|ms|..] == Settle(ms, now, cfg);
  }

  // ---------------------------------------------------------------------------------------------------------
  // Dumping and configuration

  function Reports(ms: seq<Memo>): seq<Note> {
    if ms == [] then [] else Reports(ms[..|ms| - 1]) + Report(ms[|ms| - 1])
  }

  lemma {:induction false} ReportsGrow(written: seq<Note>, ms: seq<Memo>, i: nat)
    requires i < |ms|
    ensures written + Reports(ms[..i + 1]) == written + Reports(ms[..i]) + Report(ms[i])
  {
    assert ms[..i + 1][..i] == ms[..i];
  }

  function Dump(l: Log): Log {
    if l.memos.None? then l else Log(None, 0, l.written + Reports(l.memos.value))
  }

  datatype System = System(evl: Log, pvt: Log, equalityIndex: int, cfg: Config)

  datatype Op =
    | Arrives(private: bool, event: Event, now: int)
    | Checks(nowEvl: int, nowPvt: int)
    | SetCount(value: nat)
    | SetInterval(value: nat)
    | Switch(on: bool)
    | SetSize(value: nat)

  function Realloc(s: System, newsize: nat, prevOn: bool, curOn: bool): System {
    var t := if prevOn then s.(evl := Dump(s.evl), pvt := Dump(s.pvt)) else s;
    t.(cfg := t.cfg.(size := newsize, on := curOn))
  }

  function Size(value: nat): (r: nat)
    ensures 0 < r && (0 < value ==> r == value)
  {
    if value == 0 then DEFAULT_DUP_ARRAY_SIZE else value
  }

  function Do(s: System, op: Op): System
    requires Valid(s)
  {
    match op
    case Arrives(private, e, now) =>
      if private then
        var a := Arrive(s.pvt, s.equalityIndex, e, now, s.cfg);
        s.(pvt := a.log, equalityIndex := a.equalityIndex)
      else
        var a := Arrive(s.evl, s.equalityIndex, e, now, s.cfg);
        s.(evl := a.log, equalityIndex := a.equalityIndex)
    case Checks(nowEvl, nowPvt) => s.(evl := Check(s.evl, nowEvl, s.cfg), pvt := Check(s.pvt, nowPvt, s.cfg))
    case SetCount(v) => s.(cfg := s.cfg.(count := if v == 0 then 10 * MAX_DUP_COUNT else v))
    case SetInterval(v) => s.(cfg := s.cfg.(interval := if v == 0 then 24 * MAX_DUP_INTERVAL else v))
    case Switch(on) => if on == s.cfg.on then s else Realloc(s, s.cfg.size, !on, on)
    case SetSize(v) => if v == s.cfg.size then s else Realloc(s, Size(v), s.cfg.on, s.cfg.on)
  }

  /** What holds between any two operations: the log's own count is the sum of its memos' counts. */
  predicate Sound(l: Log, cfg: Config) {
    if l.memos.None? then l.pending == 0
    else
      && cfg.on && |l.memos.value| == cfg.size && l.pending == PendingOf(l.memos.value, Any)
      && forall k :: 0 <= k < cfg.size ==> Pending(l.memos.value[k]) >= 0
  }

  predicate Valid(s: System) {
    0 < s.cfg.size && -1 <= s.equalityIndex && Sound(s.evl, s.cfg) && Sound(s.pvt, s.cfg)
  }

  // ---------------------------------------------------------------------------------------------------------
  // Conservation

  /** The events of a kind that a log's notes account for. */
  function Accounted(notes: seq<Note>, k: Kind): int {
    if notes == [] then 0
    else
      Accounted(notes[..|notes| - 1], k) + match notes[|notes| - 1]
        case Logged(e) => if IsOf(e, k) then 1 else 0
        case Discarded(f, t, c) => if k.Any? || (f == k.facility && t == k.eventType) then c else 0
  }

  /** Accounted for in the log, or still pending. */
  function Held(l: Log, k: Kind): int {
    Accounted(l.written, k) + if l.memos.Some? then PendingOf(l.memos.value, k) else 0
  }

  lemma {:induction false} AccountedSplits(a: seq<Note>, b: seq<Note>, k: Kind)
    ensures Accounted(a + b, k) == Accounted(a, k) + Accounted(b, k)
  {
    if b == [] {
      assert a + b == a;
    } else {
      AccountedSplits(a, b[..|b| - 1], k);
      assert (a + b)[..|a + b| - 1] == a + b[..|b| - 1];
    }
  }

  lemma {:induction false} PendingUpdated(ms: seq<Memo>, i: nat, m: Memo, k: Kind)
    requires i < |ms|
    ensures PendingOf(ms[i := m], k) == PendingOf(ms, k)
      - (if ms[i].Kept? && IsOf(ms[i].event, k) then ms[i].count else 0)
      + (if m.Kept? && IsOf(m.event, k) then m.count else 0)
  {
    var n := |ms| - 1;
    if i == n {
      assert ms[i := m][..n] == ms[..n];
    } else {
      PendingUpdated(ms[..n], i, m, k);
      assert ms[i := m][..n] == ms[..n][i := m];
    }
  }

  lemma {:induction false} CallocPending(n: nat, k: Kind)
    ensures PendingOf(Calloc(n), k) == 0
  {
    if n > 0 {
      CallocPending(n - 1, k);
      assert Calloc(n)[..n - 1] == Calloc(n - 1);
    }
  }

  lemma {:induction false} ReportAccounts(m: Memo, k: Kind)
    requires Pending(m) >= 0
    ensures Accounted(Report(m), k) == if m.Kept? && IsOf(m.event, k) then m.count else 0
  {
    if Report(m) != [] {
      assert Report(m)[..0] == [];
    }
  }

  lemma {:induction false} RepeatHeld(l: Log, ms: seq<Memo>, i: nat, now: int, cfg: Config, k: Kind)
    requires i < |ms| && ms[i].Kept?
    ensures Held(CountRepeat(l, ms, i, now, cfg), k)
         == Accounted(l.written, k) + PendingOf(ms, k) + if IsOf(ms[i].event, k) then 1 else 0
  {
    var m := ms[i].(count := ms[i].count + 1);
    PendingUpdated(ms, i, m, k);
    PendingUpdated(ms, i, Free, k);
    var note := [Discarded(m.event.facility, m.event.eventType, m.count)];
    assert note[..0] == [];
    AccountedSplits(l.written, note, k);
  }

  lemma {:induction false} RememberHeld(l: Log, ms: seq<Memo>, i: nat, e: Event, now: int, k: Kind)
    requires i < |ms| && Pending(ms[i]) >= 0
    ensures Held(Remember(l, ms, i, e, now), k) == Accounted(l.written, k) + PendingOf(ms, k)
  {
    PendingUpdated(ms, i, Kept(e, 0, now), k);
    ReportAccounts(ms[i], k);
    AccountedSplits(l.written, Report(ms[i]), k);
  }

  /** An arriving event is logged, or counted; and what was logged or counted before stays so. */
  lemma {:induction false} ArriveHeld(l: Log, eq: int, e: Event, now: int, cfg: Config, k: Kind)
    requires Sound(l, cfg) && 0 < cfg.size && -1 <= eq
    ensures Held(Arrive(l, eq, e, now, cfg).log, k) == Held(l, k) + if IsOf(e, k) then 1 else 0
  {
    var a := DropDup(l, eq, e, now, cfg);
    var note := [Logged(e)];
    assert note[..0] == [];
    AccountedSplits(a.log.written, note, k);
    if cfg.on {
      var ms := Memos(l, cfg);
      CallocPending(cfg.size, k);
      var i := FirstMatch(ms, e, now, cfg, 0);
      if i < |ms| {
        RepeatHeld(l, ms, i, now, cfg, k);
      } else {
        RememberHeld(l, ms, Victim(ms, now, cfg, eq), e, now, k);
      }
    }
  }

  lemma {:induction false} SettleHeld(ms: seq<Memo>, now: int, cfg: Config, k: Kind)
    requires forall j :: 0 <= j < |ms| ==> Pending(ms[j]) >= 0
    ensures PendingOf(Settle(ms, now, cfg), k) + Accounted(DueReports(ms, now, cfg), k) == PendingOf(ms, k)
    ensures k.Any? ==> PendingOf(Settle(ms, now, cfg), k) + DuePending(ms, now, cfg) == PendingOf(ms, k)
  {
    if ms != [] {
      var n := |ms| - 1;
      SettleHeld(ms[..n], now, cfg, k);
      assert Settle(ms, now, cfg)[..n] == Settle(ms[..n], now, cfg);
      ReportAccounts(ms[n], k);
      AccountedSplits(DueReports(ms[..n], now, cfg), if Due(ms[n], now, cfg) then Report(ms[n]) else [], k);
    }
  }

  lemma {:induction false} CheckHeld(l: Log, now: int, cfg: Config, k: Kind)
    requires Sound(l, cfg)
    ensures Held(Check(l, now, cfg), k) == Held(l, k)
  {
    if l.memos.Some? {
      SettleHeld(l.memos.value, now, cfg, k);
      AccountedSplits(l.written, DueReports(l.memos.value, now, cfg), k);
    }
  }

  lemma {:induction false} ReportsHeld(ms: seq<Memo>, k: Kind)
    requires forall j :: 0 <= j < |ms| ==> Pending(ms[j]) >= 0
    ensures Accounted(Reports(ms), k) == PendingOf(ms, k)
  {
    if ms != [] {
      var n := |ms| - 1;
      ReportsHeld(ms[..n], k);
      ReportAccounts(ms[n], k);
      AccountedSplits(Reports(ms[..n]), Report(ms[n]), k);
    }
  }

  lemma {:induction false} DumpHeld(l: Log, cfg: Config, k: Kind)
    requires Sound(l, cfg)
    ensures Held(Dump(l), k) == Held(l, k)
  {
    if l.memos.Some? {
      ReportsHeld(l.memos.value, k);
      AccountedSplits(l.written, Reports(l.memos.value), k);
    }
  }

  lemma {:induction false} ArriveSound(l: Log, eq: int, e: Event, now: int, cfg: Config)
    requires Sound(l, cfg) && 0 < cfg.size && -1 <= eq
    ensures Sound(Arrive(l, eq, e, now, cfg).log, cfg) && -1 <= Arrive(l, eq, e, now, cfg).equalityIndex
  {
    if cfg.on {
      var ms := Memos(l, cfg);
      CallocPending(cfg.size, Any);
      var i := FirstMatch(ms, e, now, cfg, 0);
      if i < |ms| {
        PendingUpdated(ms, i, ms[i].(count := ms[i].count + 1), Any);
        PendingUpdated(ms, i, Free, Any);
      } else {
        PendingUpdated(ms, Victim(ms, now, cfg, eq), Kept(e, 0, now), Any);
      }
    }
  }

  lemma {:induction false} CheckSound(l: Log, now: int, cfg: Config)
    requires Sound(l, cfg)
    ensures Sound(Check(l, now, cfg), cfg)
  {
    if l.memos.Some? {
      SettleHeld(l.memos.value, now, cfg, Any);
    }
  }

  lemma {:induction false} DoKeeps(s: System, op: Op)
    requires Valid(s)
    ensures Valid(Do(s, op))
  {
    match op
    case Arrives(private, e, now) => ArriveSound(if private then s.pvt else s.evl, s.equalityIndex, e, now, s.cfg);
    case Checks(nowEvl, nowPvt) =>
      CheckSound(s.evl, nowEvl, s.cfg);
      CheckSound(s.pvt, nowPvt, s.cfg);
    case _ =>
  }

  function Run(s: System, ops: seq<Op>): (r: System)
    requires Valid(s)
    ensures Valid(r)
  {
    if ops == [] then s
    else
      var before := Run(s, ops[..|ops| - 1]);
      DoKeeps(before, ops[|ops| - 1]);
      Do(before, ops[|ops| - 1])
  }

  /** The events of a kind offered to one of the logs. */
  function Offered(ops: seq<Op>, private: bool, k: Kind): int {
    if ops == [] then 0
    else
      var op := ops[|ops| - 1];
      Offered(ops[..|ops| - 1], private, k)
      + if op.Arrives? && op.private == private && IsOf(op.event, k) then 1 else 0
  }

  /**
   Over any run, for every kind of event and for all kinds together, the events offered to a log are those logged,
   those in its reports of discarded events, and those its memos still count.
   */
  lemma {:induction false} DuplicatesAreConserved(s: System, ops: seq<Op>, k: Kind)
    requires Valid(s)
    ensures Held(Run(s, ops).evl, k) == Held(s.evl, k) + Offered(ops, false, k)
    ensures Held(Run(s, ops).pvt, k) == Held(s.pvt, k) + Offered(ops, true, k)
  {
    if ops != [] {
      DuplicatesAreConserved(s, ops[..|ops| - 1], k);
      var before := Run(s, ops[..|ops| - 1]);
      match ops[|ops| - 1]
      case Arrives(private, e, now) =>
        var l := if private then before.pvt else before.evl;
        ArriveHeld(l, before.equalityIndex, e, now, before.cfg, k);
      case Checks(nowEvl, nowPvt) =>
        CheckHeld(before.evl, nowEvl, before.cfg, k);
        CheckHeld(before.pvt, nowPvt, before.cfg, k);
      case _ =>
        DumpHeld(before.evl, before.cfg, k);
        DumpHeld(before.pvt, before.cfg, k);
    }
  }

  // ---------------------------------------------------------------------------------------------------------
  // Timeouts

  predicate IsPending(l: Log, k: int) {
    l.memos.Some? && 0 <= k < |l.memos.value| && Pending(l.memos.value[k]) > 0
  }

  lemma {:induction false} NextDueIsLeast(ms: seq<Memo>, now: int, cfg: Config, tv: int)
    requires tv >= 0
    ensures var r := NextDue(ms, now, cfg, tv);
      && 0 <= r
      && (r == 0 <==> tv == 0 && forall k :: 0 <= k < |ms| && Pending(ms[k]) > 0 ==> Left(ms[k], now, cfg) <= 0)
      && (tv > 0 ==> r <= tv)
      && (forall k :: 0 <= k < |ms| && Pending(ms[k]) > 0 && Left(ms[k], now, cfg) > 0 ==> r <= Left(ms[k], now, cfg))
      && (r == tv || exists k :: 0 <= k < |ms| && Pending(ms[k]) > 0 && r == Left(ms[k], now, cfg))
  {
    if ms != [] {
      var n := |ms| - 1;
      NextDueIsLeast(ms[..n], now, cfg, tv);
      var before := NextDue(ms[..n], now, cfg, tv);
      assert forall k :: 0 <= k < n ==> ms[..n][k] == ms[k];
      if before != tv {
        var k :| 0 <= k < n && Pending(ms[..n][k]) > 0 && before == Left(ms[..n][k], now, cfg);
        assert Pending(ms[k]) > 0 && before == Left(ms[k], now, cfg);
      }
    }
  }

  lemma {:induction false} NonePending(ms: seq<Memo>)
    requires PendingOf(ms, Any) == 0 && forall k :: 0 <= k < |ms| ==> Pending(ms[k]) >= 0
    ensures forall k :: 0 <= k < |ms| ==> Pending(ms[k]) == 0
  {
    if ms != [] {
      PendingNonNegative(ms[..|ms| - 1]);
      NonePending(ms[..|ms| - 1]);
      forall k | 0 <= k < |ms| ensures Pending(ms[k]) == 0 {
        assert k < |ms| - 1 ==> ms[..|ms| - 1][k] == ms[k];
      }
    }
  }

  lemma {:induction false} PendingNonNegative(ms: seq<Memo>)
    requires forall k :: 0 <= k < |ms| ==> Pending(ms[k]) >= 0
    ensures PendingOf(ms, Any) >= 0
  {
    if ms != [] {
      PendingNonNegative(ms[..|ms| - 1]);
    }
  }

  /**
   After a check of both logs nothing pending is overdue; the wait is the least time left over both logs, and 0
   exactly when nothing is pending.
   */
  lemma {:induction false} CheckLeavesNothingDue(s: System, nowEvl: int, nowPvt: int)
    requires Valid(s)
    ensures var t := Do(s, Checks(nowEvl, nowPvt));
      var wait := CheckWait(s.pvt, nowPvt, s.cfg, CheckWait(s.evl, nowEvl, s.cfg, 0));
      && (forall k :: IsPending(t.evl, k) ==> wait <= Left(t.evl.memos.value[k], nowEvl, s.cfg))
      && (forall k :: IsPending(t.pvt, k) ==> wait <= Left(t.pvt.memos.value[k], nowPvt, s.cfg))
      && 0 <= wait
      && (wait == 0 <==> (forall k :: !IsPending(t.evl, k)) && (forall k :: !IsPending(t.pvt, k)))
      && (wait > 0 ==>
            || (exists k :: IsPending(t.evl, k) && wait == Left(t.evl.memos.value[k], nowEvl, s.cfg))
            || (exists k :: IsPending(t.pvt, k) && wait == Left(t.pvt.memos.value[k], nowPvt, s.cfg)))
  {
    OneLogWait(s.evl, nowEvl, s.cfg, 0);
    OneLogWait(s.pvt, nowPvt, s.cfg, CheckWait(s.evl, nowEvl, s.cfg, 0));
  }

  lemma {:induction false} OneLogWait(l: Log, now: int, cfg: Config, tv: int)
    requires Sound(l, cfg) && tv >= 0
    ensures var t := Check(l, now, cfg);
      var wait := CheckWait(l, now, cfg, tv);
      && (forall k :: IsPending(t, k) ==> 0 < wait <= Left(t.memos.value[k], now, cfg))
      && 0 <= wait
      && (tv > 0 ==> wait <= tv)
      && (wait == 0 <==> tv == 0 && forall k :: !IsPending(t, k))
      && (wait == tv || exists k :: IsPending(t, k) && wait == Left(t.memos.value[k], now, cfg))
  {
    if l.memos.Some? {
      var ms := l.memos.value;
      if l.pending == 0 {
        NonePending(ms);
      } else {
        NextDueIsLeast(ms, now, cfg, tv);
        var t := Check(l, now, cfg);
        var wait := CheckWait(l, now, cfg, tv);
        forall k | 0 <= k < |ms| && Pending(ms[k]) > 0 && Left(ms[k], now, cfg) > 0 ensures IsPending(t, k) {
          assert t.memos.value[k] == ms[k];
        }
        forall k | IsPending(t, k) ensures 0 < wait <= Left(t.memos.value[k], now, cfg) {
          assert t.memos.value[k] == ms[k];
        }
        if wait != tv {
          var k :| 0 <= k < |ms| && Pending(ms[k]) > 0 && wait == Left(ms[k], now, cfg);
          assert t.memos.value[k] == ms[k];
        }
      }
    }
  }

  // ---------------------------------------------------------------------------------------------------------
  // Eviction

  predicate Expired(m: Memo, now: int, cfg: Config) {
    m.Kept? && now - m.start > cfg.interval
  }

  predicate Current(m: Memo, now: int, cfg: Config) {
    m.Kept? && now - m.start <= cfg.interval
  }

  /** With the counts below the reporting limit, as they are under a fixed limit. */
  predicate WithinLimit(ms: seq<Memo>, cfg: Config) {
    && 0 < cfg.count && 0 <= cfg.interval
    && forall k :: 0 <= k < |ms| && ms[k].Kept? ==> 0 < ms[k].start && 0 <= ms[k].count < cfg.count
  }

  /** The class of a memo, in the order in which they are to be replaced. */
  function Rank(m: Memo, now: int, cfg: Config): int {
    if m.Free? then 0 else if Expired(m, now, cfg) then 1 else 2
  }

  /** A memo of a lower class always has the lower score, so equal scores mean one class. */
  lemma {:induction false} ScoreFollowsRank(ms: seq<Memo>, now: int, cfg: Config, i: nat, j: nat)
    requires WithinLimit(ms, cfg) && i < |ms| && j < |ms|
    ensures Rank(ms[i], now, cfg) < Rank(ms[j], now, cfg) ==> Score(ms[i], now, cfg) < Score(ms[j], now, cfg)
    ensures Score(ms[i], now, cfg) == Score(ms[j], now, cfg) ==> Rank(ms[i], now, cfg) == Rank(ms[j], now, cfg)
  {
  }

  /** No memo is replaced while one of a lower class is there: empty ones go first, then expired ones. */
  lemma {:induction false} EvictionOrder(ms: seq<Memo>, now: int, cfg: Config, eq: int, k: nat)
    requires WithinLimit(ms, cfg) && k < |ms| && -1 <= eq
    ensures Rank(ms[Victim(ms, now, cfg, eq)], now, cfg) <= Rank(ms[k], now, cfg)
  {
    var v := Victim(ms, now, cfg, eq);
    ScoreFollowsRank(ms, now, cfg, k, v);
    if AllEqual(ms, now, cfg, |ms|) {
      assert Score(ms[v], now, cfg) == Score(ms[0], now, cfg) == Score(ms[k], now, cfg);
    }
  }

  /**
   An expired memo scores below every current one exactly when its start and count come to less than now and the
   reporting limit. Under a fixed limit that always holds; lowering the limit at run time can break it.
   */
  lemma {:induction false} ExpiredYieldsExactlyWhen(m: Memo, now: int, cfg: Config)
    requires Expired(m, now, cfg) && 0 < m.start && 0 <= cfg.interval
    ensures (forall n: Memo :: Current(n, now, cfg) && 0 < n.start && 0 <= n.count ==>
              Score(m, now, cfg) < Score(n, now, cfg))
      <==> m.start + m.count < now + cfg.count
  {
    if m.start + m.count >= now + cfg.count {
      var n := Kept(m.event, 0, now - cfg.interval);
      assert Current(n, now, cfg) && Score(m, now, cfg) >= Score(n, now, cfg);
    }
  }

  /** Raising or keeping the limit, and a clock past 0. */
  predicate KeepsLimit(op: Op, limit: int) {
    (op.SetCount? ==> op.value == 0 || limit <= op.value) && (op.Arrives? ==> 0 < op.now)
  }

  predicate SystemWithinLimit(s: System) {
    0 < s.cfg.count <= 10 * MAX_DUP_COUNT && 0 <= s.cfg.interval
    && (s.evl.memos.Some? ==> WithinLimit(s.evl.memos.value, s.cfg))
    && (s.pvt.memos.Some? ==> WithinLimit(s.pvt.memos.value, s.cfg))
  }

  lemma {:induction false} DoKeepsLimit(s: System, op: Op)
    requires Valid(s) && SystemWithinLimit(s) && KeepsLimit(op, s.cfg.count)
    requires op.SetCount? ==> op.value <= 10 * MAX_DUP_COUNT
    ensures SystemWithinLimit(Do(s, op)) && s.cfg.count <= Do(s, op).cfg.count
  {
    match op
    case Arrives(private, e, now) =>
      ArriveWithinLimit(if private then s.pvt else s.evl, s.equalityIndex, e, now, s.cfg);
    case _ =>
  }

  lemma {:induction false} ArriveWithinLimit(l: Log, eq: int, e: Event, now: int, cfg: Config)
    requires Sound(l, cfg) && 0 < cfg.size && -1 <= eq && 0 < now && 0 < cfg.count && 0 <= cfg.interval
    requires l.memos.Some? ==> WithinLimit(l.memos.value, cfg)
    ensures var t := Arrive(l, eq, e, now, cfg).log; t.memos.Some? ==> WithinLimit(t.memos.value, cfg)
  {
    if cfg.on {
      var ms := Memos(l, cfg);
      assert WithinLimit(ms, cfg);
      var i := FirstMatch(ms, e, now, cfg, 0);
      if i < |ms| {
        assert WithinLimit(CountRepeat(l, ms, i, now, cfg).memos.value, cfg);
      } else {
        assert WithinLimit(Remember(l, ms, Victim(ms, now, cfg, eq), e, now).memos.value, cfg);
      }
    }
  }

  /** Along any run that never lowers the limit, an arriving event replaces a memo of the lowest class present. */
  lemma {:induction false} EvictionOrderOverRuns(s: System, ops: seq<Op>, private: bool, e: Event, now: int)
    requires Valid(s) && SystemWithinLimit(s)
    requires forall i :: 0 <= i < |ops| ==>
      KeepsLimit(ops[i], Run(s, ops[..i]).cfg.count) && (ops[i].SetCount? ==> ops[i].value <= 10 * MAX_DUP_COUNT)
    ensures SystemWithinLimit(Run(s, ops))
    ensures var t := Run(s, ops);
      var ms := Memos(if private then t.pvt else t.evl, t.cfg);
      forall k :: 0 <= k < |ms| ==>
        Rank(ms[Victim(ms, now, t.cfg, t.equalityIndex)], now, t.cfg) <= Rank(ms[k], now, t.cfg)
  {
    var n := |ops| - 1;
    if ops != [] {
      assert forall i :: 0 <= i < n ==> ops[..n][..i] == ops[..i];
      EvictionOrderOverRuns(s, ops[..n], private, e, now);
      DoKeepsLimit(Run(s, ops[..n]), ops[n]);
    }
    var t := Run(s, ops);
    var ms := Memos(if private then t.pvt else t.evl, t.cfg);
    forall k | 0 <= k < |ms|
      ensures Rank(ms[Victim(ms, now, t.cfg, t.equalityIndex)], now, t.cfg) <= Rank(ms[k], now, t.cfg)
    {
      EvictionOrder(ms, now, t.cfg, t.equalityIndex, k);
    }
  }

  // ----- the input that shows it: the daemon as it starts, a shorter interval and array, seven of a and one of b

  const STARTED: System := System(Log(None, 0, []), Log(None, 0, []), -1, DEFAULT_CONFIG)

  const SHORT: Config := DEFAULT_CONFIG.(interval := 1, size := 2)

  function Repeats(a: Event, n: nat): seq<Op> {
    [SetInterval(1), SetSize(2)] + seq(n, _ => Arrives(false, a, 1))
  }

  lemma {:induction false} RunGoesOn(s: System, ops: seq<Op>, op: Op)
    requires Valid(s)
    ensures Run(s, ops + [op]) == Do(Run(s, ops), op)
  {
    assert (ops + [op])[..|ops|] == ops;
  }

  lemma {:induction false} RunStarts(a: Event)
    ensures Valid(STARTED) && Run(STARTED, Repeats(a, 0)) == STARTED.(cfg := SHORT)
  {
    var none: seq<Op> := [];
    assert Repeats(a, 0) == none + [SetInterval(1)] + [SetSize(2)];
    RunGoesOn(STARTED, none, SetInterval(1));
    RunGoesOn(STARTED, none + [SetInterval(1)], SetSize(2));
  }

  /** a is remembered when it first comes, and counted after that. */
  lemma {:induction false} RepeatsAreCounted(a: Event, n: nat)
    requires n <= 6
    ensures Valid(STARTED)
    ensures Run(STARTED, Repeats(a, n + 1))
         == System(Log(Some([Kept(a, n, 1), Free]), n, [Logged(a)]), Log(None, 0, []), 0, SHORT)
  {
    RunStarts(a);
    assert Repeats(a, n + 1) == Repeats(a, n) + [Arrives(false, a, 1)];
    RunGoesOn(STARTED, Repeats(a, n), Arrives(false, a, 1));
    if n == 0 {
      assert Calloc(2) == [Free, Free] && [Free, Free][0 := Kept(a, 0, 1)] == [Kept(a, 0, 1), Free];
      assert FirstMatch([Free, Free], a, 1, SHORT, 0) == 2 && AllEqual([Free, Free], 1, SHORT, 2);
    } else {
      RepeatsAreCounted(a, n - 1);
      var ms := [Kept(a, n - 1, 1), Free];
      assert FirstMatch(ms, a, 1, SHORT, 0) == 0;
      assert ms[0 := Kept(a, n, 1)] == [Kept(a, n, 1), Free];
    }
  }

  /** b takes the empty place. */
  lemma {:induction false} OtherIsRemembered(a: Event, b: Event)
    requires a != b
    ensures Valid(STARTED)
    ensures Run(STARTED, Repeats(a, 7) + [Arrives(false, b, 3)])
         == System(Log(Some([Kept(a, 6, 1), Kept(b, 0, 3)]), 6, [Logged(a), Logged(b)]), Log(None, 0, []), 0, SHORT)
  {
    RepeatsAreCounted(a, 6);
    RunGoesOn(STARTED, Repeats(a, 7), Arrives(false, b, 3));
    var ms := [Kept(a, 6, 1), Free];
    assert FirstMatch(ms, b, 3, SHORT, 0) == 2;
    assert Score(ms[0], 3, SHORT) == 7 && Score(ms[1], 3, SHORT) == 0;
    assert LeastScore(ms, 3, SHORT, 2) == 1 && !AllEqual(ms, 3, SHORT, 2);
    assert ms[1 := Kept(b, 0, 3)] == [ms[0], Kept(b, 0, 3)];
  }

  /**
   In a run of the daemon from its start, lowering the limit from 10 to 1 makes the next event replace the current
   memo of b and spare the expired one of a.
   */
  lemma {:induction false} LoweredLimitSparesExpired(a: Event, b: Event, c: Event)
    requires a != b && c != a && c != b
    ensures Valid(STARTED)
    ensures var ops := Repeats(a, 7) + [Arrives(false, b, 3)];
      var s, t := Run(STARTED, ops), Run(STARTED, ops + [SetCount(1)] + [Arrives(false, c, 3)]);
      && s.evl.memos == Some([Kept(a, 6, 1), Kept(b, 0, 3)])
      && Expired(s.evl.memos.value[0], 3, s.cfg) && Current(s.evl.memos.value[1], 3, s.cfg)
      && t.evl.memos == Some([Kept(a, 6, 1), Kept(c, 0, 3)])
  {
    OtherIsRemembered(a, b);
    var ops := Repeats(a, 7) + [Arrives(false, b, 3)];
    RunGoesOn(STARTED, ops, SetCount(1));
    RunGoesOn(STARTED, ops + [SetCount(1)], Arrives(false, c, 3));
    var ms, low := [Kept(a, 6, 1), Kept(b, 0, 3)], SHORT.(count := 1);
    assert !Matches(ms[0], c, 3, low) && !Matches(ms[1], c, 3, low);
    assert FirstMatch(ms, c, 3, low, 0) == 2;
    assert Score(ms[0], 3, low) == 7 && Score(ms[1], 3, low) == 5;
    assert LeastScore(ms, 3, low, 2) == 1 && !AllEqual(ms, 3, low, 2);
    assert ms[1 := Kept(c, 0, 3)] == [ms[0], Kept(c, 0, 3)];
  }

  /** Every report a run writes counts at least one event, and at most the limit. */
  predicate ReportsWithin(notes: seq<Note>, limit: int) {
    forall i :: 0 <= i < |notes| && notes[i].Discarded? ==> 1 <= notes[i].count <= limit
  }

  lemma {:induction false} ReportedWithin(ms: seq<Memo>, now: int, cfg: Config)
    requires WithinLimit(ms, cfg)
    ensures ReportsWithin(Reports(ms), cfg.count) && ReportsWithin(DueReports(ms, now, cfg), cfg.count)
  {
    if ms != [] {
      ReportedWithin(ms[..|ms| - 1], now, cfg);
    }
  }

  lemma {:induction false} RunReportsWithin(s: System, ops: seq<Op>)
    requires Valid(s) && SystemWithinLimit(s)
    requires forall i :: 0 <= i < |ops| ==> !ops[i].SetCount? && (ops[i].Arrives? ==> 0 < ops[i].now)
    requires ReportsWithin(s.evl.written, s.cfg.count) && ReportsWithin(s.pvt.written, s.cfg.count)
    ensures var t := Run(s, ops);
      SystemWithinLimit(t) && t.cfg.count == s.cfg.count
      && ReportsWithin(t.evl.written, s.cfg.count) && ReportsWithin(t.pvt.written, s.cfg.count)
  {
    if ops != [] {
      var n := |ops| - 1;
      RunReportsWithin(s, ops[..n]);
      var before := Run(s, ops[..n]);
      DoKeepsLimit(before, ops[n]);
      DoReportsWithin(before, ops[n]);
    }
  }

  lemma {:induction false} DoReportsWithin(s: System, op: Op)
    requires Valid(s) && SystemWithinLimit(s) && !op.SetCount?
    requires ReportsWithin(s.evl.written, s.cfg.count) && ReportsWithin(s.pvt.written, s.cfg.count)
    ensures var t := Do(s, op);
      t.cfg.count == s.cfg.count
      && ReportsWithin(t.evl.written, s.cfg.count) && ReportsWithin(t.pvt.written, s.cfg.count)
  {
    match op
    case Arrives(private, e, now) =>
      ArriveReportsWithin(if private then s.pvt else s.evl, s.equalityIndex, e, now, s.cfg);
    case Checks(nowEvl, nowPvt) =>
      QuietReportsWithin(s.evl, nowEvl, s.cfg);
      QuietReportsWithin(s.pvt, nowPvt, s.cfg);
    case _ =>
      QuietReportsWithin(s.evl, 0, s.cfg);
      QuietReportsWithin(s.pvt, 0, s.cfg);
  }

  lemma {:induction false} ArriveReportsWithin(l: Log, eq: int, e: Event, now: int, cfg: Config)
    requires Sound(l, cfg) && 0 < cfg.size && -1 <= eq && 0 < cfg.count && 0 <= cfg.interval
    requires l.memos.Some? ==> WithinLimit(l.memos.value, cfg)
    requires ReportsWithin(l.written, cfg.count)
    ensures ReportsWithin(Arrive(l, eq, e, now, cfg).log.written, cfg.count)
  {
    if cfg.on {
      assert WithinLimit(Memos(l, cfg), cfg);
    }
  }

  lemma {:induction false} QuietReportsWithin(l: Log, now: int, cfg: Config)
    requires Sound(l, cfg) && (l.memos.Some? ==> WithinLimit(l.memos.value, cfg))
    requires ReportsWithin(l.written, cfg.count)
    ensures ReportsWithin(Check(l, now, cfg).written, cfg.count) && ReportsWithin(Dump(l).written, cfg.count)
  {
    if l.memos.Some? {
      ReportedWithin(l.memos.value, now, cfg);
    }
  }

  // ---------------------------------------------------------------------------------------------------------
  // Which events are dropped

  /** An event is dropped exactly when it repeats a remembered one that is younger than the timeout. */
  lemma {:induction false} DroppedExactlyWhen(l: Log, eq: int, e: Event, now: int, cfg: Config)
    requires Sound(l, cfg) && 0 < cfg.size && -1 <= eq
    ensures Arrive(l, eq, e, now, cfg).dropped
      <==> l.memos.Some? && exists k :: 0 <= k < cfg.size && Matches(l.memos.value[k], e, now, cfg)
    ensures !Arrive(l, eq, e, now, cfg).dropped
      ==> |Arrive(l, eq, e, now, cfg).log.written| > |l.written|
          && Arrive(l, eq, e, now, cfg).log.written[|Arrive(l, eq, e, now, cfg).log.written| - 1] == Logged(e)
  {
    if cfg.on {
      var ms := Memos(l, cfg);
      var i := FirstMatch(ms, e, now, cfg, 0);
      assert i < |ms| ==> Matches(ms[i], e, now, cfg);
    }
  }

  /** Memos of the same event started at least the timeout apart. */
  predicate Apart(ms: seq<Memo>, timeout: int) {
    forall i, j :: 0 <= i < j < |ms| && ms[i].Kept? && ms[j].Kept? && ms[i].event == ms[j].event ==>
      ms[i].start + timeout <= ms[j].start || ms[j].start + timeout <= ms[i].start
  }

  predicate SystemApart(s: System) {
    (s.evl.memos.Some? ==> Apart(s.evl.memos.value, s.cfg.timeout))
    && (s.pvt.memos.Some? ==> Apart(s.pvt.memos.value, s.cfg.timeout))
  }

  lemma {:induction false} ArriveApart(l: Log, eq: int, e: Event, now: int, cfg: Config)
    requires Sound(l, cfg) && 0 < cfg.size && -1 <= eq
    requires l.memos.Some? ==> Apart(l.memos.value, cfg.timeout)
    ensures var t := Arrive(l, eq, e, now, cfg).log; t.memos.Some? ==> Apart(t.memos.value, cfg.timeout)
  {
    if cfg.on {
      var ms := Memos(l, cfg);
      var i := FirstMatch(ms, e, now, cfg, 0);
      if i == |ms| {
        var v := Victim(ms, now, cfg, eq);
        var ts := ms[v := Kept(e, 0, now)];
        forall k | 0 <= k < |ms| && k != v && ts[k].Kept? && ts[k].event == e
          ensures ts[k].start + cfg.timeout <= now
        {
          assert !Matches(ms[k], e, now, cfg);
        }
        assert Apart(ts, cfg.timeout);
      }
    }
  }

  /** So at any time not before either start, at most one memo is repeated by an arriving event. */
  lemma {:induction false} OneMemoMatches(s: System, ops: seq<Op>, private: bool, e: Event, now: int, i: nat, j: nat)
    requires Valid(s) && SystemApart(s)
    requires var t := Run(s, ops);
      var ms := Memos(if private then t.pvt else t.evl, t.cfg);
      i < |ms| && j < |ms| && Matches(ms[i], e, now, t.cfg) && Matches(ms[j], e, now, t.cfg)
      && ms[i].start <= now && ms[j].start <= now
    ensures i == j
  {
    RunApart(s, ops);
  }

  lemma {:induction false} CheckApart(l: Log, now: int, cfg: Config)
    requires l.memos.Some? ==> Apart(l.memos.value, cfg.timeout)
    ensures var t := Check(l, now, cfg); t.memos.Some? ==> Apart(t.memos.value, cfg.timeout)
  {
  }

  lemma {:induction false} RunApart(s: System, ops: seq<Op>)
    requires Valid(s) && SystemApart(s)
    ensures SystemApart(Run(s, ops)) && Run(s, ops).cfg.timeout == s.cfg.timeout
  {
    hide Arrive, Apart;
    if ops != [] {
      var n := |ops| - 1;
      RunApart(s, ops[..n]);
      var t := Run(s, ops[..n]);
      match ops[n]
      case Arrives(private, e, now) => ArriveApart(if private then t.pvt else t.evl, t.equalityIndex, e, now, t.cfg);
      case Checks(nowEvl, nowPvt) =>
        CheckApart(t.evl, nowEvl, t.cfg);
        CheckApart(t.pvt, nowPvt, t.cfg);
      case _ =>
    }
  }
}
