/**
 evlogd's arrays behind duplicate suppression: one pool of record slots shared by the lookback arrays of both logs.
 Each routine is proved against DupSuppression, and slots are owned exactly as the lookback arrays say.
 */
module DupBuffers {
  import opened Options
  import opened DupSuppression

  /** A slot of the pool. */
  datatype EventBuffer = EventBuffer(rec: Event, inUse: bool)

  const BLANK := Event(0, 0, 0, 0, 0, 0, 0, 0, 0, 0, 0, [])

  /** A pointer to the record of a slot. */
  datatype RecPtr = Null | To(slot: nat)

  datatype DupBuffer = DupBuffer(rec: RecPtr, dupCount: int, bufIndex: nat, timeStart: int)

  // ---------------------------------------------------------------------------------------------------------
  // Slot ownership

  predicate Uses(ds: seq<DupBuffer>, slot: nat) {
    exists i :: 0 <= i < |ds| && ds[i].rec == To(slot)
  }

  /** Every element is empty, or points to a slot in use and knows its index. */
  predicate Sane(ds: seq<DupBuffer>, buf: seq<EventBuffer>) {
    forall i :: 0 <= i < |ds| ==>
      match ds[i].rec
      case Null => ds[i].dupCount == 0 && ds[i].timeStart == 0
      case To(slot) => slot < |buf| && buf[slot].inUse && ds[i].bufIndex == slot
  }

  /** Is empty, or points to a slot and knows its index. */
  predicate Points(d: DupBuffer, buf: seq<EventBuffer>) {
    match d.rec
    case Null => d.dupCount == 0
    case To(slot) => slot < |buf| && d.bufIndex == slot
  }

  predicate Pointed(ds: seq<DupBuffer>, buf: seq<EventBuffer>) {
    forall i :: 0 <= i < |ds| ==> Points(ds[i], buf)
  }

  predicate Distinct(ds: seq<DupBuffer>) {
    forall i, j :: 0 <= i < j < |ds| && ds[i].rec.To? ==> ds[i].rec != ds[j].rec
  }

  /** The slots in use are exactly the distinct slots that the elements point to. */
  predicate Owns(ds: seq<DupBuffer>, buf: seq<EventBuffer>) {
    && Sane(ds, buf) && Distinct(ds)
    && forall slot: nat :: slot < |buf| && buf[slot].inUse ==> Uses(ds, slot)
  }

  ghost function SlotsOf(ds: seq<DupBuffer>): (r: set<nat>)
    ensures |r| <= |ds| && forall slot :: slot in r <==> Uses(ds, slot)
  {
    if ds == [] then {}
    else
      var n := |ds| - 1;
      var r := SlotsOf(ds[..n]) + if ds[n].rec.To? then {ds[n].rec.slot} else {};
      assert forall slot :: Uses(ds, slot) <==> Uses(ds[..n], slot) || ds[n].rec == To(slot) by {
        forall slot ensures Uses(ds, slot) <==> Uses(ds[..n], slot) || ds[n].rec == To(slot) {
          if Uses(ds, slot) && ds[n].rec != To(slot) {
            var i :| 0 <= i < |ds| && ds[i].rec == To(slot);
            assert ds[..n][i].rec == To(slot);
          }
        }
      }
      r
  }

  lemma {:induction false} Below(n: nat, s: set<nat>)
    requires forall k :: 0 <= k < n ==> k in s
    ensures n <= |s|
  {
    if n > 0 {
      var rest := s - {n - 1};
      assert forall k :: 0 <= k < n - 1 ==> k in rest;
      Below(n - 1, rest);
    }
  }

  /** With more slots than elements one slot is free. */
  lemma {:induction false} FreeSlotExists(ds: seq<DupBuffer>, buf: seq<EventBuffer>)
    requires Owns(ds, buf) && |ds| < |buf|
    ensures exists slot :: 0 <= slot < |buf| && !buf[slot].inUse
  {
    if forall slot :: 0 <= slot < |buf| ==> buf[slot].inUse {
      Below(|buf|, SlotsOf(ds));
    }
  }

  lemma {:induction false} OwnsSwapped(a: seq<DupBuffer>, b: seq<DupBuffer>, buf: seq<EventBuffer>)
    requires Owns(a + b, buf)
    ensures Owns(b + a, buf)
  {
    var ab, ba := a + b, b + a;
    assert forall i :: 0 <= i < |ba| ==> ba[i] == if i < |b| then ab[|a| + i] else ab[i - |b|];
    forall slot: nat | Uses(ab, slot) ensures Uses(ba, slot) {
      var i :| 0 <= i < |ab| && ab[i].rec == To(slot);
      assert ba[if i < |a| then |b| + i else i - |a|].rec == To(slot);
    }
  }

  /** Emptying an element frees its slot. */
  lemma {:induction false} Released(ds: seq<DupBuffer>, buf: seq<EventBuffer>, i: nat, d: DupBuffer, slot: nat)
    requires Owns(ds, buf) && i < |ds| && ds[i].rec == To(slot)
    requires d.rec.Null? && d.dupCount == 0 && d.timeStart == 0
    ensures slot < |buf| && Owns(ds[i := d], buf[slot := buf[slot].(inUse := false)])
  {
    var ds', buf' := ds[i := d], buf[slot := buf[slot].(inUse := false)];
    forall s: nat | s < |buf'| && buf'[s].inUse ensures Uses(ds', s) {
      var j :| 0 <= j < |ds| && ds[j].rec == To(s);
      assert ds'[j].rec == To(s);
    }
  }

  /** Pointing an empty element to a free slot takes the slot. */
  lemma {:induction false} Taken(ds: seq<DupBuffer>, buf: seq<EventBuffer>, i: nat, d: DupBuffer, slot: nat)
    requires Owns(ds, buf) && i < |ds| && ds[i].rec.Null? && slot < |buf| && !buf[slot].inUse
    requires d.rec == To(slot) && d.bufIndex == slot
    ensures Owns(ds[i := d], buf[slot := buf[slot].(inUse := true)])
  {
    var ds', buf' := ds[i := d], buf[slot := buf[slot].(inUse := true)];
    forall s: nat | s < |buf'| && buf'[s].inUse ensures Uses(ds', s) {
      if s == slot {
        assert ds'[i].rec == To(s);
      } else {
        var j :| 0 <= j < |ds| && ds[j].rec == To(s);
        assert ds'[j].rec == To(s);
      }
    }
  }

  /** Changing the count of an element does not concern its slot. */
  lemma {:induction false} Counted(ds: seq<DupBuffer>, buf: seq<EventBuffer>, i: nat, d: DupBuffer)
    requires Owns(ds, buf) && i < |ds| && ds[i].rec.To? && d.rec == ds[i].rec && d.bufIndex == ds[i].bufIndex
    ensures Owns(ds[i := d], buf)
  {
    var ds' := ds[i := d];
    forall s: nat | s < |buf| && buf[s].inUse ensures Uses(ds', s) {
      var j :| 0 <= j < |ds| && ds[j].rec == To(s);
      assert ds'[j].rec == To(s);
    }
  }

  /** Empty elements own nothing. */
  lemma {:induction false} EmptyAdded(ds: seq<DupBuffer>, buf: seq<EventBuffer>, empty: seq<DupBuffer>)
    requires Owns(ds, buf)
    requires forall i :: 0 <= i < |empty| ==> empty[i] == DupBuffer(Null, 0, 0, 0)
    ensures Owns(empty + ds, buf)
  {
    var all := empty + ds;
    forall s: nat | s < |buf| && buf[s].inUse ensures Uses(all, s) {
      var j :| 0 <= j < |ds| && ds[j].rec == To(s);
      assert all[|empty| + j].rec == To(s);
    }
  }

  // ---------------------------------------------------------------------------------------------------------
  // What the arrays remember

  function ToMemo(d: DupBuffer, buf: seq<EventBuffer>): Memo {
    if d.rec.Null? || d.rec.slot >= |buf| then Free else Kept(buf[d.rec.slot].rec, d.dupCount, d.timeStart)
  }

  function ToMemos(ds: seq<DupBuffer>, buf: seq<EventBuffer>): (r: seq<Memo>)
    ensures |r| == |ds| && forall i :: 0 <= i < |ds| ==> r[i] == ToMemo(ds[i], buf)
  {
    seq(|ds|, i requires 0 <= i < |ds| => ToMemo(ds[i], buf))
  }

  predicate SameRecs(a: seq<EventBuffer>, b: seq<EventBuffer>) {
    |a| == |b| && forall i :: 0 <= i < |a| ==> a[i].rec == b[i].rec
  }

  lemma {:induction false} MemosSeeRecsOnly(ds: seq<DupBuffer>, a: seq<EventBuffer>, b: seq<EventBuffer>)
    requires SameRecs(a, b)
    ensures ToMemos(ds, a) == ToMemos(ds, b)
  {
  }

  /** Reading a new event into a free slot disturbs no remembered record. */
  lemma {:induction false} FreeSlotUnseen(mine: seq<DupBuffer>, others: seq<DupBuffer>, buf: seq<EventBuffer>,
      slot: nat, e: Event)
    requires Owns(mine + others, buf) && slot < |buf| && !buf[slot].inUse
    ensures var read := buf[slot := EventBuffer(e, false)];
      Owns(mine + others, read)
      && ToMemos(mine, read) == ToMemos(mine, buf) && ToMemos(others, read) == ToMemos(others, buf)
  {
    var read := buf[slot := EventBuffer(e, false)];
    var all := mine + others;
    assert forall i :: 0 <= i < |mine| ==> all[i] == mine[i];
    assert forall i :: 0 <= i < |others| ==> all[|mine| + i] == others[i];
    assert ToMemos(mine, read) == ToMemos(mine, buf);
    assert ToMemos(others, read) == ToMemos(others, buf);
  }

  /** What the element at i means, given whose slots are whose. */
  lemma {:induction false} ElementMeans(mine: seq<DupBuffer>, others: seq<DupBuffer>, buf: seq<EventBuffer>, i: nat)
    requires Owns(mine + others, buf) && i < |mine|
    ensures Points(mine[i], buf) && (mine + others)[i] == mine[i]
    ensures mine[i].rec.Null? ==> mine[i].timeStart == 0
  {
    assert (mine + others)[i] == mine[i];
  }

  // ---------------------------------------------------------------------------------------------------------
  // One lookback array and the pool; others are the elements of the other log's array

  /** Empties the element at i and frees its slot. */
  method Clear(mine: array<DupBuffer>, buf: array<EventBuffer>, i: nat, ghost others: seq<DupBuffer>)
    requires i < mine.Length && mine[i].rec.To? && Owns(mine[..] + others, buf[..])
    modifies mine, buf
    ensures Owns(mine[..] + others, buf[..]) && SameRecs(buf[..], old(buf[..])) && mine[i].rec.Null?
    ensures ToMemos(mine[..], buf[..]) == old(ToMemos(mine[..], buf[..]))[i := Free]
    ensures forall k :: 0 <= k < buf.Length && !old(buf[k].inUse) ==> buf[k] == old(buf[k])
  {
    hide Owns;
    ghost var was, bufWas := mine[..], buf[..];
    ElementMeans(was, others, bufWas, i);
    var slot := mine[i].bufIndex;
    ghost var cleared := DupBuffer(Null, 0, slot, 0);
    Released(was + others, bufWas, i, cleared, slot);
    mine[i] := DupBuffer(Null, 0, slot, 0);
    buf[slot] := buf[slot].(inUse := false);
    assert mine[..] + others == (was + others)[i := cleared];
    assert buf[..] == bufWas[slot := bufWas[slot].(inUse := false)];
  }

  /** Points the empty element at i to the event just read into slot. */
  method Keep(mine: array<DupBuffer>, buf: array<EventBuffer>, i: nat, slot: nat, now: int,
      ghost others: seq<DupBuffer>)
    requires i < mine.Length && mine[i].rec.Null? && Owns(mine[..] + others, buf[..])
    requires slot < buf.Length && !buf[slot].inUse
    modifies mine, buf
    ensures Owns(mine[..] + others, buf[..]) && SameRecs(buf[..], old(buf[..]))
    ensures ToMemos(mine[..], buf[..]) == old(ToMemos(mine[..], buf[..]))[i := Kept(old(buf[slot].rec), 0, now)]
  {
    hide Owns;
    ghost var was, bufWas := mine[..], buf[..];
    ghost var kept := DupBuffer(To(slot), 0, slot, now);
    Taken(was + others, bufWas, i, kept, slot);
    buf[slot] := buf[slot].(inUse := true);
    mine[i] := DupBuffer(To(slot), 0, slot, now);
    assert mine[..] + others == (was + others)[i := kept];
    assert buf[..] == bufWas[slot := bufWas[slot].(inUse := true)];
  }

  /** Moves the element at i to the event in slot, freeing the slot it pointed to. */
  method PointTo(mine: array<DupBuffer>, buf: array<EventBuffer>, i: nat, slot: nat, now: int,
      ghost others: seq<DupBuffer>)
    requires i < mine.Length && Owns(mine[..] + others, buf[..]) && slot < buf.Length && !buf[slot].inUse
    modifies mine, buf
    ensures Owns(mine[..] + others, buf[..]) && SameRecs(buf[..], old(buf[..]))
    ensures ToMemos(mine[..], buf[..]) == old(ToMemos(mine[..], buf[..]))[i := Kept(old(buf[slot].rec), 0, now)]
  {
    hide Owns, ToMemos;
    if mine[i].rec.To? {
      Clear(mine, buf, i, others);
    }
    Keep(mine, buf, i, slot, now, others);
  }

  method SetDupCount(mine: array<DupBuffer>, buf: array<EventBuffer>, i: nat, count: int, ghost others: seq<DupBuffer>)
    requires i < mine.Length && mine[i].rec.To? && Owns(mine[..] + others, buf[..])
    modifies mine
    ensures Owns(mine[..] + others, buf[..]) && mine[i] == old(mine[i]).(dupCount := count)
    ensures ToMemo(old(mine[i]), buf[..]).Kept?
    ensures ToMemos(mine[..], buf[..])
         == old(ToMemos(mine[..], buf[..]))[i := ToMemo(old(mine[i]), buf[..]).(count := count)]
  {
    hide Owns;
    ghost var was := mine[..];
    ElementMeans(was, others, buf[..], i);
    Counted(was + others, buf[..], i, was[i].(dupCount := count));
    mine[i] := mine[i].(dupCount := count);
    assert mine[..] + others == (was + others)[i := was[i].(dupCount := count)];
  }

  // ---------------------------------------------------------------------------------------------------------

  function ComputeScore(d: DupBuffer, now: int, cfg: Config, ghost buf: seq<EventBuffer>): (score: int)
    requires Points(d, buf)
    ensures score == Score(ToMemo(d, buf), now, cfg)
  {
    if d.rec.Null? then 0
    else if d.timeStart != 0 && now - d.timeStart > cfg.interval then d.timeStart + d.dupCount
    else if d.timeStart != 0 then d.timeStart + cfg.interval + d.dupCount + cfg.count
    else 2 * cfg.count + now + cfg.interval
  }

  class LogInfo {
    var dupCount: int
    var dupRecs: array?<DupBuffer>
    var written: seq<Note>

    constructor ()
      ensures dupCount == 0 && dupRecs == null && written == []
    {
      dupCount, dupRecs, written := 0, null, [];
    }

    ghost function Entries(): seq<DupBuffer>
      reads this, dupRecs
    {
      if dupRecs == null then [] else dupRecs[..]
    }

    ghost function Contents(buf: seq<EventBuffer>): Log
      reads this, dupRecs
    {
      Log(if dupRecs == null then None else Some(ToMemos(dupRecs[..], buf)), dupCount, written)
    }

    /** The lookback array has its size, and with the other log's elements owns the slots in use. */
    ghost predicate Fits(buf: array<EventBuffer>, cfg: Config, others: seq<DupBuffer>)
      reads this, dupRecs, buf
    {
      (dupRecs != null ==> cfg.on && dupRecs.Length == cfg.size) && Owns(Entries() + others, buf[..])
    }

    method WriteDiscardEvent(e: Event, count: int)
      modifies this`written
      ensures written == old(written) + [Discarded(e.facility, e.eventType, count)]
    {
      written := written + [Discarded(e.facility, e.eventType, count)];
    }

    /** Makes the lookback array if it is not there. */
    method EnsureDupRecs(buf: array<EventBuffer>, cfg: Config, ghost others: seq<DupBuffer>)
      requires Fits(buf, cfg, others) && cfg.on
      modifies this`dupRecs
      ensures Fits(buf, cfg, others) && dupRecs != null
      ensures if old(dupRecs) == null then fresh(dupRecs) else dupRecs == old(dupRecs)
      ensures ToMemos(dupRecs[..], buf[..]) == Memos(old(Contents(buf[..])), cfg)
    {
      hide Owns;
      if dupRecs == null {
        assert Entries() + others == others;
        dupRecs := new DupBuffer[cfg.size](_ => DupBuffer(Null, 0, 0, 0));
        EmptyAdded(others, buf[..], dupRecs[..]);
        assert ToMemos(dupRecs[..], buf[..]) == Calloc(cfg.size);
      }
    }

    /** One more repeat of the event at i: reported when there are enough, or the first is old enough. */
    method CountDuplicate(i: nat, e: Event, now: int, buf: array<EventBuffer>, cfg: Config,
        ghost others: seq<DupBuffer>)
      requires dupRecs != null && i < dupRecs.Length && Fits(buf, cfg, others)
      requires ToMemo(dupRecs[i], buf[..]).Kept? && ToMemo(dupRecs[i], buf[..]).event == e
      modifies this`dupCount, this`written, dupRecs, buf
      ensures Fits(buf, cfg, others) && SameRecs(buf[..], old(buf[..]))
      ensures Contents(buf[..])
           == CountRepeat(old(Contents(buf[..])), old(ToMemos(dupRecs[..], buf[..])), i, now, cfg)
    {
      hide Owns, ToMemos;
      ghost var ms := ToMemos(dupRecs[..], buf[..]);
      SetDupCount(dupRecs, buf, i, dupRecs[i].dupCount + 1, others);
      dupCount := dupCount + 1;
      var d := dupRecs[i];
      if d.dupCount == cfg.count || now - d.timeStart >= cfg.interval {
        WriteDiscardEvent(e, d.dupCount);
        Clear(dupRecs, buf, i, others);
        dupCount := dupCount - d.dupCount;
        assert ms[i := ms[i].(count := d.dupCount)][i := Free] == ms[i := Free];
      }
    }

    /** The event in slot takes the place of the element at i, whose pending count is reported first. */
    method Replace(i: nat, slot: nat, now: int, buf: array<EventBuffer>, cfg: Config, ghost others: seq<DupBuffer>)
      requires dupRecs != null && i < dupRecs.Length && Fits(buf, cfg, others)
      requires slot < buf.Length && !buf[slot].inUse
      modifies this`dupCount, this`written, dupRecs, buf
      ensures Fits(buf, cfg, others) && SameRecs(buf[..], old(buf[..]))
      ensures Contents(buf[..])
           == Remember(old(Contents(buf[..])), old(ToMemos(dupRecs[..], buf[..])), i, old(buf[slot].rec), now)
    {
      hide Owns, ToMemos;
      ElementMeans(dupRecs[..], others, buf[..], i);
      var d := dupRecs[i];
      if d.dupCount > 0 {
        WriteDiscardEvent(buf[d.rec.slot].rec, d.dupCount);
        dupCount := dupCount - d.dupCount;
      }
      PointTo(dupRecs, buf, i, slot, now, others);
    }

    /** One pass over the elements: the first that e repeats, else the one of least score and whether all are equal. */
    method Scan(e: Event, now: int, buf: array<EventBuffer>, cfg: Config, ghost others: seq<DupBuffer>)
      returns (found: nat, replace: nat, equalityFlag: bool)
      requires dupRecs != null && 0 < cfg.size && Fits(buf, cfg, others)
      ensures var ms := ToMemos(dupRecs[..], buf[..]);
        && found == FirstMatch(ms, e, now, cfg, 0)
        && (found == |ms| ==> replace == LeastScore(ms, now, cfg, |ms|) && equalityFlag == AllEqual(ms, now, cfg, |ms|))
    {
      hide Owns, ToMemos, Score, AllEqual, FirstMatch, LeastScore;
      ghost var ms, slots := ToMemos(dupRecs[..], buf[..]), buf[..];
      ghost var first := FirstMatch(ms, e, now, cfg, 0);
      AllEqualStep(ms, now, cfg, 0);
      forall k | 0 <= k < cfg.size ensures Points(dupRecs[k], slots) {
        ElementMeans(dupRecs[..], others, slots, k);
      }
      replace, equalityFlag := 0, true;
      var replaceScore := ComputeScore(dupRecs[0], now, cfg, slots);
      found := 0;
      while found < cfg.size
        invariant found <= cfg.size && first == FirstMatch(ms, e, now, cfg, found)
        invariant replace == if found == 0 then 0 else LeastScore(ms, now, cfg, found)
        invariant replaceScore == Score(ms[replace], now, cfg)
        invariant equalityFlag == AllEqual(ms, now, cfg, found)
        modifies {}
      {
        var d := dupRecs[found];
        assert ms[found] == ToMemo(d, slots);
        LeastScoreStep(ms, now, cfg, found);
        AllEqualStep(ms, now, cfg, found);
        AllEqualStep(ms, now, cfg, found + 1);
        if found > 0 {
          var score := ComputeScore(d, now, cfg, slots);
          if score != replaceScore {
            equalityFlag := false;
            if score < replaceScore {
              replace, replaceScore := found, score;
            }
          }
        }
        FirstMatchStep(ms, e, now, cfg, found);
        if now - d.timeStart < cfg.timeout && d.rec.To? && buf[d.rec.slot].rec == e {
          return;
        }
        found := found + 1;
      }
      FirstMatchStep(ms, e, now, cfg, cfg.size - 1);
    }

    /**
     Whether the event just read into slot is to be dropped; if not, it is remembered. The index goes round the
     array when all elements score the same.
     */
    method DropDupRecord(slot: nat, now: int, equalityIndex: int, buf: array<EventBuffer>, cfg: Config,
        ghost others: seq<DupBuffer>)
      returns (drop: bool, nextIndex: int)
      requires 0 < cfg.size && -1 <= equalityIndex && Fits(buf, cfg, others)
      requires slot < buf.Length && !buf[slot].inUse
      modifies this, dupRecs, buf
      ensures Fits(buf, cfg, others) && SameRecs(buf[..], old(buf[..]))
      ensures dupRecs != old(dupRecs) ==> fresh(dupRecs)
      ensures Arrival(Contents(buf[..]), nextIndex, drop)
           == DropDup(old(Contents(buf[..])), equalityIndex, old(buf[slot].rec), now, cfg)
    {
      hide Owns, ToMemos, Score, AllEqual, FirstMatch, LeastScore;
      nextIndex := equalityIndex;
      if !cfg.on {
        return false, nextIndex;
      }
      EnsureDupRecs(buf, cfg, others);
      var e := buf[slot].rec;
      var found, replace, equalityFlag := Scan(e, now, buf, cfg, others);
      if found < cfg.size {
        CountDuplicate(found, e, now, buf, cfg, others);
        return true, nextIndex;
      }
      if equalityFlag {
        nextIndex := equalityIndex + 1;
        if nextIndex >= cfg.size {
          nextIndex := 0;
        }
        replace := nextIndex;
      }
      Replace(replace, slot, now, buf, cfg, others);
      return false, nextIndex;
    }

    /** Logs the element's pending count if that is due, else shortens the wait to its time left. */
    method CheckElement(i: nat, now: int, tv: int, buf: array<EventBuffer>, cfg: Config, ghost others: seq<DupBuffer>)
      returns (wait: int)
      requires dupRecs != null && i < dupRecs.Length && Fits(buf, cfg, others)
      modifies this`dupCount, this`written, dupRecs, buf
      ensures Fits(buf, cfg, others) && SameRecs(buf[..], old(buf[..]))
      ensures Contents(buf[..]) == CheckOne(old(Contents(buf[..])), i, now, cfg)
      ensures wait == WaitOne(old(ToMemo(dupRecs[i], buf[..])), now, cfg, tv)
    {
      hide Owns, ToMemos;
      ElementMeans(dupRecs[..], others, buf[..], i);
      wait := tv;
      var d := dupRecs[i];
      if d.dupCount > 0 {
        var timeout := d.timeStart + cfg.interval - now;
        if timeout <= 0 {
          WriteDiscardEvent(buf[d.rec.slot].rec, d.dupCount);
          dupCount := dupCount - d.dupCount;
          Clear(dupRecs, buf, i, others);
        } else if tv == 0 || tv > timeout {
          wait := timeout;
        }
      }
    }

    method CheckDupEventTimeoutForLog(now: int, tv: int, buf: array<EventBuffer>, cfg: Config,
        ghost others: seq<DupBuffer>)
      returns (wait: int)
      requires Fits(buf, cfg, others)
      modifies this`dupCount, this`written, dupRecs, buf
      ensures Fits(buf, cfg, others) && SameRecs(buf[..], old(buf[..]))
      ensures Contents(buf[..]) == Check(old(Contents(buf[..])), now, cfg)
      ensures wait == CheckWait(old(Contents(buf[..])), now, cfg, tv)
    {
      assert dupRecs != null ==> dupRecs.Length == cfg.size;
      hide Owns, ToMemos, CheckedUpTo, CheckOne, WaitOne, Fits, SameRecs;
      if dupCount == 0 || dupRecs == null {
        return tv;
      }
      ghost var was := buf[..];
      ghost var l := Contents(buf[..]);
      CheckStarts(l, now, cfg, tv);
      var i := 0;
      wait := tv;
      while i < cfg.size
        invariant i <= cfg.size && dupRecs == old(dupRecs) && Fits(buf, cfg, others) && SameRecs(buf[..], was)
        invariant CheckedUpTo(l, Contents(buf[..]), i, now, cfg, tv, wait)
      {
        CheckGoesOn(l, Contents(buf[..]), i, now, cfg, tv, wait);
        wait := CheckElement(i, now, wait, buf, cfg, others);
        i := i + 1;
      }
      CheckEnds(l, Contents(buf[..]), now, cfg, tv, wait);
    }

    method DumpElement(i: nat, buf: array<EventBuffer>)
      requires dupRecs != null && i < dupRecs.Length && Points(dupRecs[i], buf[..])
      modifies this`written, dupRecs, buf
      ensures SameRecs(buf[..], old(buf[..])) && written == old(written + Report(ToMemo(dupRecs[i], buf[..])))
      ensures forall k :: 0 <= k < dupRecs.Length && k != i ==> dupRecs[k] == old(dupRecs[k])
    {
      var d := dupRecs[i];
      if d.dupCount > 0 {
        WriteDiscardEvent(buf[d.rec.slot].rec, d.dupCount);
        dupRecs[i] := DupBuffer(Null, 0, d.bufIndex, 0);
        buf[d.bufIndex] := buf[d.bufIndex].(inUse := false);
      }
    }

    /** Reports every pending count and drops the lookback array. The pool is left for the caller to replace. */
    method DumpDuplicatesBuffer(buf: array<EventBuffer>, cfg: Config)
      requires dupRecs != null ==> dupRecs.Length == cfg.size && Pointed(dupRecs[..], buf[..])
      modifies this, dupRecs, buf
      ensures dupRecs == null && SameRecs(buf[..], old(buf[..]))
      ensures Contents(buf[..]) == Dump(old(Contents(buf[..])))
    {
      hide ToMemos, Report;
      if dupRecs == null {
        return;
      }
      ghost var ms, was := ToMemos(dupRecs[..], buf[..]), buf[..];
      assert Reports(ms[..0]) == [];
      var i := 0;
      while i < cfg.size
        invariant i <= cfg.size && dupRecs == old(dupRecs) && SameRecs(buf[..], was)
        invariant forall k :: i <= k < cfg.size ==> Points(dupRecs[k], buf[..]) && ToMemo(dupRecs[k], buf[..]) == ms[k]
        invariant written == old(written) + Reports(ms[..i])
      {
        ReportsGrow(old(written), ms, i);
        DumpElement(i, buf);
        i := i + 1;
      }
      assert ms[..i] == ms;
      dupCount := 0;
      dupRecs := null;
    }
  }

  class Daemon {
    var buf: array<EventBuffer>
    const evlLog: LogInfo
    const pvtLog: LogInfo
    var cfg: Config
    var equalityIndex: int

    constructor (cfg: Config)
      requires 0 < cfg.size
      ensures Valid() && fresh(buf) && fresh(evlLog) && fresh(pvtLog)
      ensures Abs() == System(Log(None, 0, []), Log(None, 0, []), -1, cfg)
    {
      buf := new EventBuffer[if cfg.on then 2 * cfg.size + 1 else 1](_ => EventBuffer(BLANK, false));
      evlLog := new LogInfo();
      pvtLog := new LogInfo();
      this.cfg := cfg;
      equalityIndex := -1;
      new;
      assert evlLog.Entries() + pvtLog.Entries() == [];
    }

    ghost function Abs(): System
      reads this, buf, evlLog, pvtLog, evlLog.dupRecs, pvtLog.dupRecs
    {
      System(evlLog.Contents(buf[..]), pvtLog.Contents(buf[..]), equalityIndex, cfg)
    }

    /** The shape of the arrays, and that slots are owned as the lookback arrays say. */
    ghost predicate Tidy()
      reads this, buf, evlLog, pvtLog, evlLog.dupRecs, pvtLog.dupRecs
    {
      && evlLog != pvtLog && (evlLog.dupRecs != null ==> evlLog.dupRecs != pvtLog.dupRecs)
      && buf.Length == (if cfg.on then 2 * cfg.size + 1 else 1)
      && evlLog.Fits(buf, cfg, pvtLog.Entries())
      && pvtLog.Fits(buf, cfg, evlLog.Entries())
    }

    ghost predicate Valid()
      reads this, buf, evlLog, pvtLog, evlLog.dupRecs, pvtLog.dupRecs
    {
      Tidy() && DupSuppression.Valid(Abs())
    }

    /** The slot into which the next event is read: the first free one. */
    method NextSlot() returns (slot: nat)
      requires Valid()
      ensures slot < buf.Length && !buf[slot].inUse
      ensures forall k :: 0 <= k < slot ==> buf[k].inUse
    {
      slot := 0;
      ghost var all := evlLog.Entries() + pvtLog.Entries();
      FreeSlotExists(all, buf[..]);
      ghost var free :| 0 <= free < |buf[..]| && !buf[..][free].inUse;
      if cfg.on {
        while slot < buf.Length && buf[slot].inUse
          invariant slot <= free && forall k :: 0 <= k < slot ==> buf[k].inUse
          modifies {}
        {
          slot := slot + 1;
        }
      }
    }

    method ReadInto(slot: nat, e: Event)
      requires Valid() && slot < buf.Length && !buf[slot].inUse
      modifies buf
      ensures Valid() && Abs() == old(Abs()) && buf[slot] == EventBuffer(e, false)
    {
      hide Owns, ToMemos, Sound;
      FreeSlotUnseen(evlLog.Entries(), pvtLog.Entries(), buf[..], slot, e);
      FreeSlotUnseen(pvtLog.Entries(), evlLog.Entries(), buf[..], slot, e);
      ghost var was := buf[..];
      buf[slot] := EventBuffer(e, buf[slot].inUse);
      assert buf[..] == was[slot := EventBuffer(e, false)];
    }

    /** After one log's routine has run, the other log remembers what it did, and fits. */
    lemma {:induction false} OtherLogKept(linfo: LogInfo, other: LogInfo, was: seq<EventBuffer>)
      requires linfo.Fits(buf, cfg, other.Entries()) && SameRecs(buf[..], was)
      requires other.dupRecs != null ==> cfg.on && other.dupRecs.Length == cfg.size
      ensures other.Fits(buf, cfg, linfo.Entries()) && other.Contents(buf[..]) == other.Contents(was)
    {
      hide Owns, ToMemos;
      OwnsSwapped(linfo.Entries(), other.Entries(), buf[..]);
      MemosSeeRecsOnly(other.Entries(), was, buf[..]);
    }

    /** Logs the event in slot unless it is dropped. */
    method LogUnlessDropped(linfo: LogInfo, ghost other: LogInfo, slot: nat, now: int)
      requires Valid() && {linfo, other} == {evlLog, pvtLog} && slot < buf.Length && !buf[slot].inUse
      modifies this`equalityIndex, linfo, linfo.dupRecs, buf
      ensures Tidy() && other.Contents(buf[..]) == old(other.Contents(buf[..]))
      ensures var a := Arrive(old(linfo.Contents(buf[..])), old(equalityIndex), old(buf[slot].rec), now, cfg);
        linfo.Contents(buf[..]) == a.log && equalityIndex == a.equalityIndex
    {
      hide Owns, ToMemos, DropDup, Sound;
      ghost var was := buf[..];
      var e := buf[slot].rec;
      var drop, next := linfo.DropDupRecord(slot, now, equalityIndex, buf, cfg, other.Entries());
      equalityIndex := next;
      if !drop {
        linfo.written := linfo.written + [Logged(e)];
      }
      OtherLogKept(linfo, other, was);
    }

    /** Reads an event into a free slot, and logs it unless it is dropped. */
    method ProcessEvent(private: bool, e: Event, now: int)
      requires Valid()
      modifies this`equalityIndex, evlLog, pvtLog, evlLog.dupRecs, pvtLog.dupRecs, buf
      ensures Valid() && Abs() == Do(old(Abs()), Arrives(private, e, now))
    {
      hide Tidy, ToMemos, Arrive, Sound;
      DoKeeps(Abs(), Arrives(private, e, now));
      var slot := NextSlot();
      ReadInto(slot, e);
      if private {
        LogUnlessDropped(pvtLog, evlLog, slot, now);
      } else {
        LogUnlessDropped(evlLog, pvtLog, slot, now);
      }
    }

    /** Logs what is due in either log; returns the seconds to wait for the next report, 0 for none pending. */
    method CheckDupEventTimeout(nowEvl: int, nowPvt: int) returns (wait: int)
      requires Valid()
      modifies evlLog`dupCount, evlLog`written, evlLog.dupRecs, pvtLog`dupCount, pvtLog`written, pvtLog.dupRecs, buf
      ensures Valid() && Abs() == Do(old(Abs()), Checks(nowEvl, nowPvt))
      ensures wait == CheckWait(old(Abs()).pvt, nowPvt, cfg, CheckWait(old(Abs()).evl, nowEvl, cfg, 0))
    {
      hide Owns, ToMemos, Sound, Check;
      DoKeeps(Abs(), Checks(nowEvl, nowPvt));
      ghost var was := buf[..];
      wait := evlLog.CheckDupEventTimeoutForLog(nowEvl, 0, buf, cfg, pvtLog.Entries());
      OtherLogKept(evlLog, pvtLog, was);
      was := buf[..];
      wait := pvtLog.CheckDupEventTimeoutForLog(nowPvt, wait, buf, cfg, evlLog.Entries());
      OtherLogKept(pvtLog, evlLog, was);
    }

    lemma {:induction false} EntriesPointed(linfo: LogInfo, others: seq<DupBuffer>)
      requires linfo.Fits(buf, cfg, others)
      ensures Pointed(linfo.Entries(), buf[..])
    {
      forall i | 0 <= i < |linfo.Entries()| ensures Points(linfo.Entries()[i], buf[..]) {
        ElementMeans(linfo.Entries(), others, buf[..], i);
      }
    }

    /** Dumps both logs when duplicates were being discarded, and replaces the pool. */
    method ReallocBuffer(newsize: nat, prevOn: bool, curOn: bool)
      requires Valid() && prevOn == cfg.on
      modifies this`buf, this`cfg, evlLog, pvtLog, evlLog.dupRecs, pvtLog.dupRecs, buf
      ensures fresh(buf) && buf.Length == (if curOn then 2 * newsize + 1 else 1)
      ensures forall k :: 0 <= k < buf.Length ==> !buf[k].inUse
      ensures cfg == old(cfg).(size := newsize) && evlLog.dupRecs == null && pvtLog.dupRecs == null
      ensures evlLog.Contents(buf[..]) == Dump(old(evlLog.Contents(buf[..])))
      ensures pvtLog.Contents(buf[..]) == Dump(old(pvtLog.Contents(buf[..])))
    {
      hide ToMemos, Owns, Sound;
      if prevOn {
        EntriesPointed(evlLog, pvtLog.Entries());
        EntriesPointed(pvtLog, evlLog.Entries());
        ghost var was := buf[..];
        evlLog.DumpDuplicatesBuffer(buf, cfg);
        MemosSeeRecsOnly(pvtLog.Entries(), was, buf[..]);
        pvtLog.DumpDuplicatesBuffer(buf, cfg);
      }
      cfg := cfg.(size := newsize);
      buf := new EventBuffer[if curOn then 2 * newsize + 1 else 1](_ => EventBuffer(BLANK, false));
    }

    /** An empty pool and no lookback arrays are in order for any setting of the switch. */
    lemma {:induction false} FreshPool()
      requires evlLog != pvtLog && evlLog.dupRecs == null && pvtLog.dupRecs == null
      requires buf.Length == (if cfg.on then 2 * cfg.size + 1 else 1)
      requires forall k :: 0 <= k < buf.Length ==> !buf[k].inUse
      ensures Tidy()
    {
      assert evlLog.Entries() + pvtLog.Entries() == [];
    }

    /** One setting sent by evlconfig. */
    method UpdateConfValue(op: Op)
      requires Valid() && !op.Arrives? && !op.Checks?
      modifies this, evlLog, pvtLog, evlLog.dupRecs, pvtLog.dupRecs, buf
      ensures Valid() && Abs() == Do(old(Abs()), op)
    {
      hide ToMemos, Owns, Sound;
      DoKeeps(Abs(), op);
      match op
      case SetCount(value) => cfg := cfg.(count := if value == 0 then 10 * MAX_DUP_COUNT else value);
      case SetInterval(value) => cfg := cfg.(interval := if value == 0 then 24 * MAX_DUP_INTERVAL else value);
      case Switch(on) =>
        if !cfg.on && on {
          ReallocBuffer(cfg.size, false, true);
          cfg := cfg.(on := true);
          FreshPool();
        } else if cfg.on && !on {
          ReallocBuffer(cfg.size, true, false);
          cfg := cfg.(on := false);
          FreshPool();
        }
      case SetSize(value) =>
        if cfg.size != value {
          ReallocBuffer(if value == 0 then DEFAULT_DUP_ARRAY_SIZE else value, cfg.on, cfg.on);
          FreshPool();
        }
    }
  }
}
