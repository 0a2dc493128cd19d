/**
 What the forward reader has copied when it returns, in every run of the protocol: what it had when it last came to
 stand somewhere in the log, and from there on every matching record.
 */
module ReaderLanding {
  import opened Framing
  import opened LogAccess
  import opened Compaction
  import EventWriter
  import opened MaintenanceProtocol
  import opened ProtocolSafety

  /** The records that the filter lets through, in order. */
  function Filtered(rs: seq<Rec>, filter: Query): seq<Rec> {
    if rs == [] then []
    else
      var r := rs[|rs| - 1];
      Filtered(rs[..|rs| - 1], filter) + if Matches(filter, r) then [r] else []
  }

  lemma {:induction false} FilteredNext(rs: seq<Rec>, i: nat, k: nat, filter: Query)
    requires i <= k < |rs|
    ensures Filtered(rs[i..k + 1], filter)
         == Filtered(rs[i..k], filter) + if Matches(filter, rs[k]) then [rs[k]] else []
  {
    hide Matches;
    assert rs[i..k + 1][..k - i] == rs[i..k] && rs[i..k + 1][k - i] == rs[k];
  }

  lemma {:induction false} FilteredSkips(rs: seq<Rec>, i: nat, k: nat, j: nat, filter: Query)
    requires i <= k <= j <= |rs| && forall n :: k <= n < j ==> !Matches(filter, rs[n])
    ensures Filtered(rs[i..j], filter) == Filtered(rs[i..k], filter)
    decreases j
  {
    hide Filtered, Matches;
    if k < j {
      FilteredSkips(rs, i, k, j - 1, filter);
      FilteredNext(rs, i, j - 1, filter);
    }
  }

  lemma {:induction false} FilteredHas(rs: seq<Rec>, filter: Query)
    ensures forall r :: r in Filtered(rs, filter) <==> r in rs && Matches(filter, r)
  {
    hide Matches;
    if rs != [] {
      FilteredHas(rs[..|rs| - 1], filter);
      assert rs == rs[..|rs| - 1] + [rs[|rs| - 1]];
    }
  }

  /** The steps after which the read pointer stands somewhere else than its last read or seek of the loop left it. */
  predicate Lands(step: Step) {
    step.OpenLog? || step.Resync? || step.ResyncEnd?
  }

  /** The state after the last such step of a run. */
  function Landing(s0: State, steps: seq<Step>, filter: Query): State
    decreases |steps|
  {
    if steps == [] then s0
    else if Lands(steps[|steps| - 1]) then After(s0, steps, filter)
    else Landing(s0, steps[..|steps| - 1], filter)
  }

  /** Since the landing t, records have at most been added, and those matching up to the read pointer were copied. */
  ghost predicate Since(t: State, s: State, filter: Query) {
    s.view.pc in {Seeking, Reading} && Current(s) ==>
      && t.aux.recs <= s.aux.recs && t.aux.k <= |t.aux.recs| && t.aux.k <= s.aux.k <= |s.aux.recs|
      && s.view.out == t.view.out + Filtered(s.aux.recs[t.aux.k..s.aux.k], filter)
  }

  lemma {:induction false} SinceItself(s: State, filter: Query)
    requires DescInv(s)
    ensures Since(s, s, filter)
  {
    hide Matches, Offset;
    if Current(s) {
      assert s.aux.recs[s.aux.k..s.aux.k] == [];
      assert s.view.out + [] == s.view.out;
    }
  }

  /** Steps of the writer only add records, those of the compactor leave them or make the reader's view outdated. */
  ghost predicate OthersMoved(s: State, s': State) {
    && s'.view == s.view && s'.aux.k == s.aux.k
    && (Current(s') ==> Current(s) && s.aux.recs <= s'.aux.recs)
  }

  lemma {:induction false} OthersSince(t: State, s: State, s': State, filter: Query)
    requires Since(t, s, filter) && OthersMoved(s, s')
    ensures Since(t, s', filter)
  {
    hide Filtered;
    if s'.view.pc in {Seeking, Reading} && Current(s') {
      assert s'.aux.recs[t.aux.k..s.aux.k] == s.aux.recs[t.aux.k..s.aux.k];
    }
  }

  lemma {:induction false} OthersMove(s: State, step: Step, filter: Query)
    requires DescInv(s) && Enabled(s, step) && (WriterEnabled(s, step) || ManagerEnabled(s, step))
    ensures OthersMoved(s, Apply(s, step, filter))
  {
    hide Offset, Frames, SetGeneration, CompactTurn, TruncateAtHole, EventWriter.WithId, EventWriter.DropNote;
  }

  lemma {:induction false} SeekSince(t: State, s: State, s': State, filter: Query)
    requires FileInv(s) && DescInv(s) && s.view.pc == Seeking && filter.Some? && Since(t, s, filter)
    requires s' == ViewStep(s, SeekMatch, filter)
    ensures Since(t, s', filter)
  {
    hide ViewStep, FileInv, Offset, Filtered, Matches;
    SeekEffect(s, filter);
    if Current(s) {
      FilteredSkips(s.aux.recs, t.aux.k, s.aux.k, NextMatch(s.aux.recs, s.aux.k, filter), filter);
    }
  }

  lemma {:induction false} ReadSince(t: State, s: State, s': State, filter: Query)
    requires FileInv(s) && DescInv(s) && MatchInv(s, filter) && s.view.pc == Reading && Since(t, s, filter)
    requires s' == ViewStep(s, ReadNext, filter)
    ensures Since(t, s', filter)
  {
    hide ViewStep, FileInv, Offset, Filtered;
    ReadEffect(s, filter);
    if Current(s) && s.aux.k < |s.aux.recs| {
      FilteredNext(s.aux.recs, t.aux.k, s.aux.k, filter);
      Associative(t.view.out, Filtered(s.aux.recs[t.aux.k..s.aux.k], filter), [s.aux.recs[s.aux.k]]);
    }
  }

  lemma {:induction false} StepSince(t: State, s: State, step: Step, filter: Query)
    requires Inv(s, filter) && Enabled(s, step) && !Lands(step) && Since(t, s, filter)
    ensures Since(t, Apply(s, step, filter), filter)
  {
    hide ViewStep, FileInv, DescInv, MatchInv, OutInv, OrderInv, Since, WriterStep, ManagerStep;
    if step.SeekMatch? {
      SeekMeansFilter(s, filter);
      SeekSince(t, s, Apply(s, step, filter), filter);
    } else if step.ReadNext? {
      ReadSince(t, s, Apply(s, step, filter), filter);
    } else if step.GiveUp? {
      GaveUp(t, s, filter);
    } else {
      OthersMove(s, step, filter);
      OthersSince(t, s, Apply(s, step, filter), filter);
    }
  }

  lemma {:induction false} SeekMeansFilter(s: State, filter: Query)
    requires MatchInv(s, filter) && s.view.pc == Seeking
    ensures filter.Some?
  {
  }

  lemma {:induction false} GaveUp(t: State, s: State, filter: Query)
    ensures Since(t, ViewStep(s, GiveUp, filter), filter)
  {
  }

  lemma {:induction false} RunSince(s0: State, steps: seq<Step>, filter: Query)
    requires Init(s0) && Run(s0, steps, filter)
    ensures Inv(After(s0, steps, filter), filter)
    ensures Since(Landing(s0, steps, filter), After(s0, steps, filter), filter)
    decreases |steps|
  {
    hide Init, Inv, Since, Enabled, Apply;
    RunKeeps(s0, steps, filter);
    if steps == [] || Lands(steps[|steps| - 1]) {
      InvHasDesc(After(s0, steps, filter), filter);
      SinceItself(After(s0, steps, filter), filter);
    } else {
      var n := |steps| - 1;
      RunSince(s0, steps[..n], filter);
      StepSince(Landing(s0, steps[..n], filter), After(s0, steps[..n], filter), steps[n], filter);
    }
  }

  lemma {:induction false} InvHasDesc(s: State, filter: Query)
    requires Inv(s, filter)
    ensures DescInv(s)
  {
    hide FileInv, DescInv, MatchInv, OutInv, OrderInv;
  }

  /**
   When the reader returns, in every run, races and notes about drops included: its output is what it had copied at
   its last landing and then every matching record from there to the end of the log, in order. So it has copied every
   matching record of the log exactly when it has copied those that stood before it where it landed.
   */
  lemma {:induction false} ReaderCopiesFromLandingOn(s0: State, steps: seq<Step>, step: Step, filter: Query)
    requires Init(s0) && Run(s0, steps, filter) && Returns(After(s0, steps, filter), step, filter)
    ensures var s, t := After(s0, steps, filter), Landing(s0, steps, filter);
            var out := Apply(s, step, filter).view.out;
            && t.aux.recs <= s.aux.recs && t.aux.k <= |t.aux.recs|
            && out == t.view.out + Filtered(s.aux.recs[t.aux.k..], filter)
            && ((forall r <- s.aux.recs | Matches(filter, r) :: r in out)
                <==> forall r <- t.aux.recs[..t.aux.k] | Matches(filter, r) :: r in out)
  {
    hide Run, After, Init, Landing, Inv, Returns, Apply, Matches, Filtered;
    var s, t := After(s0, steps, filter), Landing(s0, steps, filter);
    RunSince(s0, steps, filter);
    ReturnState(s, step, filter);
    var recs, k := s.aux.recs, t.aux.k;
    FilteredSkips(recs, k, s.aux.k, |recs|, filter);
    assert recs[k..|recs|] == recs[k..];
    FilteredHas(recs[k..], filter);
    assert recs == recs[..k] + recs[k..] && recs[..k] == t.aux.recs[..k];
  }
}
