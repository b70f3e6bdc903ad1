/**
 * What a span was charged against the eras in it: an account pays, for each span, the largest of its era
 * slashes. A nominator's is the sum over the validators it backs, a validator's the part of its own stake.
 */
module SpanCover {
  import opened Numbers
  import opened Spans
  import opened SlashStore
  import SlashHistory
  import SpanStability
  import EraSlash

  // ---------- the invariants ----------

  /** What a validator's own stake has been slashed for an era. */
  function OwnSlashOf(st: Store, era: nat, a: AccountId): nat
  {
    if (era, a) in st.validatorSlash then st.validatorSlash[(era, a)].1 else 0
  }

  function LargestOf(st: Store, era: nat, a: AccountId): nat
  {
    Max(NominatorSlashOf(st, era, a), OwnSlashOf(st, era, a))
  }

  /** A slash that is due for an era is within what was submitted to the span that the era belongs to. */
  ghost predicate CoverAt(st: Store, log: Log, clock: nat, a: AccountId, era: nat, due: nat)
  {
    && (due > 0 ==> era <= clock && a in st.spans)
    && (a in st.spans && WellFormed(st.spans[a]) ==>
          match Find(st.spans[a], era)
          case Some(i) => due <= SlashHistory.MaxSubmitted(log, a, i)
          case None => true)
  }

  /** Both slashes due for an era are covered. */
  ghost predicate CoversBoth(st: Store, log: Log, clock: nat, a: AccountId, era: nat)
  {
    && CoverAt(st, log, clock, a, era, NominatorSlashOf(st, era, a))
    && CoverAt(st, log, clock, a, era, OwnSlashOf(st, era, a))
  }

  /** The largest slash of span `i` is that of era `era`, unless the era has been forgotten. */
  ghost predicate Attains(st: Store, log: Log, gone: set<nat>, a: AccountId, i: nat, era: nat)
  {
    && SpanStability.ChargedSpan(log, a, era) == Some(i)
    && (era in gone || SlashHistory.MaxSubmitted(log, a, i) <= LargestOf(st, era, a))
  }

  ghost predicate Attained(st: Store, log: Log, gone: set<nat>, a: AccountId, i: nat)
  {
    SlashHistory.MaxSubmitted(log, a, i) == 0 || exists era: nat :: Attains(st, log, gone, a, i, era)
  }

  // ---------- eras are covered ----------

  /** A slash submitted against any stash; what is due for its era may be covered only by this very slash. */
  lemma InspectCovers(st: Store, log: Log, b: AccountId, p: SlashParams, slash: nat, a: AccountId, era: nat, due: nat)
    requires WellFormedStore(st) && p.slashEra <= p.now
    requires CoverAt(st, log, p.now, a, era, due) || (b == a && era == p.slashEra && due <= slash)
    ensures var v := Inspect(st, b, p, slash);
      CoverAt(v.store, Logged(log, b, p, slash, v), p.now, a, era, due)
  {
    var v := Inspect(st, b, p, slash);
    var st1 := Fetched(st, b, p.windowStart);
    InspectFetched(st, b, p, slash);
    hide Inspect, Find, Fetched;
    if a in st1.spans && era <= p.now {
      SpanStability.InspectKeepsSpan(st1, b, p, slash, a, era);
    }
  }

  lemma InspectFetched(st: Store, b: AccountId, p: SlashParams, slash: nat)
    requires WellFormedStore(st)
    ensures var st1 := Fetched(st, b, p.windowStart);
      && Inspect(st1, b, p, slash) == Inspect(st, b, p, slash)
      && Inspect(st, b, p, slash).target == Find(st1.spans[b], p.slashEra)
      && b in Inspect(st, b, p, slash).store.spans
      && (forall a :: a != b ==> (a in st1.spans <==> a in st.spans))
      && (forall a :: a in st.spans ==> a in st1.spans && st1.spans[a] == st.spans[a])
  {
    hide UpdateRecord, Find;
  }

  /** What is due and covered stays covered while nominators are slashed. */
  lemma {:induction false} NominatorsKeepCover(st: Store, log: Log, p: SlashParams, prior: Perbill, k: nat,
      a: AccountId, era: nat, due: nat)
    requires WellFormedStore(st) && p.slashEra <= p.now && k <= |p.exposure.others|
    requires CoverAt(st, log, p.now, a, era, due)
    ensures var n := NominatorsTo(st, log, p, prior, k);
      CoverAt(n.store, n.log, p.now, a, era, due) && n.store.validatorSlash == st.validatorSlash
  {
    hide Inspect, Find, PerbillOf, NominatorSlashOf;
    if k == 0 {
    } else {
      NominatorsKeepCover(st, log, p, prior, k - 1, a, era, due);
      var before := NominatorsTo(st, log, p, prior, k - 1);
      var who := p.exposure.others[k - 1].0;
      var st1 := WithNominatorSlash(before.store, p, prior, k - 1);
      InspectCovers(st1, before.log, who, p, NominatorSlashOf(st1, p.slashEra, who), a, era, due);
    }
  }

  lemma {:induction false} NominatorsCover(st: Store, log: Log, p: SlashParams, prior: Perbill, k: nat,
      a: AccountId, era: nat)
    requires WellFormedStore(st) && p.slashEra <= p.now && k <= |p.exposure.others|
    requires CoverAt(st, log, p.now, a, era, NominatorSlashOf(st, era, a))
    ensures var n := NominatorsTo(st, log, p, prior, k);
      CoverAt(n.store, n.log, p.now, a, era, NominatorSlashOf(n.store, era, a))
  {
    hide Inspect, Find, PerbillOf;
    if k == 0 {
    } else {
      NominatorsCover(st, log, p, prior, k - 1, a, era);
      var before := NominatorsTo(st, log, p, prior, k - 1);
      var who := p.exposure.others[k - 1].0;
      var st1 := WithNominatorSlash(before.store, p, prior, k - 1);
      var due := NominatorSlashOf(st1, era, a);
      InspectCovers(st1, before.log, who, p, NominatorSlashOf(st1, p.slashEra, who), a, era, due);
    }
  }

  lemma KickOutCovers(st: Store, log: Log, p: SlashParams, a: AccountId, era: nat, due: nat)
    requires WellFormedStore(st) && CoverAt(st, log, p.now, a, era, due)
    ensures CoverAt(KickOut(st, p), log, p.now, a, era, due)
  {
    hide KickOut, Find;
    if a in st.spans && era <= p.now {
      SpanStability.KickOutKeepsSpan(st, p, a, era);
    }
  }

  /** A new maximum: the validator is submitted its own part, then each nominator its sum. */
  lemma NewMaximumCovers(st: Store, log: Log, p: SlashParams, a: AccountId, era: nat)
    requires WellFormedStore(st) && p.slashEra <= p.now && CoversBoth(st, log, p.now, a, era)
    requires PerbillOf(p.slash, p.exposure.total) != 0 && p.slash > ProportionIn(st, p.slashEra, p.stash)
    ensures var c := ComputeSlash(st, log, p); CoversBoth(c.store, c.log, p.now, a, era)
  {
    hide CoverAt, WellFormedStore, Inspect, NominatorsTo, KickOut, Logged, PerbillOf;
    var own := PerbillOf(p.slash, p.exposure.own);
    var prior := ProportionIn(st, p.slashEra, p.stash);
    var st1 := st.(validatorSlash := st.validatorSlash[(p.slashEra, p.stash) := (p.slash, own)]);
    SameSpansCover(st, st1, log, p.now, a, era, NominatorSlashOf(st, era, a));
    SameSpansCover(st, st1, log, p.now, a, era, OwnSlashOf(st, era, a));
    InspectCovers(st1, log, p.stash, p, own, a, era, NominatorSlashOf(st1, era, a));
    InspectCovers(st1, log, p.stash, p, own, a, era, OwnSlashOf(st1, era, a));
    var v := Inspect(st1, p.stash, p, own);
    var log1 := Logged(log, p.stash, p, own, v);
    NominatorsCover(v.store, log1, p, prior, |p.exposure.others|, a, era);
    NominatorsKeepCover(v.store, log1, p, prior, |p.exposure.others|, a, era, OwnSlashOf(v.store, era, a));
  }

  lemma OffenceCovers(st: Store, log: Log, p: SlashParams, a: AccountId, era: nat)
    requires WellFormedStore(st) && p.slashEra <= p.now && CoversBoth(st, log, p.now, a, era)
    ensures var c := ComputeSlash(st, log, p); CoversBoth(c.store, c.log, p.now, a, era)
  {
    if PerbillOf(p.slash, p.exposure.total) != 0 && p.slash > ProportionIn(st, p.slashEra, p.stash) {
      NewMaximumCovers(st, log, p, a, era);
    } else {
      hide CoverAt, WellFormedStore, KickOut, PerbillOf;
      KickOutCovers(st, log, p, a, era, NominatorSlashOf(st, era, a));
      KickOutCovers(st, log, p, a, era, OwnSlashOf(st, era, a));
    }
  }

  lemma SameSpansCover(st: Store, st': Store, log: Log, clock: nat, a: AccountId, era: nat, due: nat)
    requires st'.spans == st.spans && CoverAt(st, log, clock, a, era, due)
    ensures CoverAt(st', log, clock, a, era, due)
    ensures WellFormedStore(st) ==> WellFormedStore(st')
  {
  }

  lemma NextCovers(w: World, s: Step, clock: nat, a: AccountId, era: nat)
    requires WellFormedStore(w.store) && CoversBoth(w.store, w.log, clock, a, era)
    requires s.Offence? ==> clock <= s.params.now && s.params.slashEra <= s.params.now
    requires !(s.KillStash? && s.stash == a)
    ensures var r := Next(w, s); CoversBoth(r.store, r.log, if s.Offence? then s.params.now else clock, a, era)
  {
    hide ComputeSlash, Find;
    match s
    case Offence(p) => OffenceCovers(w.store, w.log, p, a, era);
    case ObsoleteEra(_) =>
    case KillStash(_, _) =>
  }

  ghost predicate NeverKilled(steps: seq<Step>, a: AccountId)
  {
    forall m :: 0 <= m < |steps| ==> !(steps[m].KillStash? && steps[m].stash == a)
  }

  lemma {:induction false} EveryRunCovers(steps: seq<Step>, k: nat, a: AccountId, era: nat)
    requires k <= |steps| && SpanStability.Timely(steps) && NeverKilled(steps, a)
    ensures var w := RunTo(steps, k); CoversBoth(w.store, w.log, SpanStability.Clock(steps, k), a, era)
  {
    hide Next, CoversBoth;
    if k == 0 {
      NothingAtGenesis(a, era);
    } else {
      EveryRunCovers(steps, k - 1, a, era);
      NextCovers(RunTo(steps, k - 1), steps[k - 1], SpanStability.Clock(steps, k - 1), a, era);
    }
  }

  lemma NothingAtGenesis(a: AccountId, era: nat)
    ensures CoversBoth(Genesis().store, Start, 0, a, era)
  {
  }

  // ---------- the charge is that of an era ----------

  /** Era slashes that do not fall keep the maxima attained. */
  lemma RaisedAttained(st: Store, st': Store, log: Log, gone: set<nat>, gone': set<nat>, a: AccountId, i: nat)
    requires Attained(st, log, gone, a, i) && gone <= gone'
    requires forall era: nat :: era in gone' || LargestOf(st, era, a) <= LargestOf(st', era, a)
    ensures Attained(st', log, gone', a, i)
  {
    if SlashHistory.MaxSubmitted(log, a, i) != 0 {
      var era: nat :| Attains(st, log, gone, a, i, era);
      assert Attains(st', log, gone', a, i, era);
    }
  }

  /** A charge of at most what is due for its era, to the span the era was charged to before. */
  lemma ChargeAttains(st: Store, log: Log, gone: set<nat>, e: Event, a: AccountId, i: nat)
    requires e.Charge? && Attained(st, log, gone, a, i)
    requires e.stash == a ==>
      && e.submitted <= LargestOf(st, e.era, a)
      && SpanStability.KeepsSpan(Some(e.index), SpanStability.ChargedSpan(log, a, e.era))
    ensures Attained(st, Then(log, e), gone, a, i)
  {
    hide LargestOf;
    if e.stash == a && e.index == i && e.submitted >= SlashHistory.MaxSubmitted(log, a, i) {
      assert Attains(st, Then(log, e), gone, a, i, e.era);
    } else if SlashHistory.MaxSubmitted(log, a, i) != 0 {
      var era: nat :| Attains(st, log, gone, a, i, era);
      assert Attains(st, Then(log, e), gone, a, i, era);
    }
  }

  lemma InspectAttains(st: Store, log: Log, gone: set<nat>, b: AccountId, p: SlashParams, slash: nat,
      a: AccountId, i: nat)
    requires WellFormedStore(st) && Attained(st, log, gone, a, i)
    requires SpanStability.EraInv(st, log, p.now, a, p.slashEra)
    requires b == a ==> slash <= LargestOf(st, p.slashEra, a)
    ensures var v := Inspect(st, b, p, slash);
      Attained(v.store, Logged(log, b, p, slash, v), gone, a, i)
  {
    hide Inspect, Find, Fetched, Attained;
    var v := Inspect(st, b, p, slash);
    InspectFetched(st, b, p, slash);
    if v.target.Some? {
      ChargeAttains(st, log, gone, Charge(b, v.target.value, p.slashEra, slash, v.charged, v.reward, p.now), a, i);
    }
    RaisedAttained(st, v.store, Logged(log, b, p, slash, v), gone, gone, a, i);
  }

  lemma {:induction false} NominatorsAttain(st: Store, log: Log, gone: set<nat>, p: SlashParams, prior: Perbill,
      k: nat, a: AccountId, i: nat)
    requires SpanStability.Inv(st, log, p.now) && p.slashEra <= p.now && k <= |p.exposure.others|
    requires Attained(st, log, gone, a, i)
    ensures var n := NominatorsTo(st, log, p, prior, k); Attained(n.store, n.log, gone, a, i)
  {
    assert WellFormedStore(st);
    hide Inspect, Attained, PerbillOf;
    if k == 0 {
    } else {
      NominatorsAttain(st, log, gone, p, prior, k - 1, a, i);
      SpanStability.NominatorsKeep(st, log, p, prior, k - 1);
      var before := NominatorsTo(st, log, p, prior, k - 1);
      var who := p.exposure.others[k - 1].0;
      var st1 := WithNominatorSlash(before.store, p, prior, k - 1);
      SpanStability.SameSpans(before.store, st1, before.log, p.now);
      RaisedAttained(before.store, st1, before.log, gone, gone, a, i);
      assert SpanStability.EraInv(st1, before.log, p.now, a, p.slashEra);
      InspectAttains(st1, before.log, gone, who, p, NominatorSlashOf(st1, p.slashEra, who), a, i);
    }
  }

  lemma OffenceAttains(st: Store, log: Log, gone: set<nat>, p: SlashParams, a: AccountId, i: nat)
    requires SpanStability.Inv(st, log, p.now) && p.slashEra <= p.now
    requires OwnGrows(st, p) && Attained(st, log, gone, a, i)
    ensures WellFormedStore(st)
    ensures var c := ComputeSlash(st, log, p); Attained(c.store, c.log, gone, a, i)
  {
    hide SpanStability.Inv, SpanStability.EraInv, WellFormedStore, Inspect, NominatorsTo, KickOut, Logged, PerbillOf;
    hide Attained;
    EraInvAt(st, log, p.now, a, p.slashEra);
    var own := PerbillOf(p.slash, p.exposure.own);
    var prior := ProportionIn(st, p.slashEra, p.stash);
    RaisedAttained(st, KickOut(st, p), log, gone, gone, a, i);
    if p.slash > prior {
      var st1 := st.(validatorSlash := st.validatorSlash[(p.slashEra, p.stash) := (p.slash, own)]);
      RaisedAttained(st, st1, log, gone, gone, a, i);
      SpanStability.SameSpans(st, st1, log, p.now);
      EraInvAt(st1, log, p.now, a, p.slashEra);
      InspectAttains(st1, log, gone, p.stash, p, own, a, i);
      SpanStability.InspectKeeps(st1, log, p.stash, p, own);
      var v := Inspect(st1, p.stash, p, own);
      NominatorsAttain(v.store, Logged(log, p.stash, p, own, v), gone, p, prior, |p.exposure.others|, a, i);
    }
  }

  /** A larger proportion takes no less of the validator's own stake. */
  ghost predicate OwnGrows(st: Store, p: SlashParams)
  {
    p.slash > ProportionIn(st, p.slashEra, p.stash) ==>
      OwnSlashOf(st, p.slashEra, p.stash) <= PerbillOf(p.slash, p.exposure.own)
  }

  lemma FixedExposureGrows(st: Store, p: SlashParams, exposures: EraSlash.Exposures)
    requires EraSlash.Inv(st, exposures) && p.exposure == exposures(p.slashEra, p.stash)
    ensures OwnGrows(st, p)
  {
    var prior := ProportionIn(st, p.slashEra, p.stash);
    hide PerbillOf;
    if p.slash > prior {
      PerbillMonotone(prior, p.slash, p.exposure.own, p.exposure.own);
    }
  }

  lemma EraInvAt(st: Store, log: Log, clock: nat, a: AccountId, era: nat)
    requires SpanStability.Inv(st, log, clock)
    ensures WellFormedStore(st) && SpanStability.EraInv(st, log, clock, a, era)
  {
  }

  /** The eras whose slashes have been forgotten. */
  function Gone(steps: seq<Step>, k: nat): set<nat>
    requires k <= |steps|
  {
    if k == 0 then {}
    else Gone(steps, k - 1) + if steps[k - 1].ObsoleteEra? then {steps[k - 1].era} else {}
  }

  lemma NothingCharged(a: AccountId, i: nat)
    ensures Attained(Genesis().store, Start, {}, a, i)
  {
  }

  lemma {:induction false} EveryRunAttains(steps: seq<Step>, k: nat, exposures: EraSlash.Exposures, a: AccountId, i: nat)
    requires k <= |steps| && SpanStability.Timely(steps) && NeverKilled(steps, a) && AllExposed(steps, exposures)
    ensures var w := RunTo(steps, k); Attained(w.store, w.log, Gone(steps, k), a, i)
  {
    hide Next, Attained, SpanStability.Inv, EraSlash.Inv;
    if k == 0 {
      NothingCharged(a, i);
    } else {
      EveryRunAttains(steps, k - 1, exposures, a, i);
      SpanStability.EveryRunKeepsSpans(steps, k - 1);
      EraSlash.NominatorSlashIsSum(steps, k - 1, exposures);
      var w, clock := RunTo(steps, k - 1), SpanStability.Clock(steps, k - 1);
      NextAttains(w, steps[k - 1], clock, exposures, Gone(steps, k - 1), Gone(steps, k), a, i);
    }
  }

  lemma NextAttains(w: World, s: Step, clock: nat, exposures: EraSlash.Exposures, gone: set<nat>, gone': set<nat>,
      a: AccountId, i: nat)
    requires SpanStability.Inv(w.store, w.log, clock) && Attained(w.store, w.log, gone, a, i)
    requires EraSlash.Inv(w.store, exposures) && EraSlash.Exposed(s, exposures)
    requires s.Offence? ==> clock <= s.params.now && s.params.slashEra <= s.params.now
    requires !(s.KillStash? && s.stash == a)
    requires gone' == gone + if s.ObsoleteEra? then {s.era} else {}
    ensures WellFormedStore(w.store)
    ensures var r := Next(w, s); Attained(r.store, r.log, gone', a, i)
  {
    assert WellFormedStore(w.store);
    hide SpanStability.Inv, ComputeSlash, Attained, EraSlash.Inv, OwnGrows;
    assert s.ObsoleteEra? || gone' == gone;
    match s
    case Offence(p) =>
      SpanStability.LaterKeeps(w.store, w.log, clock, p.now);
      FixedExposureGrows(w.store, p, exposures);
      OffenceAttains(w.store, w.log, gone, p, a, i);
    case ObsoleteEra(e) => RaisedAttained(w.store, ClearEra(w.store, e), w.log, gone, gone', a, i);
    case KillStash(b, n) =>
      if ClearStash(w.store, b, n).Some? {
        OtherCleared(w.store, Next(w, s).store, w.log, gone, a, b, i);
      }
  }

  lemma OtherCleared(st: Store, st': Store, log: Log, gone: set<nat>, a: AccountId, b: AccountId, i: nat)
    requires Attained(st, log, gone, a, i) && a != b && SameEras(st, st')
    ensures Attained(st', Then(log, Cleared(b)), gone, a, i)
  {
    if SlashHistory.MaxSubmitted(log, a, i) != 0 {
      var era: nat :| Attains(st, log, gone, a, i, era);
      assert Attains(st', Then(log, Cleared(b)), gone, a, i, era);
    }
  }

  // ---------- the theorems ----------

  ghost predicate AllExposed(steps: seq<Step>, exposures: EraSlash.Exposures)
  {
    forall j :: 0 <= j < |steps| ==> EraSlash.Exposed(steps[j], exposures)
  }

  /** The recorded proportion of a validator's own stake. */
  ghost function OwnOwed(st: Store, exposures: EraSlash.Exposures, era: nat, v: AccountId): nat
  {
    PerbillOf(ProportionIn(st, era, v), exposures(era, v).own)
  }

  lemma BothOwed(st: Store, exposures: EraSlash.Exposures, era: nat, a: AccountId)
    requires EraSlash.Inv(st, exposures)
    ensures NominatorSlashOf(st, era, a) == EraSlash.Owed(st, exposures, era, a)
    ensures OwnSlashOf(st, era, a) == OwnOwed(st, exposures, era, a)
  {
    hide EraSlash.Owed;
  }

  /**
   * What the span of an era was charged covers the whole era: the sum over all validators that the account backs,
   * and the part of its own stake as a validator.
   */
  lemma SpanCoversEra(steps: seq<Step>, exposures: EraSlash.Exposures, a: AccountId, era: nat)
    requires SpanStability.Timely(steps) && NeverKilled(steps, a) && AllExposed(steps, exposures)
    ensures var w := RunTo(steps, |steps|);
      a in w.store.spans && Find(w.store.spans[a], era).Some? ==>
        var charged := SlashHistory.Charged(w.log, a, Find(w.store.spans[a], era).value);
        && EraSlash.Owed(w.store, exposures, era, a) <= charged
        && OwnOwed(w.store, exposures, era, a) <= charged
  {
    EveryRunCovers(steps, |steps|, a, era);
    SlashHistory.MaximumPerSpan(steps, a);
    EraSlash.NominatorSlashIsSum(steps, |steps|, exposures);
    hide RunTo, Find, EraSlash.Owed, EraSlash.Inv, OwnOwed, NominatorSlashOf, OwnSlashOf;
    BothOwed(RunTo(steps, |steps|).store, exposures, era, a);
  }

  /** And no more: what a span was charged is within what one of its eras owes, unless that was forgotten. */
  lemma ChargeIsAnEra(steps: seq<Step>, exposures: EraSlash.Exposures, a: AccountId, i: nat)
    requires SpanStability.Timely(steps) && NeverKilled(steps, a) && AllExposed(steps, exposures)
    ensures var w := RunTo(steps, |steps|);
      SlashHistory.Charged(w.log, a, i) > 0 ==>
        exists era: nat ::
          && SpanStability.ChargedSpan(w.log, a, era) == Some(i)
          && (era in Gone(steps, |steps|)
              || SlashHistory.Charged(w.log, a, i)
                 <= Max(EraSlash.Owed(w.store, exposures, era, a), OwnOwed(w.store, exposures, era, a)))
  {
    EveryRunAttains(steps, |steps|, exposures, a, i);
    SlashHistory.MaximumPerSpan(steps, a);
    EraSlash.NominatorSlashIsSum(steps, |steps|, exposures);
    hide RunTo, EraSlash.Owed, EraSlash.Inv, OwnOwed, NominatorSlashOf, OwnSlashOf, Gone;
    var w := RunTo(steps, |steps|);
    if SlashHistory.Charged(w.log, a, i) > 0 {
      var era: nat :| Attains(w.store, w.log, Gone(steps, |steps|), a, i, era);
      BothOwed(w.store, exposures, era, a);
    }
  }

  /** So a validator that backs no other pays the part of its own stake, whatever is nominated to it. */
  lemma ValidatorPaysOwn(steps: seq<Step>, exposures: EraSlash.Exposures, a: AccountId, i: nat)
    requires SpanStability.Timely(steps) && NeverKilled(steps, a) && AllExposed(steps, exposures)
    requires forall e: nat, v: AccountId, k: nat :: k < |exposures(e, v).others| ==> exposures(e, v).others[k].0 != a
    ensures var w := RunTo(steps, |steps|);
      SlashHistory.Charged(w.log, a, i) > 0 ==>
        exists era: nat ::
          && SpanStability.ChargedSpan(w.log, a, era) == Some(i)
          && (era in Gone(steps, |steps|)
              || SlashHistory.Charged(w.log, a, i) <= OwnOwed(w.store, exposures, era, a))
  {
    ChargeIsAnEra(steps, exposures, a, i);
    hide RunTo, EraSlash.Owed, OwnOwed, Gone;
    var w := RunTo(steps, |steps|);
    forall era: nat ensures EraSlash.Owed(w.store, exposures, era, a) == 0 {
      EraSlash.OwesNothing(w.store, exposures, era, a);
    }
  }
}
