/**
 * Nominators are slashed, era by era, for the sum of what each validator they back has brought upon
 * them: the rounded differences added report by report telescope exactly.
 */
module EraSlash {
  import opened Numbers
  import opened Sums
  import opened Spans
  import opened SlashStore

  /** The exposure of each validator in each era. */
  type Exposures = (nat, AccountId) -> Exposure

  /** What a proportion takes from a nominator's entries among the first `k`. */
  function ShareTo(others: seq<(AccountId, nat)>, nominator: AccountId, p: Perbill, k: nat): nat
    requires k <= |others|
  {
    if k == 0 then 0
    else
      var last := others[k - 1];
      ShareTo(others, nominator, p, k - 1) + if last.0 == nominator then PerbillOf(p, last.1) else 0
  }

  function ShareOf(e: Exposure, nominator: AccountId, p: Perbill): nat
  {
    ShareTo(e.others, nominator, p, |e.others|)
  }

  lemma {:induction false} NoShareOfNothing(others: seq<(AccountId, nat)>, nominator: AccountId, k: nat)
    requires k <= |others|
    ensures ShareTo(others, nominator, 0, k) == 0
  {
    if k == 0 {
    } else {
      NoShareOfNothing(others, nominator, k - 1);
    }
  }

  lemma {:induction false} NoShareUnnamed(others: seq<(AccountId, nat)>, nominator: AccountId, p: Perbill, k: nat)
    requires k <= |others| && forall j :: 0 <= j < k ==> others[j].0 != nominator
    ensures ShareTo(others, nominator, p, k) == 0
  {
    if k == 0 {
    } else {
      NoShareUnnamed(others, nominator, p, k - 1);
    }
  }

  /** The validators with a slash recorded in the era. */
  function Recorded(st: Store, era: nat): set<AccountId>
  {
    set k | k in st.validatorSlash && k.0 == era :: k.1
  }

  ghost function Owes(st: Store, exposures: Exposures, era: nat, nominator: AccountId): AccountId -> nat
  {
    v => ShareOf(exposures(era, v), nominator, ProportionIn(st, era, v))
  }

  /** The sum over validators of the recorded proportion of the nominator's exposure. */
  ghost function Owed(st: Store, exposures: Exposures, era: nat, nominator: AccountId): nat
  {
    SumOver(Recorded(st, era), Owes(st, exposures, era, nominator))
  }

  /** An account that no exposure of the era names owes nothing as a nominator. */
  lemma OwesNothing(st: Store, exposures: Exposures, era: nat, n: AccountId)
    requires forall v: AccountId, k: nat :: k < |exposures(era, v).others| ==> exposures(era, v).others[k].0 != n
    ensures Owed(st, exposures, era, n) == 0
  {
    var f := Owes(st, exposures, era, n);
    forall v: AccountId ensures f(v) == 0 {
      NoShareUnnamed(exposures(era, v).others, n, ProportionIn(st, era, v), |exposures(era, v).others|);
    }
    SumOverScale(Recorded(st, era), f, f, 0);
  }

  ghost predicate Inv(st: Store, exposures: Exposures)
  {
    && (forall e: nat, n: AccountId :: NominatorSlashOf(st, e, n) == Owed(st, exposures, e, n))
    && forall e: nat, v: AccountId :: (e, v) in st.validatorSlash ==>
         st.validatorSlash[(e, v)].1 == PerbillOf(ProportionIn(st, e, v), exposures(e, v).own)
  }

  lemma SameErasSameInv(st: Store, st': Store, exposures: Exposures)
    requires Inv(st, exposures) && SameEras(st, st')
    ensures Inv(st', exposures)
  {
    forall e: nat, n: AccountId ensures NominatorSlashOf(st', e, n) == Owed(st', exposures, e, n) {
      assert NominatorSlashOf(st, e, n) == Owed(st, exposures, e, n);
      OwedSame(st, st', exposures, e, n);
    }
  }

  // ---------- a new maximum ----------

  lemma OneNominator(st: Store, p: SlashParams, prior: Perbill, k: nat, era: nat, n: AccountId)
    requires k < |p.exposure.others| && prior <= p.slash
    ensures var (who, value) := p.exposure.others[k];
      var hit := era == p.slashEra && n == who;
      NominatorSlashOf(WithNominatorSlash(st, p, prior, k), era, n) + (if hit then PerbillOf(prior, value) else 0)
        == NominatorSlashOf(st, era, n) + (if hit then PerbillOf(p.slash, value) else 0)
  {
    hide PerbillOf;
    PerbillMonotone(prior, p.slash, p.exposure.others[k].1, p.exposure.others[k].1);
  }

  /** The differences added along the exposure telescope; no subtraction saturates. */
  lemma {:induction false} NominatorsTelescope(st: Store, log: Log, p: SlashParams, prior: Perbill, k: nat,
      era: nat, n: AccountId)
    requires WellFormedStore(st) && k <= |p.exposure.others| && prior <= p.slash
    ensures var r := NominatorsTo(st, log, p, prior, k).store;
      && r.validatorSlash == st.validatorSlash
      && NominatorSlashOf(r, era, n) + (if era == p.slashEra then ShareTo(p.exposure.others, n, prior, k) else 0)
           == NominatorSlashOf(st, era, n)
            + (if era == p.slashEra then ShareTo(p.exposure.others, n, p.slash, k) else 0)
  {
    hide Inspect, PerbillOf, WithNominatorSlash, WellFormedStore;
    if k == 0 {
    } else {
      NominatorsTelescope(st, log, p, prior, k - 1, era, n);
      var before := NominatorsTo(st, log, p, prior, k - 1);
      var who := p.exposure.others[k - 1].0;
      var st1 := WithNominatorSlash(before.store, p, prior, k - 1);
      OneNominator(before.store, p, prior, k - 1, era, n);
    }
  }

  /** Recording a larger proportion moves what is owed by the difference of the shares. */
  lemma OwedAfterRecord(st: Store, exposures: Exposures, era: nat, v: AccountId, record: (Perbill, nat), e: nat,
      n: AccountId)
    ensures var st1 := st.(validatorSlash := st.validatorSlash[(era, v) := record]);
      Owed(st1, exposures, e, n) + (if e == era then ShareOf(exposures(era, v), n, ProportionIn(st, era, v)) else 0)
        == Owed(st, exposures, e, n) + (if e == era then ShareOf(exposures(era, v), n, record.0) else 0)
  {
    hide ShareOf;
    var st1 := st.(validatorSlash := st.validatorSlash[(era, v) := record]);
    var f, g := Owes(st, exposures, e, n), Owes(st1, exposures, e, n);
    RecordedAfter(st, era, v, record, e);
    forall x | e != era || x != v ensures f(x) == g(x) {
      assert ProportionIn(st1, e, x) == ProportionIn(st, e, x);
    }
    if e != era {
      SumOverSame(Recorded(st, e), f, g);
    } else if v in Recorded(st, e) {
      SumOverChange(Recorded(st, e), f, g, v);
    } else {
      SumOverInsert(Recorded(st, e), g, v);
      SumOverSame(Recorded(st, e), f, g);
      NothingRecorded(st, exposures, era, v, n);
    }
  }

  lemma NothingRecorded(st: Store, exposures: Exposures, era: nat, v: AccountId, n: AccountId)
    requires v !in Recorded(st, era)
    ensures ShareOf(exposures(era, v), n, ProportionIn(st, era, v)) == 0
  {
    assert (era, v) in st.validatorSlash ==> v in Recorded(st, era);
    NoShareOfNothing(exposures(era, v).others, n, |exposures(era, v).others|);
  }

  lemma RecordedAfter(st: Store, era: nat, v: AccountId, record: (Perbill, nat), e: nat)
    ensures var st1 := st.(validatorSlash := st.validatorSlash[(era, v) := record]);
      Recorded(st1, e) == if e == era then Recorded(st, e) + {v} else Recorded(st, e)
    ensures v in Recorded(st, era) ==> Recorded(st, era) + {v} == Recorded(st, era)
  {
    var st1 := st.(validatorSlash := st.validatorSlash[(era, v) := record]);
    forall x ensures x in Recorded(st1, e) <==> x in Recorded(st, e) || (e == era && x == v) {
      assert x in Recorded(st1, e) <==> (e, x) in st1.validatorSlash;
      assert x in Recorded(st, e) <==> (e, x) in st.validatorSlash;
    }
  }

  lemma NewMaximumKeeps(st: Store, log: Log, exposures: Exposures, p: SlashParams)
    requires Inv(st, exposures) && WellFormedStore(st) && p.exposure == exposures(p.slashEra, p.stash)
    requires PerbillOf(p.slash, p.exposure.total) != 0 && p.slash > ProportionIn(st, p.slashEra, p.stash)
    ensures Inv(ComputeSlash(st, log, p).store, exposures)
  {
    hide Inspect, NominatorsTo, Owed;
    var own := PerbillOf(p.slash, p.exposure.own);
    var prior := ProportionIn(st, p.slashEra, p.stash);
    var st1 := st.(validatorSlash := st.validatorSlash[(p.slashEra, p.stash) := (p.slash, own)]);
    var v := Inspect(st1, p.stash, p, own);
    var log1 := Logged(log, p.stash, p, own, v);
    var st2 := NominatorsTo(v.store, log1, p, prior, |p.exposure.others|).store;
    NominatorsTelescope(v.store, log1, p, prior, |p.exposure.others|, 0, 0);
    forall e: nat, n: AccountId
      ensures NominatorSlashOf(st2, e, n) == Owed(st2, exposures, e, n)
    {
      NominatorsTelescope(v.store, log1, p, prior, |p.exposure.others|, e, n);
      OwedAfterRecord(st, exposures, p.slashEra, p.stash, (p.slash, own), e, n);
      assert NominatorSlashOf(st, e, n) == Owed(st, exposures, e, n);
      OwedSame(st1, st2, exposures, e, n);
    }
  }

  lemma OwedSame(st: Store, st': Store, exposures: Exposures, e: nat, n: AccountId)
    requires st'.validatorSlash == st.validatorSlash
    ensures Owed(st', exposures, e, n) == Owed(st, exposures, e, n)
  {
    var f, g := Owes(st, exposures, e, n), Owes(st', exposures, e, n);
    forall v ensures f(v) == g(v) {
      assert ProportionIn(st', e, v) == ProportionIn(st, e, v);
    }
    SumOverSame(Recorded(st, e), f, g);
  }

  lemma ClearEraKeeps(st: Store, exposures: Exposures, era: nat)
    requires Inv(st, exposures)
    ensures Inv(ClearEra(st, era), exposures)
  {
    var st1 := ClearEra(st, era);
    forall e: nat, n: AccountId ensures NominatorSlashOf(st1, e, n) == Owed(st1, exposures, e, n) {
      assert NominatorSlashOf(st, e, n) == Owed(st, exposures, e, n);
      if e == era {
        assert Recorded(st1, e) == {};
      } else {
        assert Recorded(st1, e) == Recorded(st, e) by {
          forall x ensures x in Recorded(st1, e) <==> x in Recorded(st, e) {
            assert x in Recorded(st1, e) <==> (e, x) in st1.validatorSlash;
            assert x in Recorded(st, e) <==> (e, x) in st.validatorSlash;
          }
        }
        SumOverSame(Recorded(st, e), Owes(st, exposures, e, n), Owes(st1, exposures, e, n));
      }
    }
  }

  // ---------- runs ----------

  ghost predicate Exposed(s: Step, exposures: Exposures)
  {
    s.Offence? ==> s.params.exposure == exposures(s.params.slashEra, s.params.stash)
  }

  lemma NextKeeps(w: World, s: Step, exposures: Exposures)
    requires WellFormedStore(w.store) && Inv(w.store, exposures) && Exposed(s, exposures)
    ensures Inv(Next(w, s).store, exposures)
  {
    hide Inv;
    match s
    case Offence(p) =>
      if PerbillOf(p.slash, p.exposure.total) != 0 && p.slash > ProportionIn(w.store, p.slashEra, p.stash) {
        NewMaximumKeeps(w.store, w.log, exposures, p);
      } else {
        SameErasSameInv(w.store, KickOut(w.store, p), exposures);
      }
    case ObsoleteEra(e) => ClearEraKeeps(w.store, exposures, e);
    case KillStash(_, _) => SameErasSameInv(w.store, Next(w, s).store, exposures);
  }

  lemma GenesisOwesNothing(exposures: Exposures)
    ensures Inv(Genesis().store, exposures)
  {
    forall e: nat, n: AccountId ensures Owed(Genesis().store, exposures, e, n) == 0 {
      assert Recorded(Genesis().store, e) == {};
    }
  }

  /** With one exposure per era and validator, every run keeps each nominator's era slash the exact sum. */
  lemma {:induction false} NominatorSlashIsSum(steps: seq<Step>, k: nat, exposures: Exposures)
    requires k <= |steps| && forall j :: 0 <= j < k ==> Exposed(steps[j], exposures)
    ensures Inv(RunTo(steps, k).store, exposures)
  {
    hide Next, Inv, Exposed;
    if k == 0 {
      GenesisOwesNothing(exposures);
    } else {
      NominatorSlashIsSum(steps, k - 1, exposures);
      NextKeeps(RunTo(steps, k - 1), steps[k - 1], exposures);
    }
  }
}
