/** Exactly what is recorded, charged and forgotten by each step of slashing. */
module SlashExact {
  import opened Numbers
  import opened Sums
  import opened Spans
  import opened SlashStore
  import opened SlashHistory

  // ---------- the largest proportion ----------

  /** The largest proportion reported against a validator for an era, since the era was last cleared. */
  function Largest(steps: seq<Step>, k: nat, era: nat, v: AccountId): Perbill
    requires k <= |steps|
  {
    if k == 0 then 0
    else
      var before := Largest(steps, k - 1, era, v);
      match steps[k - 1]
      case Offence(p) =>
        if p.slashEra == era && p.stash == v && PerbillOf(p.slash, p.exposure.total) > 0 && p.slash > before
        then p.slash else before
      case ObsoleteEra(e) => if e == era then 0 else before
      case KillStash(_, _) => before
  }

  lemma {:induction false} NominatorsKeepValidators(st: Store, log: Log, p: SlashParams, prior: Perbill, k: nat)
    requires WellFormedStore(st) && k <= |p.exposure.others|
    ensures NominatorsTo(st, log, p, prior, k).store.validatorSlash == st.validatorSlash
  {
    hide Inspect, NominatorSlashOf;
    if k == 0 {
    } else {
      NominatorsKeepValidators(st, log, p, prior, k - 1);
    }
  }

  lemma OffenceRecords(st: Store, log: Log, p: SlashParams, era: nat, v: AccountId)
    requires WellFormedStore(st)
    ensures ProportionIn(ComputeSlash(st, log, p).store, era, v) ==
      if era == p.slashEra && v == p.stash && PerbillOf(p.slash, p.exposure.total) > 0
         && p.slash > ProportionIn(st, era, v)
      then p.slash else ProportionIn(st, era, v)
  {
    hide Inspect, NominatorsTo, KickOut, PerbillOf, Logged;
    var own := PerbillOf(p.slash, p.exposure.own);
    var prior := ProportionIn(st, p.slashEra, p.stash);
    var st1 := st.(validatorSlash := st.validatorSlash[(p.slashEra, p.stash) := (p.slash, own)]);
    var r := Inspect(st1, p.stash, p, own);
    NominatorsKeepValidators(r.store, Logged(log, p.stash, p, own, r), p, prior, |p.exposure.others|);
  }

  /** After every run the proportion recorded for an era is the largest that was reported for it. */
  lemma {:induction false} RecordedIsLargest(steps: seq<Step>, k: nat, era: nat, v: AccountId)
    requires k <= |steps|
    ensures ProportionIn(RunTo(steps, k).store, era, v) == Largest(steps, k, era, v)
  {
    hide ComputeSlash, PerbillOf;
    if k == 0 {
    } else {
      RecordedIsLargest(steps, k - 1, era, v);
      var w := RunTo(steps, k - 1);
      if steps[k - 1].Offence? {
        OffenceRecords(w.store, w.log, steps[k - 1].params, era, v);
      }
    }
  }

  /** A report that is no larger than an earlier one of its era, and not too small to be slashed, changes nothing. */
  lemma SmallerIsIgnored(steps: seq<Step>, k: nat)
    requires k < |steps| && steps[k].Offence?
    requires var p := steps[k].params;
      PerbillOf(p.slash, p.exposure.total) > 0 && p.slash <= Largest(steps, k, p.slashEra, p.stash)
    ensures RunTo(steps, k + 1) == RunTo(steps, k)
  {
    var p, w := steps[k].params, RunTo(steps, k);
    RecordedIsLargest(steps, k, p.slashEra, p.stash);
    hide Inspect, NominatorsTo, KickOut, PerbillOf;
    assert RunTo(steps, k + 1) == Next(w, steps[k]);
  }

  // ---------- clearing ----------

  /** Clearing an era forgets its slashes and no others. */
  lemma ClearEraExact(st: Store, era: nat, e: nat, a: AccountId)
    ensures var r := ClearEra(st, era);
      && ((e, a) in r.validatorSlash <==> e != era && (e, a) in st.validatorSlash)
      && ((e, a) in r.nominatorSlash <==> e != era && (e, a) in st.nominatorSlash)
      && ((e, a) in r.validatorSlash ==> r.validatorSlash[(e, a)] == st.validatorSlash[(e, a)])
      && ((e, a) in r.nominatorSlash ==> r.nominatorSlash[(e, a)] == st.nominatorSlash[(e, a)])
      && r.spans == st.spans && r.records == st.records
  {
  }

  /** Clearing a stash is refused exactly when fewer spans are announced than it has; otherwise it alone is forgotten. */
  lemma ClearStashExact(st: Store, a: AccountId, n: nat, b: AccountId, i: nat)
    requires WellFormedStore(st)
    ensures ClearStash(st, a, n).None? <==> a in st.spans && n < |Decoded(st.spans[a])|
    ensures ClearStash(st, a, n).Some? ==>
      var r := ClearStash(st, a, n).value;
      && r.spans == st.spans - {a}
      && ((b, i) in r.records <==> (b, i) in st.records && !(b == a && a in st.spans && Live(st.spans[a], i)))
      && ((b, i) in r.records ==> r.records[(b, i)] == st.records[(b, i)])
      && SameEras(st, r)
  {
  }

  // ---------- new spans, and pruned ones ----------

  /** New spans cover exactly the eras of the bonding window. */
  lemma FreshSpansExact(windowStart: nat, era: nat)
    ensures Find(NewSpans(windowStart), era) == if era >= windowStart then Some(0) else None
  {
    FindExact(NewSpans(windowStart), era, 0);
    FindFromSound(NewSpans(windowStart), era, 0);
  }

  /** A stash never slashed before is charged exactly for eras of the window. */
  lemma FirstSlashExact(st: Store, a: AccountId, p: SlashParams, slash: nat)
    requires WellFormedStore(st) && a !in st.spans
    ensures Inspect(st, a, p, slash).target == if p.slashEra >= p.windowStart then Some(0) else None
  {
    hide Closed, UpdateRecord, Find;
    FreshSpansExact(p.windowStart, p.slashEra);
  }

  /** A slash that changes the spans or their records leaves no closed span that ended by the window. */
  lemma AlteredIsPruned(st: Store, a: AccountId, p: SlashParams, slash: nat, k: nat)
    requires WellFormedStore(st) && Inspect(st, a, p, slash).charged > 0
    ensures var s := Inspect(st, a, p, slash).store.spans;
      a in s && s[a].lastStart >= p.windowStart && (1 <= k <= |s[a].prior| ==> !Old(s[a], p.windowStart, k))
  {
    var st1 := Fetched(st, a, p.windowStart);
    var s := st1.spans[a];
    var i := Find(s, p.slashEra).value;
    var u := UpdateRecord(RecordOf(st1, a, i), slash, p.rewardProportion);
    hide UpdateRecord, Find;
    ClosedIsPruned(ChargedStore(st1, a, i, p.slashEra, u), a, i == s.spanIndex, p, k);
  }

  lemma ClosedIsPruned(st: Store, a: AccountId, end: bool, p: SlashParams, k: nat)
    requires WellFormedStore(st) && a in st.spans
    ensures var s := Closed(st, a, end, true, p).spans;
      a in s && s[a].lastStart >= p.windowStart && (1 <= k <= |s[a].prior| ==> !Old(s[a], p.windowStart, k))
  {
    EndSpanWellFormed(st.spans[a], p.now);
    var s := if end then EndSpan(st.spans[a], p.now).0 else st.spans[a];
    PruneWellFormed(s, p.windowStart);
    if 1 <= k <= |Prune(s, p.windowStart).0.prior| {
      PruneExact(s, p.windowStart, k);
    }
  }

  // ---------- charges and rewards ----------

  /**
   * A slash that is submitted to a span charges what exceeds the largest one so far, and pays the reporter half,
   * rounded down, of the part of the fraction not yet paid, when it is the largest.
   */
  lemma VisitExact(st: Store, log: Log, cap: Perbill, a: AccountId, p: SlashParams, slash: nat)
    requires Inv(st, log, cap)
    ensures WellFormedStore(st)
    ensures var v := Inspect(st, a, p, slash);
      match v.target
      case None => v.charged == 0 == v.reward
      case Some(i) =>
        var largest := MaxSubmitted(log, a, i);
        && v.charged == SatSub(slash, largest)
        && v.reward == if slash < largest then 0
             else SatSub(PerbillOf(p.rewardProportion, slash), Rewarded(log, a, i)) / 2
  {
    assert WellFormedStore(st);
    FetchKeeps(st, log, cap, a, p.windowStart);
    hide Inv, Closed, PerbillOf, Find;
    var st1 := Fetched(st, a, p.windowStart);
    var s := st1.spans[a];
    if Find(s, p.slashEra).Some? {
      var i := Find(s, p.slashEra).value;
      FindExact(s, p.slashEra, 0);
      RecordIsHistory(st1, log, cap, a, i);
      RewardIsHalfOfUnpaid(RecordOf(st1, a, i), slash, p.rewardProportion);
    }
  }

  // ---------- the slash to apply, account by account ----------

  /** What the first `k` entries of a slash take from an account. */
  function AmountFor(entries: seq<(AccountId, nat)>, a: AccountId, k: nat): nat
    requires k <= |entries|
  {
    if k == 0 then 0
    else AmountFor(entries, a, k - 1) + if entries[k - 1].0 == a then entries[k - 1].1 else 0
  }

  lemma {:induction false} AmountForPrefix(x: seq<(AccountId, nat)>, y: seq<(AccountId, nat)>, a: AccountId, k: nat)
    requires k <= |x|
    ensures AmountFor(x + y, a, k) == AmountFor(x, a, k)
  {
    if k == 0 {
    } else {
      AmountForPrefix(x, y, a, k - 1);
    }
  }

  lemma LoggedForAccount(st: Store, log: Log, b: AccountId, p: SlashParams, slash: nat, a: AccountId)
    requires WellFormedStore(st)
    ensures var v := Inspect(st, b, p, slash);
      TotalCharged(Logged(log, b, p, slash, v), a) == TotalCharged(log, a) + if a == b then v.charged else 0
  {
    hide UpdateRecord, Closed, Find;
  }

  lemma {:induction false} NominatorsForAccount(st: Store, log: Log, p: SlashParams, prior: Perbill, k: nat,
      a: AccountId)
    requires WellFormedStore(st) && k <= |p.exposure.others|
    ensures var n := NominatorsTo(st, log, p, prior, k);
      TotalCharged(n.log, a) == TotalCharged(log, a) + AmountFor(n.slashed, a, k)
  {
    hide Inspect, WithNominatorSlash, NominatorSlashOf, TotalCharged, Logged, WellFormedStore;
    if k == 0 {
    } else {
      NominatorsForAccount(st, log, p, prior, k - 1, a);
      var before := NominatorsTo(st, log, p, prior, k - 1);
      var who := p.exposure.others[k - 1].0;
      var st1 := WithNominatorSlash(before.store, p, prior, k - 1);
      var eraSlash := NominatorSlashOf(st1, p.slashEra, who);
      NominatorSlashKeepsSpans(before.store, p, prior, k - 1);
      LoggedForAccount(st1, before.log, who, p, eraSlash, a);
      AmountForPrefix(before.slashed, [(who, Inspect(st1, who, p, eraSlash).charged)], a, k - 1);
    }
  }

  /**
   * There is a slash to apply exactly when the offence is a new maximum of its era; it takes from each account
   * exactly what this offence has charged it.
   */
  lemma UnappliedPerAccount(st: Store, log: Log, p: SlashParams, a: AccountId)
    requires WellFormedStore(st)
    ensures var c := ComputeSlash(st, log, p);
      match c.unapplied
      case None =>
        && c.log == log
        && (PerbillOf(p.slash, p.exposure.total) == 0 || p.slash <= ProportionIn(st, p.slashEra, p.stash))
      case Some(u) =>
        && PerbillOf(p.slash, p.exposure.total) > 0 && p.slash > ProportionIn(st, p.slashEra, p.stash)
        && TotalCharged(c.log, a) == TotalCharged(log, a)
          + (if u.validator == a then u.own else 0) + AmountFor(u.others, a, |u.others|)
  {
    hide Inspect, NominatorsTo, KickOut, TotalCharged, Logged, PerbillOf;
    var own := PerbillOf(p.slash, p.exposure.own);
    var prior := ProportionIn(st, p.slashEra, p.stash);
    var st1 := st.(validatorSlash := st.validatorSlash[(p.slashEra, p.stash) := (p.slash, own)]);
    LoggedForAccount(st1, log, p.stash, p, own, a);
    var v := Inspect(st1, p.stash, p, own);
    NominatorsForAccount(v.store, Logged(log, p.stash, p, own, v), p, prior, |p.exposure.others|, a);
  }
}
