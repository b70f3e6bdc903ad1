/**
 * An era belongs to one span of a stash: over every run in which time does not go backwards, all
 * slashes of one era against one stash are charged to the same span, until the stash is cleared.
 */
module SpanStability {
  import opened Numbers
  import opened Spans
  import opened SlashStore

  // ---------- one stash, one era ----------

  /** The span an era belongs to may be forgotten, but it does not change. */
  ghost predicate KeepsSpan(before: Option<nat>, after: Option<nat>)
  {
    after == before || after == None
  }

  /** Ending and pruning spans at `now` moves no era up to `now` to another span. */
  lemma ClosedKeepsSpan(st: Store, a: AccountId, end: bool, changed: bool, p: SlashParams, era: nat)
    requires WellFormedStore(st) && a in st.spans && era <= p.now
    ensures var r := Closed(st, a, end, changed, p);
      a in r.spans && KeepsSpan(Find(st.spans[a], era), Find(r.spans[a], era))
  {
    hide Find, FindFrom;
    var s := if end then EndSpan(st.spans[a], p.now).0 else st.spans[a];
    EndSpanKeepsIndices(st.spans[a], p.now, era);
    PruneKeepsIndices(s, p.windowStart, era);
  }

  lemma ClosedLeavesOthers(st: Store, a: AccountId, end: bool, changed: bool, p: SlashParams, b: AccountId)
    requires WellFormedStore(st) && a in st.spans && b != a
    ensures var r := Closed(st, a, end, changed, p);
      (b in r.spans <==> b in st.spans) && (b in st.spans ==> r.spans[b] == st.spans[b])
  {
  }

  // ---------- the log ----------

  /** The span last charged for an era, since the stash was last cleared. */
  function ChargedSpan(log: Log, a: AccountId, era: nat): Option<nat>
  {
    match log
    case Start => None
    case Then(b, Charge(s, i, e, _, _, _, _)) => if s == a && e == era then Some(i) else ChargedSpan(b, a, era)
    case Then(b, Cleared(s)) => if s == a then None else ChargedSpan(b, a, era)
  }

  /** All charges for the era, between clearings of the stash, name one span. */
  ghost predicate OneSpan(log: Log, a: AccountId, era: nat)
  {
    match log
    case Start => true
    case Then(b, Charge(s, i, e, _, _, _, _)) =>
      OneSpan(b, a, era) && (s == a && e == era ==> KeepsSpan(Some(i), ChargedSpan(b, a, era)))
    case Then(b, Cleared(_)) => OneSpan(b, a, era)
  }

  // ---------- the invariant ----------

  /** An era that was charged is past, and its span is still the one charged, or forgotten. */
  ghost predicate EraInv(st: Store, log: Log, clock: nat, a: AccountId, era: nat)
  {
    && OneSpan(log, a, era)
    && (ChargedSpan(log, a, era).Some? ==>
          && era <= clock
          && a in st.spans && WellFormed(st.spans[a])
          && KeepsSpan(ChargedSpan(log, a, era), Find(st.spans[a], era)))
  }

  ghost predicate Inv(st: Store, log: Log, clock: nat)
  {
    && WellFormedStore(st)
    && forall a: AccountId, era: nat :: EraInv(st, log, clock, a, era)
  }

  lemma FindIgnoresSlash(s: SlashingSpans, era: nat, at: nat, k: nat)
    requires WellFormed(s) && k <= |s.prior| + 1
    ensures WellFormed(WithSlashAt(s, at)) && FindFrom(WithSlashAt(s, at), era, k) == FindFrom(s, era, k)
    decreases |s.prior| + 1 - k
  {
    if k > |s.prior| {
    } else {
      FindIgnoresSlash(s, era, at, k + 1);
      assert SpanAt(WithSlashAt(s, at), k) == SpanAt(s, k);
    }
  }

  lemma FetchKeeps(st: Store, log: Log, clock: nat, stash: AccountId, windowStart: nat)
    requires Inv(st, log, clock)
    ensures Inv(Fetched(st, stash, windowStart), log, clock)
  {
    hide Find;
    var st1 := Fetched(st, stash, windowStart);
    forall a: AccountId, era: nat ensures EraInv(st1, log, clock, a, era) {
      assert EraInv(st, log, clock, a, era);
    }
  }

  /** Charging the span that the era belongs to. */
  lemma ChargeKeeps(st: Store, log: Log, clock: nat, stash: AccountId, i: nat, p: SlashParams,
      slash: nat, u: RecordUpdate)
    requires Inv(st, log, clock) && stash in st.spans && Find(st.spans[stash], p.slashEra) == Some(i)
    requires p.slashEra <= clock
    ensures Inv(ChargedStore(st, stash, i, p.slashEra, u),
                Then(log, Charge(stash, i, p.slashEra, slash, u.charged, u.reward, p.now)), clock)
  {
    var st1 := ChargedStore(st, stash, i, p.slashEra, u);
    var log1 := Then(log, Charge(stash, i, p.slashEra, slash, u.charged, u.reward, p.now));
    forall a: AccountId, era: nat ensures EraInv(st1, log1, clock, a, era) {
      assert EraInv(st, log, clock, a, era);
      FindIgnoresSlash(st.spans[stash], era, p.slashEra, 0);
    }
  }

  lemma ClosedKeeps(st: Store, log: Log, stash: AccountId, end: bool, changed: bool, p: SlashParams)
    requires Inv(st, log, p.now) && stash in st.spans
    ensures Inv(Closed(st, stash, end, changed, p), log, p.now)
  {
    var r := Closed(st, stash, end, changed, p);
    hide Closed, Find;
    forall a: AccountId, era: nat ensures EraInv(r, log, p.now, a, era) {
      assert EraInv(st, log, p.now, a, era);
      if ChargedSpan(log, a, era).Some? {
        if a == stash {
          ClosedKeepsSpan(st, stash, end, changed, p, era);
        } else {
          ClosedLeavesOthers(st, stash, end, changed, p, a);
        }
      }
    }
  }

  /** Time moves on. */
  lemma LaterKeeps(st: Store, log: Log, clock: nat, now: nat)
    requires Inv(st, log, clock) && clock <= now
    ensures Inv(st, log, now)
  {
    forall a: AccountId, era: nat ensures EraInv(st, log, now, a, era) {
      assert EraInv(st, log, clock, a, era);
    }
  }

  lemma SameSpans(st: Store, st': Store, log: Log, clock: nat)
    requires Inv(st, log, clock) && st'.spans == st.spans
    ensures Inv(st', log, clock)
  {
    forall a: AccountId, era: nat ensures EraInv(st', log, clock, a, era) {
      assert EraInv(st, log, clock, a, era);
    }
  }

  lemma InspectKeeps(st: Store, log: Log, a: AccountId, p: SlashParams, slash: nat)
    requires Inv(st, log, p.now) && p.slashEra <= p.now
    ensures var v := Inspect(st, a, p, slash); Inv(v.store, Logged(log, a, p, slash, v), p.now)
  {
    assert WellFormedStore(st);
    hide Inv, UpdateRecord, Closed;
    var st1 := Fetched(st, a, p.windowStart);
    FetchKeeps(st, log, p.now, a, p.windowStart);
    var s := st1.spans[a];
    if Find(s, p.slashEra).Some? {
      var i := Find(s, p.slashEra).value;
      var u := UpdateRecord(RecordOf(st1, a, i), slash, p.rewardProportion);
      ChargeKeeps(st1, log, p.now, a, i, p, slash, u);
      var log1 := Then(log, Charge(a, i, p.slashEra, slash, u.charged, u.reward, p.now));
      ClosedKeeps(ChargedStore(st1, a, i, p.slashEra, u), log1, a, i == s.spanIndex, u.changed, p);
    }
  }

  lemma KickOutKeeps(st: Store, log: Log, p: SlashParams)
    requires Inv(st, log, p.now)
    ensures Inv(KickOut(st, p), log, p.now)
  {
    var st1 := Fetched(st, p.stash, p.windowStart);
    var s := st1.spans[p.stash];
    FetchKeeps(st, log, p.now, p.stash, p.windowStart);
    ClosedKeeps(st1, log, p.stash, Find(s, p.slashEra) == Some(s.spanIndex), false, p);
  }

  lemma {:induction false} NominatorsKeep(st: Store, log: Log, p: SlashParams, prior: Perbill, k: nat)
    requires Inv(st, log, p.now) && p.slashEra <= p.now && k <= |p.exposure.others|
    ensures var n := NominatorsTo(st, log, p, prior, k); Inv(n.store, n.log, p.now)
  {
    assert WellFormedStore(st);
    hide Inv, Inspect, NominatorSlashOf;
    if k == 0 {
    } else {
      NominatorsKeep(st, log, p, prior, k - 1);
      var before := NominatorsTo(st, log, p, prior, k - 1);
      var who := p.exposure.others[k - 1].0;
      var st1 := WithNominatorSlash(before.store, p, prior, k - 1);
      SameSpans(before.store, st1, before.log, p.now);
      InspectKeeps(st1, before.log, who, p, NominatorSlashOf(st1, p.slashEra, who));
    }
  }

  lemma InvWellFormed(st: Store, log: Log, clock: nat)
    requires Inv(st, log, clock)
    ensures WellFormedStore(st)
  {
  }

  lemma OffenceKeeps(st: Store, log: Log, p: SlashParams)
    requires Inv(st, log, p.now) && p.slashEra <= p.now
    ensures var c := ComputeSlash(st, log, p); Inv(c.store, c.log, p.now)
  {
    hide Inv, WellFormedStore, Inspect, NominatorsTo, KickOut, Logged, PerbillOf;
    InvWellFormed(st, log, p.now);
    KickOutKeeps(st, log, p);
    var own := PerbillOf(p.slash, p.exposure.own);
    var prior := ProportionIn(st, p.slashEra, p.stash);
    var st1 := st.(validatorSlash := st.validatorSlash[(p.slashEra, p.stash) := (p.slash, own)]);
    SameSpans(st, st1, log, p.now);
    InvWellFormed(st1, log, p.now);
    InspectKeeps(st1, log, p.stash, p, own);
    var v := Inspect(st1, p.stash, p, own);
    NominatorsKeep(v.store, Logged(log, p.stash, p, own, v), p, prior, |p.exposure.others|);
  }

  lemma ClearKeeps(st: Store, log: Log, clock: nat, a: AccountId, n: nat)
    requires Inv(st, log, clock) && ClearStash(st, a, n).Some?
    ensures Inv(ClearStash(st, a, n).value, Then(log, Cleared(a)), clock)
  {
    hide Find;
    var st1 := ClearStash(st, a, n).value;
    forall b: AccountId, era: nat ensures EraInv(st1, Then(log, Cleared(a)), clock, b, era) {
      assert EraInv(st, log, clock, b, era);
    }
  }

  // ---------- runs ----------

  /** The active era after the first `k` steps. */
  function Clock(steps: seq<Step>, k: nat): nat
    requires k <= |steps|
  {
    if k == 0 then 0 else if steps[k - 1].Offence? then steps[k - 1].params.now else Clock(steps, k - 1)
  }

  /** The active era never falls, and offences are from it or from before. */
  ghost predicate Timely(steps: seq<Step>)
  {
    forall k :: 0 <= k < |steps| && steps[k].Offence? ==>
      Clock(steps, k) <= steps[k].params.now && steps[k].params.slashEra <= steps[k].params.now
  }

  lemma NextKeeps(w: World, s: Step, clock: nat)
    requires Inv(w.store, w.log, clock)
    requires s.Offence? ==> clock <= s.params.now && s.params.slashEra <= s.params.now
    ensures var r := Next(w, s); Inv(r.store, r.log, if s.Offence? then s.params.now else clock)
  {
    assert WellFormedStore(w.store);
    hide Inv, ComputeSlash;
    match s
    case Offence(p) =>
      LaterKeeps(w.store, w.log, clock, p.now);
      OffenceKeeps(w.store, w.log, p);
    case ObsoleteEra(e) => SameSpans(w.store, ClearEra(w.store, e), w.log, clock);
    case KillStash(a, n) =>
      if ClearStash(w.store, a, n).Some? {
        ClearKeeps(w.store, w.log, clock, a, n);
      }
  }

  lemma {:induction false} EveryRunKeepsSpans(steps: seq<Step>, k: nat)
    requires k <= |steps| && Timely(steps)
    ensures Inv(RunTo(steps, k).store, RunTo(steps, k).log, Clock(steps, k))
  {
    hide Next;
    if k == 0 {
    } else {
      EveryRunKeepsSpans(steps, k - 1);
      NextKeeps(RunTo(steps, k - 1), steps[k - 1], Clock(steps, k - 1));
    }
  }

  /** After every timely run all slashes of one era against one stash were charged to one span. */
  lemma OneSpanPerEra(steps: seq<Step>, a: AccountId, era: nat)
    requires Timely(steps)
    ensures OneSpan(RunTo(steps, |steps|).log, a, era)
  {
    EveryRunKeepsSpans(steps, |steps|);
    hide RunTo;
    var w := RunTo(steps, |steps|);
    assert EraInv(w.store, w.log, Clock(steps, |steps|), a, era);
  }

  // ---------- any era, charged or not ----------

  /** The span of an era in a store that knows the stash. */
  ghost predicate Keeps(st: Store, st': Store, a: AccountId, era: nat)
    requires WellFormedStore(st) && WellFormedStore(st') && a in st.spans
  {
    a in st'.spans && KeepsSpan(Find(st.spans[a], era), Find(st'.spans[a], era))
  }

  lemma InspectKeepsSpan(st: Store, b: AccountId, p: SlashParams, slash: nat, a: AccountId, era: nat)
    requires WellFormedStore(st) && a in st.spans && era <= p.now
    ensures Keeps(st, Inspect(st, b, p, slash).store, a, era)
  {
    hide UpdateRecord, Closed;
    var st1 := Fetched(st, b, p.windowStart);
    var s := st1.spans[b];
    if Find(s, p.slashEra).Some? {
      var i := Find(s, p.slashEra).value;
      var u := UpdateRecord(RecordOf(st1, b, i), slash, p.rewardProportion);
      var st2 := ChargedStore(st1, b, i, p.slashEra, u);
      FindIgnoresSlash(s, era, p.slashEra, 0);
      if a == b {
        ClosedKeepsSpan(st2, b, i == s.spanIndex, u.changed, p, era);
      } else {
        ClosedLeavesOthers(st2, b, i == s.spanIndex, u.changed, p, a);
      }
    }
  }

  lemma KickOutKeepsSpan(st: Store, p: SlashParams, a: AccountId, era: nat)
    requires WellFormedStore(st) && a in st.spans && era <= p.now
    ensures Keeps(st, KickOut(st, p), a, era)
  {
    hide Closed;
    var st1 := Fetched(st, p.stash, p.windowStart);
    var s := st1.spans[p.stash];
    var end := Find(s, p.slashEra) == Some(s.spanIndex);
    if a == p.stash {
      ClosedKeepsSpan(st1, p.stash, end, false, p, era);
    } else {
      ClosedLeavesOthers(st1, p.stash, end, false, p, a);
    }
  }

  lemma {:induction false} NominatorsKeepSpan(st: Store, log: Log, p: SlashParams, prior: Perbill, k: nat,
      a: AccountId, era: nat)
    requires WellFormedStore(st) && a in st.spans && era <= p.now && k <= |p.exposure.others|
    ensures Keeps(st, NominatorsTo(st, log, p, prior, k).store, a, era)
  {
    hide Inspect, Find, NominatorSlashOf;
    if k == 0 {
    } else {
      NominatorsKeepSpan(st, log, p, prior, k - 1, a, era);
      var before := NominatorsTo(st, log, p, prior, k - 1);
      var who := p.exposure.others[k - 1].0;
      var st1 := WithNominatorSlash(before.store, p, prior, k - 1);
      InspectKeepsSpan(st1, who, p, NominatorSlashOf(st1, p.slashEra, who), a, era);
    }
  }

  lemma NextKeepsSpan(w: World, s: Step, a: AccountId, era: nat)
    requires WellFormedStore(w.store) && a in w.store.spans
    requires s.Offence? ==> era <= s.params.now
    requires !(s.KillStash? && s.stash == a)
    ensures Keeps(w.store, Next(w, s).store, a, era)
  {
    hide Inspect, NominatorsTo, KickOut, Find, PerbillOf;
    match s
    case ObsoleteEra(_) =>
    case KillStash(_, _) =>
    case Offence(p) =>
      KickOutKeepsSpan(w.store, p, a, era);
      var own := PerbillOf(p.slash, p.exposure.own);
      var prior := ProportionIn(w.store, p.slashEra, p.stash);
      var st1 := w.store.(validatorSlash := w.store.validatorSlash[(p.slashEra, p.stash) := (p.slash, own)]);
      InspectKeepsSpan(st1, p.stash, p, own, a, era);
      var v := Inspect(st1, p.stash, p, own);
      var log1 := Logged(w.log, p.stash, p, own, v);
      NominatorsKeepSpan(v.store, log1, p, prior, |p.exposure.others|, a, era);
  }

  /** From any point of a run on, an era that no later offence precedes keeps its span or loses it. */
  lemma {:induction false} EraKeepsSpan(steps: seq<Step>, j: nat, k: nat, a: AccountId, era: nat)
    requires j <= k <= |steps| && a in RunTo(steps, j).store.spans
    requires forall m :: j <= m < k && steps[m].Offence? ==> era <= steps[m].params.now
    requires forall m :: j <= m < k ==> !(steps[m].KillStash? && steps[m].stash == a)
    ensures Keeps(RunTo(steps, j).store, RunTo(steps, k).store, a, era)
  {
    hide Next, Find, WellFormedStore;
    if j == k {
    } else {
      EraKeepsSpan(steps, j, k - 1, a, era);
      NextKeepsSpan(RunTo(steps, k - 1), steps[k - 1], a, era);
    }
  }
}
