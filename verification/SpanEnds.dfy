/**
 * A slash ends the span it falls in: over every timely run, once a span has been charged at some active
 * era, no later era is ever charged to it, until the stash is cleared.
 */
module SpanEnds {
  import opened Numbers
  import opened Spans
  import opened SlashStore
  import opened SpanStability

  // ---------- the log ----------

  /** The active era at which span `i` was first charged, since the stash was last cleared. */
  function FirstCharge(log: Log, a: AccountId, i: nat): Option<nat>
  {
    match log
    case Start => None
    case Then(b, Charge(s, j, _, _, _, _, at)) =>
      if s == a && j == i && FirstCharge(b, a, i).None? then Some(at) else FirstCharge(b, a, i)
    case Then(b, Cleared(s)) => if s == a then None else FirstCharge(b, a, i)
  }

  /** Every charge to a span is for an era no later than the active era of the span's first charge. */
  ghost predicate EndsSpans(log: Log, a: AccountId)
  {
    match log
    case Start => true
    case Then(b, Charge(s, i, era, _, _, _, _)) =>
      EndsSpans(b, a) && (s == a && FirstCharge(b, a, i).Some? ==> era <= FirstCharge(b, a, i).value)
    case Then(b, Cleared(_)) => EndsSpans(b, a)
  }

  // ---------- eras that have left a span behind ----------

  /** Span `i` is over, and the era is not in it or an older one. */
  ghost predicate Above(st: Store, a: AccountId, i: nat, era: nat)
  {
    && a in st.spans && WellFormed(st.spans[a])
    && i < st.spans[a].spanIndex
    && match Find(st.spans[a], era) case None => true case Some(j) => i < j
  }

  lemma ClosedAbove(st: Store, b: AccountId, end: bool, changed: bool, p: SlashParams, a: AccountId, i: nat, era: nat)
    requires WellFormedStore(st) && b in st.spans && Above(st, a, i, era)
    ensures Above(Closed(st, b, end, changed, p), a, i, era)
  {
    hide Find;
    if a == b {
      var s := if end then EndSpan(st.spans[a], p.now).0 else st.spans[a];
      EndSpanKeepsIndices(st.spans[a], p.now, era);
      PruneKeepsIndices(s, p.windowStart, era);
    } else {
      ClosedLeavesOthers(st, b, end, changed, p, a);
    }
  }

  lemma InspectAbove(st: Store, b: AccountId, p: SlashParams, slash: nat, a: AccountId, i: nat, era: nat)
    requires WellFormedStore(st) && Above(st, a, i, era)
    ensures Above(Inspect(st, b, p, slash).store, a, i, era)
  {
    hide UpdateRecord, Closed;
    var st1 := Fetched(st, b, p.windowStart);
    var s := st1.spans[b];
    if Find(s, p.slashEra).Some? {
      var j := Find(s, p.slashEra).value;
      var u := UpdateRecord(RecordOf(st1, b, j), slash, p.rewardProportion);
      FindIgnoresSlash(s, era, p.slashEra, 0);
      ClosedAbove(ChargedStore(st1, b, j, p.slashEra, u), b, j == s.spanIndex, u.changed, p, a, i, era);
    }
  }

  lemma {:induction false} NominatorsAbove(st: Store, log: Log, p: SlashParams, prior: Perbill, k: nat,
      a: AccountId, i: nat, era: nat)
    requires WellFormedStore(st) && Above(st, a, i, era) && k <= |p.exposure.others|
    ensures Above(NominatorsTo(st, log, p, prior, k).store, a, i, era)
  {
    hide Inspect, Find, NominatorSlashOf;
    if k == 0 {
    } else {
      NominatorsAbove(st, log, p, prior, k - 1, a, i, era);
      var before := NominatorsTo(st, log, p, prior, k - 1);
      var who := p.exposure.others[k - 1].0;
      var st1 := WithNominatorSlash(before.store, p, prior, k - 1);
      InspectAbove(st1, who, p, NominatorSlashOf(st1, p.slashEra, who), a, i, era);
    }
  }

  lemma KickOutAbove(st: Store, p: SlashParams, a: AccountId, i: nat, era: nat)
    requires WellFormedStore(st) && Above(st, a, i, era)
    ensures Above(KickOut(st, p), a, i, era)
  {
    hide Closed;
    var st1 := Fetched(st, p.stash, p.windowStart);
    var s := st1.spans[p.stash];
    ClosedAbove(st1, p.stash, Find(s, p.slashEra) == Some(s.spanIndex), false, p, a, i, era);
  }

  lemma NextAbove(w: World, s: Step, a: AccountId, i: nat, era: nat)
    requires WellFormedStore(w.store) && Above(w.store, a, i, era) && !(s.KillStash? && s.stash == a)
    ensures Above(Next(w, s).store, a, i, era)
  {
    hide Inspect, NominatorsTo, KickOut, Find, PerbillOf;
    match s
    case ObsoleteEra(_) =>
    case KillStash(_, _) =>
    case Offence(p) =>
      KickOutAbove(w.store, p, a, i, era);
      var own := PerbillOf(p.slash, p.exposure.own);
      var prior := ProportionIn(w.store, p.slashEra, p.stash);
      var st1 := w.store.(validatorSlash := w.store.validatorSlash[(p.slashEra, p.stash) := (p.slash, own)]);
      InspectAbove(st1, p.stash, p, own, a, i, era);
      var v := Inspect(st1, p.stash, p, own);
      NominatorsAbove(v.store, Logged(w.log, p.stash, p, own, v), p, prior, |p.exposure.others|, a, i, era);
  }

  // ---------- closed spans end by the next era ----------

  /** Closed spans cover no era after the active one. */
  ghost predicate ClosesBy(st: Store, a: AccountId, clock: nat)
  {
    a in st.spans ==> st.spans[a].prior == [] || st.spans[a].lastStart <= clock + 1
  }

  lemma ClosedClosesBy(st: Store, b: AccountId, end: bool, changed: bool, p: SlashParams, a: AccountId)
    requires WellFormedStore(st) && b in st.spans && ClosesBy(st, a, p.now)
    ensures ClosesBy(Closed(st, b, end, changed, p), a, p.now)
  {
    if a == b {
      var s := if end then EndSpan(st.spans[a], p.now).0 else st.spans[a];
      EndSpanWellFormed(st.spans[a], p.now);
      if s.lastStart < p.windowStart {
        PruneMovesAlone(s, p.windowStart);
      }
    } else {
      ClosedLeavesOthers(st, b, end, changed, p, a);
    }
  }

  /** Ending the ongoing span, or finding it ended, leaves all later eras above. */
  lemma ClosedEnds(st: Store, a: AccountId, j: nat, changed: bool, p: SlashParams, era: nat)
    requires WellFormedStore(st) && a in st.spans && ClosesBy(st, a, p.now)
    requires Find(st.spans[a], p.slashEra) == Some(j) && p.slashEra <= p.now < era
    ensures Above(Closed(st, a, j == st.spans[a].spanIndex, changed, p), a, j, era)
  {
    var s := st.spans[a];
    FindExact(s, p.slashEra, 0);
    FindExact(s, era, 0);
    if j == s.spanIndex {
      EndSpanKeepsIndices(s, p.now, era);
      PruneKeepsIndices(EndSpan(s, p.now).0, p.windowStart, era);
      hide Find, Prune;
    } else {
      assert s.prior != [];
      assert Above(st, a, j, era);
      hide Find, Closed;
      ClosedAbove(st, a, false, changed, p, a, j, era);
    }
  }

  // ---------- the invariant ----------

  ghost predicate EndAt(st: Store, log: Log, a: AccountId, i: nat, era: nat)
  {
    FirstCharge(log, a, i).Some? && era > FirstCharge(log, a, i).value ==> Above(st, a, i, era)
  }

  ghost predicate EndInv(st: Store, log: Log, clock: nat, a: AccountId)
  {
    && WellFormedStore(st)
    && ClosesBy(st, a, clock)
    && EndsSpans(log, a)
    && forall i: nat, era: nat :: EndAt(st, log, a, i, era)
  }

  /** The store in which a submitted slash has been charged, before it is closed. */
  lemma ChargedFinds(st: Store, b: AccountId, p: SlashParams, slash: nat, a: AccountId)
    requires WellFormedStore(st) && ClosesBy(st, a, p.now)
    ensures var st1 := Fetched(st, b, p.windowStart);
      var v := Inspect(st, b, p, slash);
      && ClosesBy(v.store, a, p.now)
      && v.target == Find(st1.spans[b], p.slashEra)
      && (v.target.Some? && p.slashEra <= p.now ==>
            forall era: nat :: era > p.now ==> Above(v.store, b, v.target.value, era) || a != b)
  {
    hide UpdateRecord, Closed;
    var st1 := Fetched(st, b, p.windowStart);
    var s := st1.spans[b];
    if Find(s, p.slashEra).Some? {
      var j := Find(s, p.slashEra).value;
      var u := UpdateRecord(RecordOf(st1, b, j), slash, p.rewardProportion);
      var st2 := ChargedStore(st1, b, j, p.slashEra, u);
      ClosedClosesBy(st2, b, j == s.spanIndex, u.changed, p, a);
      if a == b && p.slashEra <= p.now {
        FindIgnoresSlash(s, p.slashEra, p.slashEra, 0);
        forall era: nat | era > p.now ensures Above(Inspect(st, b, p, slash).store, b, j, era) {
          ClosedEnds(st2, b, j, u.changed, p, era);
        }
      }
    }
  }

  lemma InspectEnds(st: Store, log: Log, b: AccountId, p: SlashParams, slash: nat, a: AccountId)
    requires EndInv(st, log, p.now, a) && p.slashEra <= p.now
    ensures WellFormedStore(st)
    ensures var v := Inspect(st, b, p, slash); EndInv(v.store, Logged(log, b, p, slash, v), p.now, a)
  {
    hide Inspect, Find, Fetched, Above, ClosesBy;
    var v := Inspect(st, b, p, slash);
    var log1 := Logged(log, b, p, slash, v);
    ChargedFinds(st, b, p, slash, a);
    forall i: nat, era: nat ensures EndAt(v.store, log1, a, i, era) {
      assert EndAt(st, log, a, i, era);
      if FirstCharge(log, a, i).Some? && era > FirstCharge(log, a, i).value {
        InspectAbove(st, b, p, slash, a, i, era);
      }
    }
    if b == a && v.target.Some? {
      var i := v.target.value;
      assert EndAt(st, log, a, i, p.slashEra);
      NotAbove(st, a, p, i);
    }
  }

  lemma NotAbove(st: Store, a: AccountId, p: SlashParams, i: nat)
    requires WellFormedStore(st)
    requires var st1 := Fetched(st, a, p.windowStart); Find(st1.spans[a], p.slashEra) == Some(i)
    ensures !Above(st, a, i, p.slashEra)
  {
    hide Find;
  }

  lemma KickOutEnds(st: Store, log: Log, p: SlashParams, a: AccountId)
    requires EndInv(st, log, p.now, a)
    ensures WellFormedStore(st) && EndInv(KickOut(st, p), log, p.now, a)
  {
    var st1 := Fetched(st, p.stash, p.windowStart);
    var s := st1.spans[p.stash];
    ClosedClosesBy(st1, p.stash, Find(s, p.slashEra) == Some(s.spanIndex), false, p, a);
    assert ClosesBy(KickOut(st, p), a, p.now);
    hide KickOut, Above, ClosesBy;
    forall i: nat, era: nat ensures EndAt(KickOut(st, p), log, a, i, era) {
      assert EndAt(st, log, a, i, era);
      if Above(st, a, i, era) {
        KickOutAbove(st, p, a, i, era);
      }
    }
  }

  lemma SameSpansEnd(st: Store, st': Store, log: Log, clock: nat, a: AccountId)
    requires EndInv(st, log, clock, a) && st'.spans == st.spans
    ensures EndInv(st', log, clock, a)
  {
    forall i: nat, era: nat ensures EndAt(st', log, a, i, era) {
      assert EndAt(st, log, a, i, era);
    }
  }

  lemma {:induction false} NominatorsEnd(st: Store, log: Log, p: SlashParams, prior: Perbill, k: nat, a: AccountId)
    requires EndInv(st, log, p.now, a) && p.slashEra <= p.now && k <= |p.exposure.others|
    ensures WellFormedStore(st)
    ensures var n := NominatorsTo(st, log, p, prior, k); EndInv(n.store, n.log, p.now, a)
  {
    assert WellFormedStore(st);
    hide EndInv, Inspect, NominatorSlashOf;
    if k == 0 {
    } else {
      NominatorsEnd(st, log, p, prior, k - 1, a);
      var before := NominatorsTo(st, log, p, prior, k - 1);
      var who := p.exposure.others[k - 1].0;
      var st1 := WithNominatorSlash(before.store, p, prior, k - 1);
      SameSpansEnd(before.store, st1, before.log, p.now, a);
      InspectEnds(st1, before.log, who, p, NominatorSlashOf(st1, p.slashEra, who), a);
    }
  }

  lemma EndWellFormed(st: Store, log: Log, clock: nat, a: AccountId)
    requires EndInv(st, log, clock, a)
    ensures WellFormedStore(st)
  {
  }

  lemma OffenceEnds(st: Store, log: Log, p: SlashParams, a: AccountId)
    requires EndInv(st, log, p.now, a) && p.slashEra <= p.now
    ensures WellFormedStore(st)
    ensures var c := ComputeSlash(st, log, p); EndInv(c.store, c.log, p.now, a)
  {
    hide EndInv, WellFormedStore, Inspect, NominatorsTo, KickOut, Logged, PerbillOf;
    EndWellFormed(st, log, p.now, a);
    KickOutEnds(st, log, p, a);
    var own := PerbillOf(p.slash, p.exposure.own);
    var prior := ProportionIn(st, p.slashEra, p.stash);
    var st1 := st.(validatorSlash := st.validatorSlash[(p.slashEra, p.stash) := (p.slash, own)]);
    SameSpansEnd(st, st1, log, p.now, a);
    InspectEnds(st1, log, p.stash, p, own, a);
    var v := Inspect(st1, p.stash, p, own);
    NominatorsEnd(v.store, Logged(log, p.stash, p, own, v), p, prior, |p.exposure.others|, a);
  }

  lemma ClearEnds(st: Store, log: Log, clock: nat, b: AccountId, n: nat, a: AccountId)
    requires EndInv(st, log, clock, a) && ClearStash(st, b, n).Some?
    ensures EndInv(ClearStash(st, b, n).value, Then(log, Cleared(b)), clock, a)
  {
    hide Find;
    var st1 := ClearStash(st, b, n).value;
    forall i: nat, era: nat ensures EndAt(st1, Then(log, Cleared(b)), a, i, era) {
      assert EndAt(st, log, a, i, era);
    }
  }

  lemma NextEnds(w: World, s: Step, clock: nat, a: AccountId)
    requires EndInv(w.store, w.log, clock, a)
    requires s.Offence? ==> clock <= s.params.now && s.params.slashEra <= s.params.now
    ensures WellFormedStore(w.store)
    ensures var r := Next(w, s); EndInv(r.store, r.log, if s.Offence? then s.params.now else clock, a)
  {
    hide ComputeSlash, Above;
    match s
    case Offence(p) => OffenceEnds(w.store, w.log, p, a);
    case ObsoleteEra(e) => SameSpansEnd(w.store, ClearEra(w.store, e), w.log, clock, a);
    case KillStash(b, n) =>
      if ClearStash(w.store, b, n).Some? {
        ClearEnds(w.store, w.log, clock, b, n, a);
      }
  }

  lemma {:induction false} EveryRunEnds(steps: seq<Step>, k: nat, a: AccountId)
    requires k <= |steps| && Timely(steps)
    ensures EndInv(RunTo(steps, k).store, RunTo(steps, k).log, Clock(steps, k), a)
  {
    hide Next;
    if k == 0 {
    } else {
      EveryRunEnds(steps, k - 1, a);
      hide EndInv;
      NextEnds(RunTo(steps, k - 1), steps[k - 1], Clock(steps, k - 1), a);
    }
  }

  // ---------- the theorems ----------

  /** Over every timely run a span is charged for no era after the active era of its first charge. */
  lemma SlashEndsSpan(steps: seq<Step>, a: AccountId)
    requires Timely(steps)
    ensures EndsSpans(RunTo(steps, |steps|).log, a)
  {
    EveryRunEnds(steps, |steps|, a);
  }

  /** Nor can it be: the eras after its first charge belong to later spans or to none. */
  lemma LaterErasAbove(steps: seq<Step>, a: AccountId, i: nat, era: nat)
    requires Timely(steps)
    ensures var w := RunTo(steps, |steps|);
      FirstCharge(w.log, a, i).Some? && era > FirstCharge(w.log, a, i).value ==> Above(w.store, a, i, era)
  {
    EveryRunEnds(steps, |steps|, a);
    hide RunTo, Above;
    var w := RunTo(steps, |steps|);
    assert EndAt(w.store, w.log, a, i, era);
  }

  // ---------- exactly when a span ends ----------

  lemma ClosedCounts(st: Store, b: AccountId, end: bool, changed: bool, p: SlashParams)
    requires WellFormedStore(st) && b in st.spans && (end ==> st.spans[b].lastStart <= p.now)
    ensures var r := Closed(st, b, end, changed, p);
      b in r.spans && r.spans[b].spanIndex == st.spans[b].spanIndex + if end then 1 else 0
  {
  }

  /** A submitted slash ends the ongoing span exactly when its era is in it. */
  lemma InspectCounts(st: Store, b: AccountId, p: SlashParams, slash: nat)
    requires WellFormedStore(st) && p.slashEra <= p.now
    ensures var s := Fetched(st, b, p.windowStart).spans[b];
      var v := Inspect(st, b, p, slash);
      b in v.store.spans && v.store.spans[b].spanIndex == s.spanIndex + if v.target == Some(s.spanIndex) then 1 else 0
  {
    hide UpdateRecord, Closed;
    var st1 := Fetched(st, b, p.windowStart);
    var s := st1.spans[b];
    FindExact(s, p.slashEra, 0);
    if Find(s, p.slashEra).Some? {
      var j := Find(s, p.slashEra).value;
      var u := UpdateRecord(RecordOf(st1, b, j), slash, p.rewardProportion);
      ClosedCounts(ChargedStore(st1, b, j, p.slashEra, u), b, j == s.spanIndex, u.changed, p);
    }
  }

  /** So does an offence that is too small to be slashed. */
  lemma KickOutCounts(st: Store, p: SlashParams)
    requires WellFormedStore(st) && p.slashEra <= p.now
    ensures var s := Fetched(st, p.stash, p.windowStart).spans[p.stash];
      var r := KickOut(st, p);
      && p.stash in r.spans
      && r.spans[p.stash].spanIndex == s.spanIndex + if Find(s, p.slashEra) == Some(s.spanIndex) then 1 else 0
  {
    hide Closed;
    var st1 := Fetched(st, p.stash, p.windowStart);
    var s := st1.spans[p.stash];
    FindExact(s, p.slashEra, 0);
    ClosedCounts(st1, p.stash, Find(s, p.slashEra) == Some(s.spanIndex), false, p);
  }

  /** The offence is too small to be slashed, or larger than any before in its era. */
  ghost predicate Effective(st: Store, p: SlashParams)
  {
    PerbillOf(p.slash, p.exposure.total) == 0 || p.slash > ProportionIn(st, p.slashEra, p.stash)
  }

  /** The era's span, if it still has one, holds no era after `now`. */
  ghost predicate Separated(st: Store, a: AccountId, era: nat, later: nat)
  {
    && a in st.spans && WellFormed(st.spans[a])
    && match Find(st.spans[a], era) case None => true case Some(i) => Above(st, a, i, later)
  }

  lemma KickOutSeparates(st: Store, p: SlashParams, later: nat)
    requires WellFormedStore(st) && p.slashEra <= p.now < later && ClosesBy(st, p.stash, p.now)
    ensures Separated(KickOut(st, p), p.stash, p.slashEra, later)
  {
    hide Closed;
    var st1 := Fetched(st, p.stash, p.windowStart);
    var s := st1.spans[p.stash];
    var end := Find(s, p.slashEra) == Some(s.spanIndex);
    ClosedKeepsSpan(st1, p.stash, end, false, p, p.slashEra);
    if Find(s, p.slashEra).Some? {
      ClosedEnds(st1, p.stash, Find(s, p.slashEra).value, false, p, later);
    }
  }

  lemma InspectSeparates(st: Store, p: SlashParams, slash: nat, later: nat)
    requires WellFormedStore(st) && p.slashEra <= p.now < later && ClosesBy(st, p.stash, p.now)
    ensures Separated(Inspect(st, p.stash, p, slash).store, p.stash, p.slashEra, later)
  {
    var st1 := Fetched(st, p.stash, p.windowStart);
    ChargedFinds(st, p.stash, p, slash, p.stash);
    InspectKeepsSpan(st1, p.stash, p, slash, p.stash, p.slashEra);
    FetchedTwice(st, p, slash);
    hide Inspect, Find;
  }

  lemma FetchedTwice(st: Store, p: SlashParams, slash: nat)
    requires WellFormedStore(st)
    ensures Inspect(Fetched(st, p.stash, p.windowStart), p.stash, p, slash) == Inspect(st, p.stash, p, slash)
  {
    hide UpdateRecord, Find;
  }

  lemma OffenceSeparates(st: Store, log: Log, p: SlashParams, later: nat)
    requires WellFormedStore(st) && p.slashEra <= p.now < later && ClosesBy(st, p.stash, p.now) && Effective(st, p)
    ensures Separated(ComputeSlash(st, log, p).store, p.stash, p.slashEra, later)
  {
    hide Inspect, NominatorsTo, KickOut, PerbillOf, Find, Logged;
    if PerbillOf(p.slash, p.exposure.total) == 0 {
      KickOutSeparates(st, p, later);
    } else {
      var own := PerbillOf(p.slash, p.exposure.own);
      var prior := ProportionIn(st, p.slashEra, p.stash);
      var st1 := st.(validatorSlash := st.validatorSlash[(p.slashEra, p.stash) := (p.slash, own)]);
      InspectSeparates(st1, p, own, later);
      var v := Inspect(st1, p.stash, p, own);
      var log1, n := Logged(log, p.stash, p, own, v), |p.exposure.others|;
      NominatorsKeepSpan(v.store, log1, p, prior, n, p.stash, p.slashEra);
      var i := Find(v.store.spans[p.stash], p.slashEra);
      if i.Some? {
        NominatorsAbove(v.store, log1, p, prior, n, p.stash, i.value, later);
      }
    }
  }

  lemma NextSeparates(w: World, s: Step, a: AccountId, era: nat, later: nat)
    requires WellFormedStore(w.store) && Separated(w.store, a, era, later)
    requires (s.Offence? ==> era <= s.params.now) && !(s.KillStash? && s.stash == a)
    ensures Separated(Next(w, s).store, a, era, later)
  {
    hide Next, Find;
    NextKeepsSpan(w, s, a, era);
    var i := Find(w.store.spans[a], era);
    if i.Some? {
      NextAbove(w, s, a, i.value, later);
    }
  }

  /**
   * From an offence on, whether slashed or only reported, the span of its era holds no era after the one that
   * was then active: what the validator does later is not excused by it.
   */
  lemma {:induction false} OffenceEndsSpan(steps: seq<Step>, j: nat, k: nat, later: nat)
    requires Timely(steps) && j < k <= |steps| && steps[j].Offence? && later > steps[j].params.now
    requires Effective(RunTo(steps, j).store, steps[j].params)
    requires forall m :: j <= m < k ==> !(steps[m].KillStash? && steps[m].stash == steps[j].params.stash)
    ensures var p := steps[j].params; Separated(RunTo(steps, k).store, p.stash, p.slashEra, later)
  {
    hide Next, Separated, Effective, EndInv;
    var p, w := steps[j].params, RunTo(steps, k - 1);
    if j == k - 1 {
      EveryRunEnds(steps, j, p.stash);
      FirstSeparates(w, steps[j], Clock(steps, j), later);
    } else {
      OffenceEndsSpan(steps, j, k - 1, later);
      ClockGrows(steps, j + 1, k - 1);
      NextSeparates(w, steps[k - 1], p.stash, p.slashEra, later);
    }
  }

  lemma FirstSeparates(w: World, s: Step, clock: nat, later: nat)
    requires s.Offence? && EndInv(w.store, w.log, clock, s.params.stash) && Effective(w.store, s.params)
    requires clock <= s.params.now && s.params.slashEra <= s.params.now < later
    ensures WellFormedStore(w.store)
    ensures Separated(Next(w, s).store, s.params.stash, s.params.slashEra, later)
  {
    assert WellFormedStore(w.store);
    hide ComputeSlash, Effective, Separated;
    OffenceSeparates(w.store, w.log, s.params, later);
  }

  lemma {:induction false} ClockGrows(steps: seq<Step>, j: nat, k: nat)
    requires Timely(steps) && j <= k <= |steps|
    ensures Clock(steps, j) <= Clock(steps, k)
  {
    if j == k {
    } else {
      ClockGrows(steps, j, k - 1);
    }
  }
}
