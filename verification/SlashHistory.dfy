/**
 * Stakers pay the maximum per span, not the sum: over every run, what a span was charged is the
 * largest slash ever submitted for it, and its reporters were paid at most the fixed fraction.
 */
module SlashHistory {
  import opened Numbers
  import opened Spans
  import opened SlashStore

  // ---------- reading the log; clearing a stash starts its history afresh ----------

  function MaxSubmitted(log: Log, a: AccountId, i: nat): nat
  {
    match log
    case Start => 0
    case Then(b, Charge(s, j, _, submitted, _, _, _)) =>
      if s == a && j == i then Max(MaxSubmitted(b, a, i), submitted) else MaxSubmitted(b, a, i)
    case Then(b, Cleared(s)) => if s == a then 0 else MaxSubmitted(b, a, i)
  }

  function Charged(log: Log, a: AccountId, i: nat): nat
  {
    match log
    case Start => 0
    case Then(b, Charge(s, j, _, _, charged, _, _)) => Charged(b, a, i) + if s == a && j == i then charged else 0
    case Then(b, Cleared(s)) => if s == a then 0 else Charged(b, a, i)
  }

  function Rewarded(log: Log, a: AccountId, i: nat): nat
  {
    match log
    case Start => 0
    case Then(b, Charge(s, j, _, _, _, reward, _)) => Rewarded(b, a, i) + if s == a && j == i then reward else 0
    case Then(b, Cleared(s)) => if s == a then 0 else Rewarded(b, a, i)
  }

  /** The latest era for which the stash was charged something. */
  function LatestCharged(log: Log, a: AccountId): nat
  {
    match log
    case Start => 0
    case Then(b, Charge(s, _, era, _, charged, _, _)) =>
      if s == a && charged > 0 then Max(LatestCharged(b, a), era) else LatestCharged(b, a)
    case Then(b, Cleared(s)) => if s == a then 0 else LatestCharged(b, a)
  }

  // ---------- the invariant ----------

  function SpansOf(st: Store, a: AccountId): Option<SlashingSpans>
  {
    if a in st.spans then Some(st.spans[a]) else None
  }

  function StoredRecord(st: Store, a: AccountId, i: nat): Option<SpanRecord>
  {
    if (a, i) in st.records then Some(st.records[(a, i)]) else None
  }

  /**
   * What is true of span `i` of a stash. A stored record belongs to a live span and holds the
   * span's maximum and payout; a live or future span without a record has no history.
   */
  ghost predicate SpanInv(s: Option<SlashingSpans>, r: Option<SpanRecord>, log: Log, cap: Perbill, a: AccountId, i: nat)
  {
    && Charged(log, a, i) == MaxSubmitted(log, a, i)
    && Rewarded(log, a, i) <= PerbillOf(cap, MaxSubmitted(log, a, i))
    && match r
       case Some(rec) =>
         s.Some? && Live(s.value, i) && rec == SpanRecord(MaxSubmitted(log, a, i), Rewarded(log, a, i))
       case None =>
         s.None? || i >= Earliest(s.value) ==> MaxSubmitted(log, a, i) == 0
  }

  /** The spans remember the last era of a non-zero slash. */
  ghost predicate LatestInv(s: Option<SlashingSpans>, log: Log, a: AccountId)
  {
    LatestCharged(log, a) == if s.Some? then s.value.lastNonzeroSlash else 0
  }

  ghost predicate Inv(st: Store, log: Log, cap: Perbill)
  {
    && WellFormedStore(st)
    && (forall a: AccountId :: LatestInv(SpansOf(st, a), log, a))
    && forall a: AccountId, i: nat :: SpanInv(SpansOf(st, a), StoredRecord(st, a, i), log, cap, a, i)
  }

  /** However often a span is reported, its payout stays within the fraction of its slash. */
  lemma RewardBound(paid: nat, max: nat, slash: nat, rewardProportion: Perbill, cap: Perbill)
    requires rewardProportion <= cap && paid <= PerbillOf(cap, max)
    ensures var u := UpdateRecord(SpanRecord(max, paid), slash, rewardProportion);
      u.record.paidOut <= PerbillOf(cap, Max(max, slash))
  {
    hide PerbillOf;
    PerbillMonotone(rewardProportion, cap, slash, slash);
    PerbillMonotone(cap, cap, max, Max(max, slash));
    PerbillAtMost(REWARD_F1, SatSub(PerbillOf(rewardProportion, slash), paid));
  }

  /** A report of a maximum pays half, rounded down, of the part of the fraction not yet paid. */
  lemma RewardIsHalfOfUnpaid(r: SpanRecord, slash: nat, rewardProportion: Perbill)
    ensures var u := UpdateRecord(r, slash, rewardProportion);
      u.reward == if slash < r.slashed then 0 else SatSub(PerbillOf(rewardProportion, slash), r.paidOut) / 2
  {
    HalfIsExact(SatSub(PerbillOf(rewardProportion, slash), r.paidOut));
    hide PerbillOf;
  }

  lemma HalfIsExact(x: nat)
    ensures PerbillOf(REWARD_F1, x) == x / 2
  {
    var h := x / 2;
    if x == 2 * h {
      assert REWARD_F1 * x == h * BILLION;
    } else {
      assert REWARD_F1 * x == h * BILLION + REWARD_F1;
    }
  }

  // ---------- one submitted slash ----------

  lemma FetchKeeps(st: Store, log: Log, cap: Perbill, stash: AccountId, windowStart: nat)
    requires Inv(st, log, cap)
    ensures Inv(Fetched(st, stash, windowStart), log, cap)
  {
    var st1 := Fetched(st, stash, windowStart);
    forall a: AccountId, i: nat ensures SpanInv(SpansOf(st1, a), StoredRecord(st1, a, i), log, cap, a, i) {
      assert SpanInv(SpansOf(st, a), StoredRecord(st, a, i), log, cap, a, i);
    }
    forall a: AccountId ensures LatestInv(SpansOf(st1, a), log, a) {
      assert LatestInv(SpansOf(st, a), log, a);
    }
  }

  /** The record of the span that is charged, stored or not. */
  lemma RecordIsHistory(st: Store, log: Log, cap: Perbill, a: AccountId, i: nat)
    requires Inv(st, log, cap) && a in st.spans && Live(st.spans[a], i)
    ensures RecordOf(st, a, i) == SpanRecord(MaxSubmitted(log, a, i), Rewarded(log, a, i))
  {
    assert SpanInv(SpansOf(st, a), StoredRecord(st, a, i), log, cap, a, i);
  }

  /** Charging a span raises its history and its record together. */
  lemma ChargedSpan(log: Log, cap: Perbill, a: AccountId, i: nat, era: nat, at: nat, slash: nat,
      rewardProportion: Perbill, s: SlashingSpans)
    requires rewardProportion <= cap && Live(s, i)
    requires Charged(log, a, i) == MaxSubmitted(log, a, i)
    requires Rewarded(log, a, i) <= PerbillOf(cap, MaxSubmitted(log, a, i))
    ensures var u := UpdateRecord(SpanRecord(MaxSubmitted(log, a, i), Rewarded(log, a, i)), slash, rewardProportion);
      var log1 := Then(log, Charge(a, i, era, slash, u.charged, u.reward, at));
      && SpanInv(Some(s), Some(u.record), log1, cap, a, i)
      && (!u.changed ==> u.record == SpanRecord(MaxSubmitted(log, a, i), Rewarded(log, a, i)))
  {
    RewardBound(Rewarded(log, a, i), MaxSubmitted(log, a, i), slash, rewardProportion, cap);
    hide PerbillOf;
  }

  lemma ChargeKeepsLatest(st: Store, log: Log, a: AccountId, i: nat, era: nat, at: nat, slash: nat, u: RecordUpdate)
    requires a in st.spans && forall b: AccountId :: LatestInv(SpansOf(st, b), log, b)
    ensures var st1 := ChargedStore(st, a, i, era, u);
      var log1 := Then(log, Charge(a, i, era, slash, u.charged, u.reward, at));
      forall b: AccountId :: LatestInv(SpansOf(st1, b), log1, b)
  {
    var st1 := ChargedStore(st, a, i, era, u);
    forall b: AccountId
      ensures LatestInv(SpansOf(st1, b), Then(log, Charge(a, i, era, slash, u.charged, u.reward, at)), b)
    {
      assert LatestInv(SpansOf(st, b), log, b);
    }
  }

  lemma ChargeKeeps(st: Store, log: Log, cap: Perbill, a: AccountId, i: nat, era: nat, at: nat, slash: nat,
      rewardProportion: Perbill)
    requires Inv(st, log, cap) && a in st.spans && Live(st.spans[a], i) && rewardProportion <= cap
    ensures var u := UpdateRecord(RecordOf(st, a, i), slash, rewardProportion);
      Inv(ChargedStore(st, a, i, era, u), Then(log, Charge(a, i, era, slash, u.charged, u.reward, at)), cap)
  {
    var u := UpdateRecord(RecordOf(st, a, i), slash, rewardProportion);
    var st1 := ChargedStore(st, a, i, era, u);
    var log1 := Then(log, Charge(a, i, era, slash, u.charged, u.reward, at));
    ChargeKeepsLatest(st, log, a, i, era, at, slash, u);
    hide PerbillOf, UpdateRecord, LatestInv;
    forall b: AccountId, j: nat ensures SpanInv(SpansOf(st1, b), StoredRecord(st1, b, j), log1, cap, b, j) {
      assert SpanInv(SpansOf(st, b), StoredRecord(st, b, j), log, cap, b, j);
      if b == a && j == i {
        RecordIsHistory(st, log, cap, a, i);
        ChargedSpan(log, cap, a, i, era, at, slash, rewardProportion, st1.spans[a]);
      }
    }
  }

  /** Replacing a stash's spans by ones with the same earliest index and no lower last index. */
  lemma RespanKeeps(st: Store, log: Log, cap: Perbill, a: AccountId, s: SlashingSpans)
    requires Inv(st, log, cap) && a in st.spans && WellFormed(s)
    requires Earliest(s) == Earliest(st.spans[a]) && st.spans[a].spanIndex <= s.spanIndex
    requires s.lastNonzeroSlash == st.spans[a].lastNonzeroSlash
    ensures Inv(st.(spans := st.spans[a := s]), log, cap)
  {
    hide PerbillOf;
    var st1 := st.(spans := st.spans[a := s]);
    forall b: AccountId, i: nat ensures SpanInv(SpansOf(st1, b), StoredRecord(st1, b, i), log, cap, b, i) {
      assert SpanInv(SpansOf(st, b), StoredRecord(st, b, i), log, cap, b, i);
    }
    forall b: AccountId ensures LatestInv(SpansOf(st1, b), log, b) {
      assert LatestInv(SpansOf(st, b), log, b);
    }
  }

  lemma PruneKeeps(st: Store, log: Log, cap: Perbill, a: AccountId, windowStart: nat)
    requires Inv(st, log, cap) && a in st.spans
    ensures Inv(WriteBack(st, a, st.spans[a], windowStart), log, cap)
  {
    hide PerbillOf;
    PruneWellFormed(st.spans[a], windowStart);
    var st1 := WriteBack(st, a, st.spans[a], windowStart);
    forall b: AccountId, i: nat ensures SpanInv(SpansOf(st1, b), StoredRecord(st1, b, i), log, cap, b, i) {
      assert SpanInv(SpansOf(st, b), StoredRecord(st, b, i), log, cap, b, i);
    }
    forall b: AccountId ensures LatestInv(SpansOf(st1, b), log, b) {
      assert LatestInv(SpansOf(st, b), log, b);
    }
  }

  /** Altered spans are written back over the store they were read from. */
  lemma WriteBackKeeps(st: Store, log: Log, cap: Perbill, a: AccountId, s: SlashingSpans, windowStart: nat)
    requires Inv(st, log, cap) && a in st.spans && WellFormed(s)
    requires Earliest(s) == Earliest(st.spans[a]) && st.spans[a].spanIndex <= s.spanIndex
    requires s.lastNonzeroSlash == st.spans[a].lastNonzeroSlash
    ensures Inv(WriteBack(st, a, s, windowStart), log, cap)
  {
    RespanKeeps(st, log, cap, a, s);
    var st1 := st.(spans := st.spans[a := s]);
    PruneKeeps(st1, log, cap, a, windowStart);
    assert WriteBack(st1, a, s, windowStart) == WriteBack(st, a, s, windowStart);
  }

  lemma ClosedKeeps(st: Store, log: Log, cap: Perbill, a: AccountId, end: bool, changed: bool, p: SlashParams)
    requires Inv(st, log, cap) && a in st.spans
    ensures Inv(Closed(st, a, end, changed, p), log, cap)
  {
    assert WellFormedStore(st);
    hide Inv, WriteBack;
    var s := if end then EndSpan(st.spans[a], p.now).0 else st.spans[a];
    EndSpanWellFormed(st.spans[a], p.now);
    WriteBackKeeps(st, log, cap, a, s, p.windowStart);
  }

  lemma InspectKeeps(st: Store, log: Log, cap: Perbill, a: AccountId, p: SlashParams, slash: nat)
    requires Inv(st, log, cap) && p.rewardProportion <= cap
    ensures var v := Inspect(st, a, p, slash); Inv(v.store, Logged(log, a, p, slash, v), cap)
  {
    assert WellFormedStore(st);
    hide Inv, UpdateRecord, Closed;
    var st1 := Fetched(st, a, p.windowStart);
    FetchKeeps(st, log, cap, a, p.windowStart);
    var s := st1.spans[a];
    if Find(s, p.slashEra).Some? {
      var i := Find(s, p.slashEra).value;
      FindExact(s, p.slashEra, 0);
      ChargeKeeps(st1, log, cap, a, i, p.slashEra, p.now, slash, p.rewardProportion);
      var u := UpdateRecord(RecordOf(st1, a, i), slash, p.rewardProportion);
      var log1 := Then(log, Charge(a, i, p.slashEra, slash, u.charged, u.reward, p.now));
      ClosedKeeps(ChargedStore(st1, a, i, p.slashEra, u), log1, cap, a, i == s.spanIndex, u.changed, p);
    }
  }

  lemma KickOutKeeps(st: Store, log: Log, cap: Perbill, p: SlashParams)
    requires Inv(st, log, cap)
    ensures Inv(KickOut(st, p), log, cap)
  {
    var st1 := Fetched(st, p.stash, p.windowStart);
    var s := st1.spans[p.stash];
    FetchKeeps(st, log, cap, p.stash, p.windowStart);
    ClosedKeeps(st1, log, cap, p.stash, Find(s, p.slashEra) == Some(s.spanIndex), false, p);
  }

  // ---------- whole offences and runs ----------

  /** Only spans and records matter to the invariant. */
  lemma SameSpans(st: Store, st': Store, log: Log, cap: Perbill)
    requires Inv(st, log, cap) && st'.spans == st.spans && st'.records == st.records
    ensures Inv(st', log, cap)
  {
    forall a: AccountId, i: nat ensures SpanInv(SpansOf(st', a), StoredRecord(st', a, i), log, cap, a, i) {
      assert SpanInv(SpansOf(st, a), StoredRecord(st, a, i), log, cap, a, i);
    }
    forall a: AccountId ensures LatestInv(SpansOf(st', a), log, a) {
      assert LatestInv(SpansOf(st, a), log, a);
    }
  }

  lemma {:induction false} NominatorsKeep(st: Store, log: Log, cap: Perbill, p: SlashParams, prior: Perbill, k: nat)
    requires Inv(st, log, cap) && p.rewardProportion <= cap && k <= |p.exposure.others|
    ensures var n := NominatorsTo(st, log, p, prior, k); Inv(n.store, n.log, cap)
  {
    if k == 0 {
    } else {
      assert WellFormedStore(st);
      hide Inv, Inspect, NominatorSlashOf;
      NominatorsKeep(st, log, cap, p, prior, k - 1);
      var before := NominatorsTo(st, log, p, prior, k - 1);
      var who := p.exposure.others[k - 1].0;
      var st1 := WithNominatorSlash(before.store, p, prior, k - 1);
      SameSpans(before.store, st1, before.log, cap);
      InspectKeeps(st1, before.log, cap, who, p, NominatorSlashOf(st1, p.slashEra, who));
    }
  }

  lemma InvWellFormed(st: Store, log: Log, cap: Perbill)
    requires Inv(st, log, cap)
    ensures WellFormedStore(st)
  {
  }

  lemma OffenceKeeps(st: Store, log: Log, cap: Perbill, p: SlashParams)
    requires Inv(st, log, cap) && p.rewardProportion <= cap
    ensures var c := ComputeSlash(st, log, p); Inv(c.store, c.log, cap)
  {
    hide Inv, WellFormedStore, Inspect, NominatorsTo, Logged, KickOut, PerbillOf;
    InvWellFormed(st, log, cap);
    KickOutKeeps(st, log, cap, p);
    var own := PerbillOf(p.slash, p.exposure.own);
    var prior := ProportionIn(st, p.slashEra, p.stash);
    var st1 := st.(validatorSlash := st.validatorSlash[(p.slashEra, p.stash) := (p.slash, own)]);
    SameSpans(st, st1, log, cap);
    InvWellFormed(st1, log, cap);
    InspectKeeps(st1, log, cap, p.stash, p, own);
    var v := Inspect(st1, p.stash, p, own);
    NominatorsKeep(v.store, Logged(log, p.stash, p, own, v), cap, p, prior, |p.exposure.others|);
  }

  /** A stash that is cleared keeps no record, whatever its spans were. */
  lemma ClearLeavesNothing(st: Store, log: Log, cap: Perbill, a: AccountId, n: nat)
    requires Inv(st, log, cap) && ClearStash(st, a, n).Some?
    ensures var st1 := ClearStash(st, a, n).value;
      a !in st1.spans && forall i: nat :: (a, i) !in st1.records
  {
    var st1 := ClearStash(st, a, n).value;
    forall i: nat ensures (a, i) !in st1.records {
      assert SpanInv(SpansOf(st, a), StoredRecord(st, a, i), log, cap, a, i);
    }
  }

  lemma ClearKeeps(st: Store, log: Log, cap: Perbill, a: AccountId, n: nat)
    requires Inv(st, log, cap) && ClearStash(st, a, n).Some?
    ensures Inv(ClearStash(st, a, n).value, Then(log, Cleared(a)), cap)
  {
    var st1 := ClearStash(st, a, n).value;
    ClearLeavesNothing(st, log, cap, a, n);
    forall b: AccountId, i: nat
      ensures SpanInv(SpansOf(st1, b), StoredRecord(st1, b, i), Then(log, Cleared(a)), cap, b, i)
    {
      assert SpanInv(SpansOf(st, b), StoredRecord(st, b, i), log, cap, b, i);
    }
    forall b: AccountId ensures LatestInv(SpansOf(st1, b), Then(log, Cleared(a)), b) {
      assert LatestInv(SpansOf(st, b), log, b);
    }
  }

  ghost predicate WithinCap(s: Step, cap: Perbill) { s.Offence? ==> s.params.rewardProportion <= cap }

  lemma NextKeeps(w: World, s: Step, cap: Perbill)
    requires Inv(w.store, w.log, cap) && WithinCap(s, cap)
    ensures var r := Next(w, s); Inv(r.store, r.log, cap)
  {
    match s
    case Offence(p) => OffenceKeeps(w.store, w.log, cap, p);
    case ObsoleteEra(e) => SameSpans(w.store, ClearEra(w.store, e), w.log, cap);
    case KillStash(a, n) =>
      if ClearStash(w.store, a, n).Some? {
        ClearKeeps(w.store, w.log, cap, a, n);
      }
  }

  /** The invariant holds after every run whose reward proportions stay within the cap. */
  lemma {:induction false} EveryRunKeepsHistory(steps: seq<Step>, k: nat, cap: Perbill)
    requires k <= |steps| && forall j :: 0 <= j < k ==> WithinCap(steps[j], cap)
    ensures Inv(RunTo(steps, k).store, RunTo(steps, k).log, cap)
  {
    hide Next;
    if k == 0 {
    } else {
      EveryRunKeepsHistory(steps, k - 1, cap);
      NextKeeps(RunTo(steps, k - 1), steps[k - 1], cap);
    }
  }

  // ---------- the theorems ----------

  /** Everything charged to a stash since it was last cleared. */
  function TotalCharged(log: Log, a: AccountId): nat
  {
    match log
    case Start => 0
    case Then(b, Charge(s, _, _, _, charged, _, _)) => TotalCharged(b, a) + if s == a then charged else 0
    case Then(b, Cleared(s)) => if s == a then 0 else TotalCharged(b, a)
  }

  /** The sum of the largest slash of each span below `n`. */
  function SumOfMaxima(log: Log, a: AccountId, n: nat): nat
  {
    if n == 0 then 0 else SumOfMaxima(log, a, n - 1) + MaxSubmitted(log, a, n - 1)
  }

  function SumOfCharges(log: Log, a: AccountId, n: nat): nat
  {
    if n == 0 then 0 else SumOfCharges(log, a, n - 1) + Charged(log, a, n - 1)
  }

  lemma {:induction false} ChargeOneSpan(log: Log, e: Event, a: AccountId, n: nat)
    requires e.Charge?
    ensures SumOfCharges(Then(log, e), a, n)
         == SumOfCharges(log, a, n) + if e.stash == a && e.index < n then e.charged else 0
  {
    if n == 0 {
    } else {
      ChargeOneSpan(log, e, a, n - 1);
    }
  }

  lemma {:induction false} ForgetOneStash(log: Log, e: Event, a: AccountId, n: nat)
    requires e.Cleared?
    ensures SumOfCharges(Then(log, e), a, n) == if e.cleared == a then 0 else SumOfCharges(log, a, n)
  {
    if n == 0 {
    } else {
      ForgetOneStash(log, e, a, n - 1);
    }
  }

  /** No charge since the last clearing names an index of `n` or more. */
  ghost predicate IndicesBelow(log: Log, a: AccountId, n: nat)
  {
    match log
    case Start => true
    case Then(b, Charge(s, j, _, _, _, _, _)) => IndicesBelow(b, a, n) && (s == a && j >= n ==> log.last.charged == 0)
    case Then(b, Cleared(s)) => s == a || IndicesBelow(b, a, n)
  }

  lemma {:induction false} TotalIsSumOverSpans(log: Log, a: AccountId, n: nat)
    requires IndicesBelow(log, a, n)
    ensures TotalCharged(log, a) == SumOfCharges(log, a, n)
  {
    match log
    case Start => EmptySum(a, n);
    case Then(b, e) =>
      if e.Charge? {
        TotalIsSumOverSpans(b, a, n);
        ChargeOneSpan(b, e, a, n);
      } else {
        ForgetOneStash(b, e, a, n);
        if e.cleared != a {
          TotalIsSumOverSpans(b, a, n);
        }
      }
  }

  lemma {:induction false} EmptySum(a: AccountId, n: nat)
    ensures SumOfCharges(Start, a, n) == 0
  {
    if n == 0 {
    } else {
      EmptySum(a, n - 1);
    }
  }

  /** A span without charges was charged nothing by any event. */
  lemma {:induction false} UnchargedAbove(log: Log, a: AccountId, n: nat)
    requires forall i: nat :: i >= n ==> Charged(log, a, i) == 0
    ensures IndicesBelow(log, a, n)
  {
    match log
    case Start =>
    case Then(b, Charge(s, j, _, _, charged, _, _)) =>
      forall i: nat | i >= n ensures Charged(b, a, i) == 0 {
        assert Charged(log, a, i) == 0;
      }
      assert s == a && j >= n ==> Charged(log, a, j) == 0;
      UnchargedAbove(b, a, n);
    case Then(b, Cleared(s)) =>
      if s != a {
        forall i: nat | i >= n ensures Charged(b, a, i) == 0 {
          assert Charged(log, a, i) == 0;
        }
        UnchargedAbove(b, a, n);
      }
  }

  lemma {:induction false} MaximaAreCharges(log: Log, a: AccountId, n: nat)
    requires forall i: nat :: Charged(log, a, i) == MaxSubmitted(log, a, i)
    ensures SumOfMaxima(log, a, n) == SumOfCharges(log, a, n)
  {
    if n == 0 {
    } else {
      MaximaAreCharges(log, a, n - 1);
    }
  }

  /**
   * The theorem of the design: after every run, what a stash has been charged since it was last
   * cleared is the sum, over its spans, of the largest slash submitted in the span.
   */
  lemma MaximumPerSpan(steps: seq<Step>, a: AccountId)
    ensures var w := RunTo(steps, |steps|);
      var n := if a in w.store.spans then w.store.spans[a].spanIndex + 1 else 0;
      && TotalCharged(w.log, a) == SumOfMaxima(w.log, a, n)
      && forall i: nat :: Charged(w.log, a, i) == MaxSubmitted(w.log, a, i)
  {
    var w := RunTo(steps, |steps|);
    EveryRunKeepsHistory(steps, |steps|, BILLION);
    var n := if a in w.store.spans then w.store.spans[a].spanIndex + 1 else 0;
    forall i: nat
      ensures Charged(w.log, a, i) == MaxSubmitted(w.log, a, i)
      ensures i >= n ==> Charged(w.log, a, i) == 0
    {
      assert SpanInv(SpansOf(w.store, a), StoredRecord(w.store, a, i), w.log, BILLION, a, i);
    }
    UnchargedAbove(w.log, a, n);
    TotalIsSumOverSpans(w.log, a, n);
    MaximaAreCharges(w.log, a, n);
  }

  /** Reporters of a span never draw more than the capped fraction of its largest slash. */
  lemma RewardsWithinFraction(steps: seq<Step>, cap: Perbill, a: AccountId, i: nat)
    requires forall j :: 0 <= j < |steps| ==> WithinCap(steps[j], cap)
    ensures var w := RunTo(steps, |steps|);
      && Rewarded(w.log, a, i) <= PerbillOf(cap, MaxSubmitted(w.log, a, i))
      && var r := RecordOf(w.store, a, i); r.paidOut <= PerbillOf(cap, r.slashed)
  {
    EveryRunKeepsHistory(steps, |steps|, cap);
    var w := RunTo(steps, |steps|);
    assert SpanInv(SpansOf(w.store, a), StoredRecord(w.store, a, i), w.log, cap, a, i);
  }

  /** The stored `lastNonzeroSlash` is the latest era whose slash charged the stash. */
  lemma LastNonzeroSlashIsLatest(steps: seq<Step>, a: AccountId)
    ensures var w := RunTo(steps, |steps|);
      a in w.store.spans ==> w.store.spans[a].lastNonzeroSlash == LatestCharged(w.log, a)
  {
    EveryRunKeepsHistory(steps, |steps|, BILLION);
    var w := RunTo(steps, |steps|);
    assert LatestInv(SpansOf(w.store, a), w.log, a);
  }

  /** Stored records belong to live spans, so a span that is opened next starts from an empty record. */
  lemma RecordsAreLive(steps: seq<Step>, a: AccountId, i: nat)
    ensures var st := RunTo(steps, |steps|).store;
      && ((a, i) in st.records ==> a in st.spans && Live(st.spans[a], i))
      && (a in st.spans && i == st.spans[a].spanIndex + 1 ==> RecordOf(st, a, i) == SpanRecord(0, 0))
  {
    EveryRunKeepsHistory(steps, |steps|, BILLION);
    var w := RunTo(steps, |steps|);
    assert SpanInv(SpansOf(w.store, a), StoredRecord(w.store, a, i), w.log, BILLION, a, i);
  }

  // ---------- a pruned index is never charged again ----------

  /** How often the log names span `i` of a stash. */
  function Mentions(log: Log, a: AccountId, i: nat): nat
  {
    match log
    case Start => 0
    case Then(b, e) => Mentions(b, a, i) + if e.Charge? && e.stash == a && e.index == i then 1 else 0
  }

  ghost predicate Pruned(st: Store, a: AccountId, i: nat)
  {
    a in st.spans && i < Earliest(st.spans[a])
  }

  /** Closing an inspection touches one stash and never lowers its earliest index. */
  lemma ClosedMovesUp(st: Store, b: AccountId, end: bool, changed: bool, p: SlashParams)
    requires WellFormedStore(st) && b in st.spans
    ensures var r := Closed(st, b, end, changed, p);
      && b in r.spans && Earliest(r.spans[b]) >= Earliest(st.spans[b])
      && forall a :: a != b && a in st.spans ==> a in r.spans && r.spans[a] == st.spans[a]
  {
    var s := if end then EndSpan(st.spans[b], p.now).0 else st.spans[b];
    EndSpanWellFormed(st.spans[b], p.now);
    PruneWellFormed(s, p.windowStart);
  }

  lemma InspectMovesUp(st: Store, b: AccountId, p: SlashParams, slash: nat)
    requires WellFormedStore(st)
    ensures var v := Inspect(st, b, p, slash);
      var s := Fetched(st, b, p.windowStart).spans[b];
      && b in v.store.spans && Earliest(v.store.spans[b]) >= Earliest(s)
      && (v.target.Some? ==> v.target.value >= Earliest(s))
      && forall a :: a != b && a in st.spans ==> a in v.store.spans && v.store.spans[a] == st.spans[a]
  {
    hide UpdateRecord, Closed;
    var st1 := Fetched(st, b, p.windowStart);
    var s := st1.spans[b];
    FindExact(s, p.slashEra, 0);
    if Find(s, p.slashEra).Some? {
      var i := Find(s, p.slashEra).value;
      var u := UpdateRecord(RecordOf(st1, b, i), slash, p.rewardProportion);
      ClosedMovesUp(ChargedStore(st1, b, i, p.slashEra, u), b, i == s.spanIndex, u.changed, p);
    }
  }

  lemma InspectPassesBy(st: Store, log: Log, b: AccountId, p: SlashParams, slash: nat, a: AccountId, i: nat)
    requires WellFormedStore(st) && Pruned(st, a, i)
    ensures var v := Inspect(st, b, p, slash);
      Pruned(v.store, a, i) && Mentions(Logged(log, b, p, slash, v), a, i) == Mentions(log, a, i)
  {
    InspectMovesUp(st, b, p, slash);
    hide Inspect;
  }

  lemma {:induction false} NominatorsPassBy(st: Store, log: Log, p: SlashParams, prior: Perbill, k: nat,
      a: AccountId, i: nat)
    requires WellFormedStore(st) && Pruned(st, a, i) && k <= |p.exposure.others|
    ensures var n := NominatorsTo(st, log, p, prior, k);
      Pruned(n.store, a, i) && Mentions(n.log, a, i) == Mentions(log, a, i)
  {
    if k == 0 {
    } else {
      NominatorsPassBy(st, log, p, prior, k - 1, a, i);
      var before := NominatorsTo(st, log, p, prior, k - 1);
      var who := p.exposure.others[k - 1].0;
      var st1 := WithNominatorSlash(before.store, p, prior, k - 1);
      InspectPassesBy(st1, before.log, who, p, NominatorSlashOf(st1, p.slashEra, who), a, i);
    }
  }

  lemma KickOutPassesBy(st: Store, p: SlashParams, a: AccountId, i: nat)
    requires WellFormedStore(st) && Pruned(st, a, i)
    ensures Pruned(KickOut(st, p), a, i)
  {
    var st1 := Fetched(st, p.stash, p.windowStart);
    var s := st1.spans[p.stash];
    ClosedMovesUp(st1, p.stash, Find(s, p.slashEra) == Some(s.spanIndex), false, p);
  }

  lemma NextPassesBy(w: World, s: Step, a: AccountId, i: nat)
    requires WellFormedStore(w.store) && Pruned(w.store, a, i) && !(s.KillStash? && s.stash == a)
    ensures var r := Next(w, s); Pruned(r.store, a, i) && Mentions(r.log, a, i) == Mentions(w.log, a, i)
  {
    hide Inspect, NominatorsTo, KickOut, Logged, PerbillOf;
    match s
    case ObsoleteEra(_) =>
    case KillStash(_, _) =>
    case Offence(p) =>
      KickOutPassesBy(w.store, p, a, i);
      var own := PerbillOf(p.slash, p.exposure.own);
      var prior := ProportionIn(w.store, p.slashEra, p.stash);
      var st1 := w.store.(validatorSlash := w.store.validatorSlash[(p.slashEra, p.stash) := (p.slash, own)]);
      InspectPassesBy(st1, w.log, p.stash, p, own, a, i);
      var v := Inspect(st1, p.stash, p, own);
      NominatorsPassBy(v.store, Logged(w.log, p.stash, p, own, v), p, prior, |p.exposure.others|, a, i);
  }

  /** Once a span index has been pruned, no later step of the run charges it, unless the stash is cleared. */
  lemma {:induction false} PrunedNeverChargedAgain(steps: seq<Step>, j: nat, k: nat, a: AccountId, i: nat)
    requires j <= k <= |steps| && Pruned(RunTo(steps, j).store, a, i)
    requires forall m :: j <= m < k ==> !(steps[m].KillStash? && steps[m].stash == a)
    ensures Pruned(RunTo(steps, k).store, a, i)
    ensures Mentions(RunTo(steps, k).log, a, i) == Mentions(RunTo(steps, j).log, a, i)
  {
    hide Next, WellFormedStore, Pruned, Mentions;
    if j == k {
    } else {
      PrunedNeverChargedAgain(steps, j, k - 1, a, i);
      NextPassesBy(RunTo(steps, k - 1), steps[k - 1], a, i);
    }
  }

  // ---------- the slash to apply is what the log was charged ----------

  /** Everything ever charged, and everything ever rewarded. */
  function AllCharges(log: Log): nat
  {
    match log
    case Start => 0
    case Then(b, e) => AllCharges(b) + if e.Charge? then e.charged else 0
  }

  function AllRewards(log: Log): nat
  {
    match log
    case Start => 0
    case Then(b, e) => AllRewards(b) + if e.Charge? then e.reward else 0
  }

  lemma {:induction false} AmountsPrefix(a: seq<(AccountId, nat)>, b: seq<(AccountId, nat)>, k: nat)
    requires k <= |a|
    ensures AmountsTo(a + b, k) == AmountsTo(a, k)
  {
    if k == 0 {
    } else {
      AmountsPrefix(a, b, k - 1);
    }
  }

  lemma LoggedAddsUp(st: Store, log: Log, a: AccountId, p: SlashParams, slash: nat)
    requires WellFormedStore(st)
    ensures var v := Inspect(st, a, p, slash);
      && AllCharges(Logged(log, a, p, slash, v)) == AllCharges(log) + v.charged
      && AllRewards(Logged(log, a, p, slash, v)) == AllRewards(log) + v.reward
  {
  }

  lemma NominatorSlashKeepsSpans(st: Store, p: SlashParams, prior: Perbill, k: nat)
    requires WellFormedStore(st) && k < |p.exposure.others|
    ensures WellFormedStore(WithNominatorSlash(st, p, prior, k))
  {
  }

  lemma {:induction false} NominatorsAddUp(st: Store, log: Log, p: SlashParams, prior: Perbill, k: nat)
    requires WellFormedStore(st) && k <= |p.exposure.others|
    ensures var n := NominatorsTo(st, log, p, prior, k);
      && AllCharges(n.log) == AllCharges(log) + AmountsTo(n.slashed, k)
      && AllRewards(n.log) == AllRewards(log) + n.payout
      && forall j :: 0 <= j < k ==> n.slashed[j].0 == p.exposure.others[j].0
  {
    hide Inspect, WithNominatorSlash, NominatorSlashOf, AllCharges, AllRewards, Logged, WellFormedStore;
    if k == 0 {
    } else {
      NominatorsAddUp(st, log, p, prior, k - 1);
      var before := NominatorsTo(st, log, p, prior, k - 1);
      var who := p.exposure.others[k - 1].0;
      var st1 := WithNominatorSlash(before.store, p, prior, k - 1);
      var eraSlash := NominatorSlashOf(st1, p.slashEra, who);
      NominatorSlashKeepsSpans(before.store, p, prior, k - 1);
      LoggedAddsUp(st1, before.log, who, p, eraSlash);
      AmountsPrefix(before.slashed, [(who, Inspect(st1, who, p, eraSlash).charged)], k - 1);
    }
  }

  /** An unapplied slash names the validator and its nominators and carries exactly the new charges and rewards. */
  lemma UnappliedIsCharged(st: Store, log: Log, p: SlashParams)
    requires WellFormedStore(st)
    ensures var c := ComputeSlash(st, log, p);
      match c.unapplied
      case None => c.log == log
      case Some(u) =>
        && u.validator == p.stash
        && |u.others| == |p.exposure.others|
        && (forall j :: 0 <= j < |u.others| ==> u.others[j].0 == p.exposure.others[j].0)
        && AllCharges(c.log) == AllCharges(log) + u.own + AmountsTo(u.others, |u.others|)
        && AllRewards(c.log) == AllRewards(log) + u.payout
  {
    hide Inspect, NominatorsTo;
    var own := PerbillOf(p.slash, p.exposure.own);
    var prior := ProportionIn(st, p.slashEra, p.stash);
    var st1 := st.(validatorSlash := st.validatorSlash[(p.slashEra, p.stash) := (p.slash, own)]);
    LoggedAddsUp(st1, log, p.stash, p, own);
    var v := Inspect(st1, p.stash, p, own);
    NominatorsAddUp(v.store, Logged(log, p.stash, p, own, v), p, prior, |p.exposure.others|);
  }
}
