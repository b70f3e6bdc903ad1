/**
 * The slashing metadata kept in storage and the transitions that offences make on it. A log of the
 * charges made against each span is carried along, so that whole runs can be talked about.
 */
module SlashStore {
  import opened Numbers
  import opened Spans

  datatype SpanRecord = SpanRecord(slashed: nat, paidOut: nat)

  datatype Store = Store(
    spans: map<AccountId, SlashingSpans>,
    records: map<(AccountId, nat), SpanRecord>,
    validatorSlash: map<(nat, AccountId), (Perbill, nat)>,  // by era and validator
    nominatorSlash: map<(nat, AccountId), nat>)             // by era and nominator

  datatype Exposure = Exposure(total: nat, own: nat, others: seq<(AccountId, nat)>)

  datatype SlashParams = SlashParams(
    stash: AccountId, slash: Perbill, exposure: Exposure, slashEra: nat,
    windowStart: nat, now: nat, rewardProportion: Perbill)

  datatype UnappliedSlash = UnappliedSlash(validator: AccountId, own: nat, others: seq<(AccountId, nat)>, payout: nat)

  /** The amounts of the first `k` entries together. */
  function AmountsTo(slashed: seq<(AccountId, nat)>, k: nat): nat
    requires k <= |slashed|
  {
    if k == 0 then 0 else AmountsTo(slashed, k - 1) + slashed[k - 1].1
  }

  /** What happened to the spans, oldest first. */
  datatype Event =
    | Charge(stash: AccountId, index: nat, era: nat, submitted: nat, charged: nat, reward: nat, at: nat)
    | Cleared(cleared: AccountId)

  datatype Log = Start | Then(before: Log, last: Event)

  ghost predicate WellFormedStore(st: Store)
  {
    forall a :: a in st.spans ==> WellFormed(st.spans[a])
  }

  /** The maps kept by era are the same. */
  ghost predicate SameEras(st: Store, st': Store)
  {
    st'.validatorSlash == st.validatorSlash && st'.nominatorSlash == st.nominatorSlash
  }

  function RecordOf(st: Store, stash: AccountId, index: nat): SpanRecord
  {
    if (stash, index) in st.records then st.records[(stash, index)] else SpanRecord(0, 0)
  }

  // ---------- one stash ----------

  /** Half of the reward is paid on the first detection. */
  const REWARD_F1: Perbill := 500_000_000

  datatype RecordUpdate = RecordUpdate(record: SpanRecord, charged: nat, reward: nat, changed: bool)

  /** Compares a slash with the largest one of the span so far. */
  function UpdateRecord(r: SpanRecord, slash: nat, rewardProportion: Perbill): RecordUpdate
  {
    var charged := SatSub(slash, r.slashed);
    var reward := if r.slashed <= slash
      then PerbillOf(REWARD_F1, SatSub(PerbillOf(rewardProportion, slash), r.paidOut)) else 0;
    RecordUpdate(SpanRecord(Max(r.slashed, slash), r.paidOut + reward), charged, reward,
                 r.slashed < slash || reward != 0)
  }

  /** The store once the stash's spans have been fetched, created when missing. */
  function Fetched(st: Store, stash: AccountId, windowStart: nat): (r: Store)
    ensures stash in r.spans && SameEras(st, r)
    ensures WellFormedStore(st) ==> WellFormedStore(r)
  {
    if stash in st.spans then st else st.(spans := st.spans[stash := NewSpans(windowStart)])
  }

  /** The records without those of spans `from` up to but not including `to` of the stash. */
  function Without(records: map<(AccountId, nat), SpanRecord>, stash: AccountId, from: int, to: int)
    : map<(AccountId, nat), SpanRecord>
  {
    map k | k in records && !(k.0 == stash && from <= k.1 < to) :: records[k]
  }

  /** What dropping inspected spans does once they have been altered: prune, forget, write back. */
  ghost function WriteBack(st: Store, stash: AccountId, s: SlashingSpans, windowStart: nat): Store
    requires WellFormed(s)
  {
    var (pruned, range) := Prune(s, windowStart);
    var records := match range
      case None => st.records
      case Some((a, b)) => Without(st.records, stash, a, b);
    st.(spans := st.spans[stash := pruned], records := records)
  }

  datatype Visit = Visit(store: Store, target: Option<nat>, charged: nat, reward: nat)

  function WithSlashAt(s: SlashingSpans, era: nat): SlashingSpans
  {
    s.(lastNonzeroSlash := Max(s.lastNonzeroSlash, era))
  }

  /** The store once span `i` has been charged: its record, and the era of the last non-zero slash. */
  function ChargedStore(st: Store, stash: AccountId, i: nat, era: nat, u: RecordUpdate): (r: Store)
    requires stash in st.spans
    ensures stash in r.spans && SameEras(st, r)
    ensures WellFormedStore(st) ==> WellFormedStore(r)
  {
    var s := if u.charged > 0 then WithSlashAt(st.spans[stash], era) else st.spans[stash];
    var records := if u.changed then st.records[(stash, i) := u.record] else st.records;
    st.(spans := st.spans[stash := s], records := records)
  }

  /** Ends the stash's ongoing span when `end` says so, and writes back when anything was altered. */
  ghost function Closed(st: Store, stash: AccountId, end: bool, changed: bool, p: SlashParams): (r: Store)
    requires WellFormedStore(st) && stash in st.spans
    ensures WellFormedStore(r) && SameEras(st, r)
  {
    var (s, ended) := if end then EndSpan(st.spans[stash], p.now) else (st.spans[stash], false);
    EndSpanWellFormed(st.spans[stash], p.now);
    PruneWellFormed(s, p.windowStart);
    if changed || ended then WriteBack(st, stash, s, p.windowStart) else st
  }

  /** Submits one slash against the spans of a stash. */
  ghost function Inspect(st: Store, stash: AccountId, p: SlashParams, slash: nat): (v: Visit)
    requires WellFormedStore(st)
    ensures WellFormedStore(v.store) && SameEras(st, v.store)
  {
    var st1 := Fetched(st, stash, p.windowStart);
    var s := st1.spans[stash];
    match Find(s, p.slashEra)
    case None => Visit(st1, None, 0, 0)
    case Some(i) =>
      var u := UpdateRecord(RecordOf(st1, stash, i), slash, p.rewardProportion);
      var st2 := ChargedStore(st1, stash, i, p.slashEra, u);
      Visit(Closed(st2, stash, i == s.spanIndex, u.changed, p), Some(i), u.charged, u.reward)
  }

  function Logged(log: Log, stash: AccountId, p: SlashParams, slash: nat, v: Visit): Log
  {
    match v.target
    case None => log
    case Some(i) => Then(log, Charge(stash, i, p.slashEra, slash, v.charged, v.reward, p.now))
  }

  /** Ends the validator's span without slashing, when the offence falls in the ongoing one. */
  ghost function KickOut(st: Store, p: SlashParams): (r: Store)
    requires WellFormedStore(st)
    ensures WellFormedStore(r) && SameEras(st, r)
  {
    var st1 := Fetched(st, p.stash, p.windowStart);
    var s := st1.spans[p.stash];
    Closed(st1, p.stash, Find(s, p.slashEra) == Some(s.spanIndex), false, p)
  }

  // ---------- an offence ----------

  function ProportionIn(st: Store, era: nat, validator: AccountId): Perbill
  {
    if (era, validator) in st.validatorSlash then st.validatorSlash[(era, validator)].0 else 0
  }

  function NominatorSlashOf(st: Store, era: nat, nominator: AccountId): nat
  {
    if (era, nominator) in st.nominatorSlash then st.nominatorSlash[(era, nominator)] else 0
  }

  datatype Progress = Progress(store: Store, log: Log, payout: nat, slashed: seq<(AccountId, nat)>)

  /** Adds what the new proportion takes beyond the prior one to the nominator's slash of the era. */
  function WithNominatorSlash(st: Store, p: SlashParams, prior: Perbill, k: nat): (r: Store)
    requires k < |p.exposure.others|
    ensures r.spans == st.spans && r.records == st.records && r.validatorSlash == st.validatorSlash
  {
    var (who, value) := p.exposure.others[k];
    var difference := SatSub(PerbillOf(p.slash, value), PerbillOf(prior, value));
    var eraSlash := NominatorSlashOf(st, p.slashEra, who) + difference;
    st.(nominatorSlash := st.nominatorSlash[(p.slashEra, who) := eraSlash])
  }

  /** The first `k` nominators of the exposure have been slashed. */
  ghost function NominatorsTo(st: Store, log: Log, p: SlashParams, prior: Perbill, k: nat): (r: Progress)
    requires WellFormedStore(st) && k <= |p.exposure.others|
    ensures WellFormedStore(r.store)
    ensures |r.slashed| == k
  {
    if k == 0 then Progress(st, log, 0, [])
    else
      var before := NominatorsTo(st, log, p, prior, k - 1);
      var who := p.exposure.others[k - 1].0;
      var st1 := WithNominatorSlash(before.store, p, prior, k - 1);
      var eraSlash := NominatorSlashOf(st1, p.slashEra, who);
      var v := Inspect(st1, who, p, eraSlash);
      Progress(v.store, Logged(before.log, who, p, eraSlash, v), before.payout + v.reward,
          before.slashed + [(who, v.charged)])
  }

  datatype Computed = Computed(store: Store, log: Log, unapplied: Option<UnappliedSlash>)

  /** The metadata after an offence is reported, and the slash to apply later, if any. */
  ghost function ComputeSlash(st: Store, log: Log, p: SlashParams): (r: Computed)
    requires WellFormedStore(st)
    ensures WellFormedStore(r.store)
  {
    var own := PerbillOf(p.slash, p.exposure.own);
    var prior := ProportionIn(st, p.slashEra, p.stash);
    if PerbillOf(p.slash, p.exposure.total) == 0 then Computed(KickOut(st, p), log, None)
    else if p.slash <= prior then Computed(st, log, None)
    else
      var st1 := st.(validatorSlash := st.validatorSlash[(p.slashEra, p.stash) := (p.slash, own)]);
      var v := Inspect(st1, p.stash, p, own);
      var n := NominatorsTo(v.store, Logged(log, p.stash, p, own, v), p, prior, |p.exposure.others|);
      Computed(n.store, n.log, Some(UnappliedSlash(p.stash, v.charged, n.slashed, v.reward + n.payout)))
  }

  // ---------- clearing ----------

  function ClearEra(st: Store, era: nat): Store
  {
    st.(validatorSlash := map k | k in st.validatorSlash && k.0 != era :: st.validatorSlash[k],
        nominatorSlash := map k | k in st.nominatorSlash && k.0 != era :: st.nominatorSlash[k])
  }

  /** Forgets a dead stash; refused when fewer spans are announced than it has. */
  function ClearStash(st: Store, stash: AccountId, numSlashingSpans: nat): Option<Store>
  {
    if stash !in st.spans then Some(st)
    else if numSlashingSpans < 1 + |st.spans[stash].prior| then None
    else
      var s := st.spans[stash];
      Some(st.(spans := st.spans - {stash},
               records := Without(st.records, stash, Earliest(s), s.spanIndex + 1)))
  }

  // ---------- runs ----------

  datatype Step =
    | Offence(params: SlashParams)
    | ObsoleteEra(era: nat)
    | KillStash(stash: AccountId, numSlashingSpans: nat)

  datatype World = World(store: Store, log: Log)

  ghost function Next(w: World, s: Step): (r: World)
    requires WellFormedStore(w.store)
    ensures WellFormedStore(r.store)
  {
    match s
    case Offence(p) => var c := ComputeSlash(w.store, w.log, p); World(c.store, c.log)
    case ObsoleteEra(e) => w.(store := ClearEra(w.store, e))
    case KillStash(a, n) =>
      match ClearStash(w.store, a, n)
      case None => w
      case Some(st) => World(st, Then(w.log, Cleared(a)))
  }

  function Genesis(): World { World(Store(map[], map[], map[], map[]), Start) }

  ghost function RunTo(steps: seq<Step>, k: nat): (r: World)
    requires k <= |steps|
    ensures WellFormedStore(r.store)
  {
    if k == 0 then Genesis() else Next(RunTo(steps, k - 1), steps[k - 1])
  }
}
