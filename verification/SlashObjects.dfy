/** The slashing code as it runs: storage updated in place, spans inspected and written back. */
module SlashObjects {
  import opened Numbers
  import opened Sums
  import opened Spans
  import opened SlashStore

  /** A decoded copy of one stash's spans, edited in place. */
  class StoredSpans {
    var spanIndex: nat
    var lastStart: nat
    var lastNonzeroSlash: nat
    var prior: seq<nat>

    constructor (s: SlashingSpans)
      ensures View() == s
    {
      spanIndex, lastStart, lastNonzeroSlash, prior := s.spanIndex, s.lastStart, s.lastNonzeroSlash, s.prior;
    }

    function View(): SlashingSpans
      reads this
    {
      SlashingSpans(spanIndex, lastStart, lastNonzeroSlash, prior)
    }

    method EndSpan(now: nat) returns (ended: bool)
      modifies this
      ensures (View(), ended) == Spans.EndSpan(old(View()), now)
    {
      var nextStart := now + 1;
      if nextStart <= lastStart {
        return false;
      }
      prior := [nextStart - lastStart] + prior;
      lastStart := nextStart;
      spanIndex := spanIndex + 1;
      ended := true;
    }

    /** All spans, most recent first. */
    method Iter() returns (spans: seq<Span>)
      requires WellFormed(View())
      ensures spans == Decoded(View())
    {
      var start, index := lastStart, spanIndex;
      spans := [Span(index, start, None)];
      for k := 0 to |prior|
        invariant start == StartAt(View(), k) && index == spanIndex - k
        invariant |spans| == k + 1 && forall j :: 0 <= j <= k ==> spans[j] == SpanAt(View(), j)
      {
        PriorBound(View(), k + 1);
        start := start - prior[k];
        index := index - 1;
        spans := spans + [Span(index, start, Some(prior[k]))];
      }
    }

    /** The span that covers an era. */
    method EraSpan(era: nat) returns (r: Option<Span>)
      requires WellFormed(View())
      ensures match r case Some(s) => Find(View(), era) == Some(s.index) case None => Find(View(), era) == None
    {
      var spans := Iter();
      for k := 0 to |spans|
        invariant Find(View(), era) == FindFrom(View(), era, k)
      {
        if ContainsEra(spans[k], era) {
          return Some(spans[k]);
        }
      }
      r := None;
    }

    /** Drops spans that ended before the window and returns the range of their indices. */
    method Prune(windowStart: nat) returns (pruned: Option<(nat, nat)>)
      requires WellFormed(View())
      modifies this
      ensures (View(), pruned) == Spans.Prune(old(View()), windowStart)
    {
      var spans := Iter();
      ghost var was := View();
      var kept := 0;
      while kept < |prior| && !(spans[kept + 1].start + spans[kept + 1].length.value <= windowStart)
        invariant kept <= |prior| && View() == was
        invariant KeptFrom(was, windowStart, 0) == KeptFrom(was, windowStart, kept)
      {
        assert !Old(was, windowStart, kept + 1);
        kept := kept + 1;
      }
      assert kept < |prior| ==> Old(was, windowStart, kept + 1);
      var earliest := spanIndex - |prior|;
      pruned := None;
      if kept < |prior| {
        prior := prior[..kept];
        pruned := Some((earliest, spanIndex - |prior|));
      }
      assert prior == was.prior[..kept];
      lastStart := Max(lastStart, windowStart);
    }
  }

  lemma DropNone(records: map<(AccountId, nat), SpanRecord>, stash: AccountId, at: nat)
    ensures Without(records, stash, at, at) == records
  {
  }

  /** Removing the record at either end of a range widens it. */
  lemma DropOne(records: map<(AccountId, nat), SpanRecord>, stash: AccountId, from: int, to: int)
    requires from <= to
    ensures to >= 0 ==> Without(records, stash, from, to) - {(stash, to)} == Without(records, stash, from, to + 1)
    ensures from > 0 ==>
      Without(records, stash, from, to) - {(stash, from - 1)} == Without(records, stash, from - 1, to)
  {
  }

  /** The storage maps of the pallet. */
  class SlashStorage {
    var spans: map<AccountId, SlashingSpans>
    var records: map<(AccountId, nat), SpanRecord>
    var validatorSlash: map<(nat, AccountId), (Perbill, nat)>
    var nominatorSlash: map<(nat, AccountId), nat>

    constructor ()
      ensures View() == Genesis().store
    {
      spans, records, validatorSlash, nominatorSlash := map[], map[], map[], map[];
    }

    function View(): Store
      reads this
    {
      Store(spans, records, validatorSlash, nominatorSlash)
    }

    method ClearEraMetadata(era: nat)
      modifies this
      ensures View() == ClearEra(old(View()), era)
    {
      validatorSlash := map k | k in validatorSlash && k.0 != era :: validatorSlash[k];
      nominatorSlash := map k | k in nominatorSlash && k.0 != era :: nominatorSlash[k];
    }

    method ClearStashMetadata(stash: AccountId, numSlashingSpans: nat) returns (ok: bool)
      requires WellFormedStore(View())
      modifies this
      ensures match ClearStash(old(View()), stash, numSlashingSpans)
        case Some(st) => ok && View() == st
        case None => !ok && View() == old(View())
    {
      if stash !in spans {
        return true;
      }
      var s := new StoredSpans(spans[stash]);
      var all := s.Iter();
      if numSlashingSpans < |all| {
        return false;
      }
      ghost var was, last := records, s.spanIndex;
      DropNone(was, stash, last + 1);
      spans := spans - {stash};
      for k := 0 to |all|
        invariant View() == old(View()).(spans := old(spans) - {stash}, records := records)
        invariant records == Without(was, stash, last + 1 - k, last + 1)
      {
        DropOne(was, stash, last + 1 - k, last + 1);
        records := records - {(stash, all[k].index)};
      }
      ok := true;
    }
  }

  /** Spans being inspected; dropping them writes alterations back. */
  class InspectingSpans {
    const storage: SlashStorage
    const stash: AccountId
    const windowStart: nat
    const rewardProportion: Perbill
    const spans: StoredSpans
    var dirty: bool
    var paidOut: nat
    var slashOf: nat

    constructor Fetch(storage: SlashStorage, stash: AccountId, windowStart: nat, rewardProportion: Perbill)
      modifies storage
      ensures storage.View() == Fetched(old(storage.View()), stash, windowStart)
      ensures this.storage == storage && this.stash == stash
      ensures this.windowStart == windowStart && this.rewardProportion == rewardProportion
      ensures fresh(spans) && spans.View() == storage.View().spans[stash]
      ensures !dirty && paidOut == 0 && slashOf == 0
    {
      var s;
      if stash in storage.spans {
        s := storage.spans[stash];
      } else {
        s := NewSpans(windowStart);
        storage.spans := storage.spans[stash := s];
      }
      var copy := new StoredSpans(s);
      this.storage, this.stash := storage, stash;
      this.windowStart, this.rewardProportion := windowStart, rewardProportion;
      spans := copy;
      dirty, paidOut, slashOf := false, 0, 0;
    }

    method EndSpan(now: nat)
      modifies this`dirty, spans
      ensures spans.View() == Spans.EndSpan(old(spans.View()), now).0
      ensures dirty == (old(dirty) || Spans.EndSpan(old(spans.View()), now).1)
    {
      var ended := spans.EndSpan(now);
      dirty := ended || dirty;
    }

    method AddSlash(amount: nat, slashEra: nat)
      modifies this`slashOf, spans`lastNonzeroSlash
      ensures slashOf == old(slashOf) + amount
      ensures spans.View() == WithSlashAt(old(spans.View()), slashEra)
    {
      slashOf := slashOf + amount;
      spans.lastNonzeroSlash := Max(spans.lastNonzeroSlash, slashEra);
    }

    /** Charges what a slash takes beyond the span's maximum so far. */
    method CompareAndUpdateSpanSlash(slashEra: nat, slash: nat) returns (target: Option<nat>)
      requires WellFormed(spans.View())
      modifies this, spans, storage
      ensures target == Find(old(spans.View()), slashEra)
      ensures target == None ==>
        && spans.View() == old(spans.View()) && storage.View() == old(storage.View())
        && dirty == old(dirty) && paidOut == old(paidOut) && slashOf == old(slashOf)
      ensures target.Some? ==>
        var i := target.value;
        var u := UpdateRecord(RecordOf(old(storage.View()), stash, i), slash, rewardProportion);
        && spans.View() == (if u.charged > 0 then WithSlashAt(old(spans.View()), slashEra) else old(spans.View()))
        && storage.View() == old(storage.View()).(
             records := if u.changed then old(storage.records)[(stash, i) := u.record] else old(storage.records))
        && dirty == (old(dirty) || u.changed)
        && paidOut == old(paidOut) + u.reward && slashOf == old(slashOf) + u.charged
    {
      hide PerbillOf;
      var found := spans.EraSpan(slashEra);
      if found == None {
        return None;
      }
      var index := found.value.index;
      var record := RecordOf(storage.View(), stash, index);
      var changed := false;
      var reward := 0;
      if record.slashed < slash {
        var difference := slash - record.slashed;
        record := record.(slashed := slash);
        reward := PerbillOf(REWARD_F1, SatSub(PerbillOf(rewardProportion, slash), record.paidOut));
        AddSlash(difference, slashEra);
        changed := true;
      } else if record.slashed == slash {
        reward := PerbillOf(REWARD_F1, SatSub(PerbillOf(rewardProportion, slash), record.paidOut));
      }
      if reward != 0 {
        changed := true;
        record := record.(paidOut := record.paidOut + reward);
        paidOut := paidOut + reward;
      }
      if changed {
        dirty := true;
        storage.records := storage.records[(stash, index) := record];
      }
      target := Some(index);
    }

    /** What going out of scope does. */
    method Drop()
      requires WellFormed(spans.View())
      modifies spans, storage
      ensures storage.View() ==
        if dirty then WriteBack(old(storage.View()), stash, old(spans.View()), windowStart) else old(storage.View())
    {
      if !dirty {
        return;
      }
      ghost var was := storage.records;
      var pruned := spans.Prune(windowStart);
      if pruned.Some? {
        var (start, end) := pruned.value;
        PruneWellFormed(old(spans.View()), windowStart);
        DropNone(was, stash, start);
        for i := start to end
          invariant storage.View() == old(storage.View()).(records := storage.records)
          invariant spans.View() == Spans.Prune(old(spans.View()), windowStart).0
          invariant storage.records == Without(was, stash, start, i)
        {
          DropOne(was, stash, start, i);
          storage.records := storage.records - {(stash, i)};
        }
      }
      storage.spans := storage.spans[stash := spans.View()];
    }
  }

  // ---------- offences ----------

  /** Charging in storage and writing spans back on drop is charging the store and closing it. */
  lemma ChargeThenClose(st: Store, stash: AccountId, i: nat, u: RecordUpdate, end: bool, p: SlashParams)
    requires WellFormedStore(st) && stash in st.spans && (u.charged > 0 ==> u.changed)
    ensures var charged := ChargedStore(st, stash, i, p.slashEra, u);
      var mid := st.(records := charged.records);
      var (s, ended) := if end then Spans.EndSpan(charged.spans[stash], p.now) else (charged.spans[stash], false);
      && WellFormed(s)
      && Closed(charged, stash, end, u.changed, p)
           == if u.changed || ended then WriteBack(mid, stash, s, p.windowStart) else mid
  {
    var charged := ChargedStore(st, stash, i, p.slashEra, u);
    EndSpanWellFormed(charged.spans[stash], p.now);
    var s := if end then Spans.EndSpan(charged.spans[stash], p.now).0 else charged.spans[stash];
    var pruned := Spans.Prune(s, p.windowStart).0;
    assert charged.spans[stash := pruned] == st.spans[stash := pruned];
    assert st.spans[stash := st.spans[stash]] == st.spans;
  }

  lemma ChangedWhenCharged()
    ensures forall r, slash, p :: UpdateRecord(r, slash, p).charged > 0 ==> UpdateRecord(r, slash, p).changed
  {
    hide PerbillOf;
  }

  /** Submits a slash against one stash: fetch its spans, charge, end the ongoing one, drop. */
  method InspectStash(storage: SlashStorage, stash: AccountId, p: SlashParams, slash: nat)
    returns (slashed: nat, reward: nat, ghost target: Option<nat>)
    requires WellFormedStore(storage.View())
    modifies storage
    ensures Visit(storage.View(), target, slashed, reward) == Inspect(old(storage.View()), stash, p, slash)
  {
    hide WriteBack, Closed, Find, Spans.EndSpan, UpdateRecord;
    ChangedWhenCharged();
    var spans := new InspectingSpans.Fetch(storage, stash, p.windowStart, p.rewardProportion);
    ghost var st1 := storage.View();
    var t := spans.CompareAndUpdateSpanSlash(p.slashEra, slash);
    target := t;
    ghost var current := t == Some(spans.spans.spanIndex);
    if t.Some? {
      ghost var u := UpdateRecord(RecordOf(st1, stash, t.value), slash, p.rewardProportion);
      ChargeThenClose(st1, stash, t.value, u, current, p);
    }
    if t == Some(spans.spans.spanIndex) {
      spans.EndSpan(p.now);
    }
    slashed, reward := spans.slashOf, spans.paidOut;
    spans.Drop();
  }

  /** Ends the validator's span without a slash when the offence is recent. */
  method KickOutIfRecent(storage: SlashStorage, p: SlashParams)
    requires WellFormedStore(storage.View())
    modifies storage
    ensures storage.View() == KickOut(old(storage.View()), p)
  {
    hide WriteBack, Find, Spans.EndSpan;
    var spans := new InspectingSpans.Fetch(storage, p.stash, p.windowStart, p.rewardProportion);
    var span := spans.spans.EraSpan(p.slashEra);
    EndSpanWellFormed(spans.spans.View(), p.now);
    if span.Some? && span.value.index == spans.spans.spanIndex {
      spans.EndSpan(p.now);
    }
    spans.Drop();
  }

  /** Adds to one nominator's slash of the era and submits the new amount. */
  method SlashNominator(storage: SlashStorage, p: SlashParams, prior: Perbill, k: nat)
    returns (eraSlash: nat, slashed: nat, reward: nat, ghost target: Option<nat>)
    requires WellFormedStore(storage.View()) && k < |p.exposure.others|
    modifies storage
    ensures var st := WithNominatorSlash(old(storage.View()), p, prior, k);
      var who := p.exposure.others[k].0;
      && eraSlash == NominatorSlashOf(st, p.slashEra, who)
      && Visit(storage.View(), target, slashed, reward) == Inspect(st, who, p, eraSlash)
  {
    hide Inspect, PerbillOf;
    var (who, value) := p.exposure.others[k];
    var ownPrior := PerbillOf(prior, value);
    var ownByValidator := PerbillOf(p.slash, value);
    eraSlash := NominatorSlashOf(storage.View(), p.slashEra, who) + SatSub(ownByValidator, ownPrior);
    storage.nominatorSlash := storage.nominatorSlash[(p.slashEra, who) := eraSlash];
    slashed, reward, target := InspectStash(storage, who, p, eraSlash);
  }

  /** Slashes every nominator behind the validator for the new maximum of the era. */
  method SlashNominators(storage: SlashStorage, p: SlashParams, prior: Perbill, ghost log: Log)
    returns (payout: nat, slashed: seq<(AccountId, nat)>, ghost newLog: Log)
    requires WellFormedStore(storage.View())
    modifies storage
    ensures Progress(storage.View(), newLog, payout, slashed)
         == NominatorsTo(old(storage.View()), log, p, prior, |p.exposure.others|)
  {
    hide Inspect, WithNominatorSlash, NominatorSlashOf;
    payout, slashed, newLog := 0, [], log;
    for k := 0 to |p.exposure.others|
      invariant Progress(storage.View(), newLog, payout, slashed) == NominatorsTo(old(storage.View()), log, p, prior, k)
    {
      var who := p.exposure.others[k].0;
      var eraSlash, nomSlashed, reward, target := SlashNominator(storage, p, prior, k);
      payout := payout + reward;
      slashed := slashed + [(who, nomSlashed)];
      newLog := Logged(newLog, who, p, eraSlash, Visit(storage.View(), target, nomSlashed, reward));
    }
  }

  /** Records an offence and computes the slash to apply, if it is a new maximum of the era. */
  method ReportOffence(storage: SlashStorage, p: SlashParams, ghost log: Log)
    returns (unapplied: Option<UnappliedSlash>, ghost newLog: Log)
    requires WellFormedStore(storage.View())
    modifies storage
    ensures Computed(storage.View(), newLog, unapplied) == ComputeSlash(old(storage.View()), log, p)
  {
    hide Inspect, PerbillOf, NominatorsTo, KickOut;
    newLog := log;
    var ownSlash := PerbillOf(p.slash, p.exposure.own);
    if PerbillOf(p.slash, p.exposure.total) == 0 {
      KickOutIfRecent(storage, p);
      return None, newLog;
    }
    var prior := ProportionIn(storage.View(), p.slashEra, p.stash);
    if p.slash <= prior {
      return None, newLog;
    }
    storage.validatorSlash := storage.validatorSlash[(p.slashEra, p.stash) := (p.slash, ownSlash)];
    var slashed, reward, target := InspectStash(storage, p.stash, p, ownSlash);
    newLog := Logged(log, p.stash, p, ownSlash, Visit(storage.View(), target, slashed, reward));
    var payout, nominators;
    payout, nominators, newLog := SlashNominators(storage, p, prior, newLog);
    unapplied := Some(UnappliedSlash(p.stash, slashed, nominators, reward + payout));
  }
}
