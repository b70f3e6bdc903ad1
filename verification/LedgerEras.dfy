/** What eras allow over whole runs: nothing is withdrawn before its time, and slashes respect the window. */
module LedgerEras {
  import opened Numbers
  import opened Sums
  import opened Ledger
  import opened LedgerExact
  import opened LedgerRuns

  /** What unlocks by an era. */
  function QueuedBy(chunks: seq<Chunk>, era: nat): nat { ValueIn(chunks, By(era)) }

  /** What a step moves from active to the queue. */
  function Moved(r: Run, s: Step, c: Config): nat
  {
    if s.Unbond? then SatSub(r.ledger.active, Next(r, s, c).ledger.active) else 0
  }

  /** What was unbonded at least a bonding duration before an era. */
  function Matured(steps: seq<Step>, c: Config, era: nat): nat
  {
    if steps == [] then 0
    else
      var n := |steps| - 1;
      var r := RunAll(steps[..n], c);
      Matured(steps[..n], c, era) + if r.era + c.bondingDuration <= era then Moved(r, steps[n], c) else 0
  }

  // ---------- the queue by era ----------

  /** Withdrawing takes from the queue, of what unlocks by a later era, exactly what it drops. */
  lemma {:induction false} FilterBy(chunks: seq<Chunk>, now: nat, k: nat, era: nat)
    requires k <= |chunks| && now <= era
    ensures ValueIn(FilterTo(chunks, LockedAfter(now), k), By(era)) + DroppedTo(chunks, LockedAfter(now), k)
         == ValueTo(chunks, By(era), k)
  {
    if k == 0 {
    } else {
      hide ValueIn, FilterTo;
      FilterBy(chunks, now, k - 1, era);
      FilterStep(chunks, LockedAfter(now), k - 1);
      OneMoreValue(FilterTo(chunks, LockedAfter(now), k - 1), chunks[k - 1], By(era));
    }
  }

  lemma SlashBy(l: LedgerState, amount: nat, minBalance: nat, start: nat, era: nat)
    ensures QueuedBy(SlashResult(l, amount, minBalance, start).ledger.unlocking, era) <= QueuedBy(l.unlocking, era)
  {
    hide SlashResult, FilterTo, ValueTo;
    var o := SlashResult(l, amount, minBalance, start);
    SlashReduces(l, amount, minBalance, start);
    if amount > 0 {
      NonZeroValue(o.remains, |o.remains|, By(era));
      NoMoreValue(o.remains, l.unlocking, By(era), |l.unlocking|);
    }
  }

  lemma WithdrawBy(l: LedgerState, now: nat, era: nat)
    requires Balanced(l) && now <= era
    ensures var r := ConsolidateResult(l, now);
      QueuedBy(r.unlocking, era) + (l.total - r.total) == QueuedBy(l.unlocking, era) && r.total <= l.total
      && r.active == l.active
  {
    ConsolidateExact(l, now);
    FilterBy(l.unlocking, now, |l.unlocking|, era);
  }

  lemma MoveBy(l: LedgerState, value: nat, minBalance: nat, minActive: nat, at: nat, maxChunks: nat, era: nat)
    requires Balanced(l)
    ensures var m := MoveToQueue(l, value, minBalance, minActive, at, maxChunks);
      m.Ok? ==>
        && m.value.total == l.total && m.value.active <= l.active
        && QueuedBy(m.value.unlocking, era)
           == QueuedBy(l.unlocking, era) + if at <= era then l.active - m.value.active else 0
  {
    hide SumTo, ValueIn;
    var m := MoveToQueue(l, value, minBalance, minActive, at, maxChunks);
    if m.Ok? && m.value != l {
      PushValue(l.unlocking, l.active - m.value.active, at, By(era));
    }
  }

  // ---------- one step ----------

  /** Withdrawn and unlocking by an era. */
  function OutBy(r: Run, era: nat): nat { r.withdrawn + QueuedBy(r.ledger.unlocking, era) }

  lemma UnbondOut(r: Run, s: Step, c: Config, era: nat)
    requires Inv(r, c) && s.Unbond? && r.era <= era
    ensures OutBy(Next(r, s, c), era)
         == OutBy(r, era) + if r.era + c.bondingDuration <= era then Moved(r, s, c) else 0
  {
    hide QueuedBy, MoveToQueue, ConsolidateResult, NoEmptyChunk, ErasIncrease;
    var at := r.era + c.bondingDuration;
    if |r.ledger.unlocking| == c.maxUnlockingChunks {
      WithdrawBy(r.ledger, r.era, era);
      ConsolidateExact(r.ledger, r.era);
      var l := ConsolidateResult(r.ledger, r.era);
      MoveBy(l, s.value, c.minimumBalance, s.minActiveBond, at, c.maxUnlockingChunks, era);
    } else {
      MoveBy(r.ledger, s.value, c.minimumBalance, s.minActiveBond, at, c.maxUnlockingChunks, era);
    }
  }

  lemma RebondOut(r: Run, s: Step, c: Config, era: nat)
    requires Inv(r, c) && s.Rebond?
    ensures OutBy(Next(r, s, c), era) <= OutBy(r, era)
  {
    RebondTakesFromTheEnd(r.ledger.unlocking, s.rebondValue);
    hide RebondQueue, Balanced, ValueTo;
    NoMoreValue(RebondQueue(r.ledger.unlocking, s.rebondValue), r.ledger.unlocking, By(era), |r.ledger.unlocking|);
  }

  lemma NextOut(r: Run, s: Step, c: Config, era: nat)
    requires Inv(r, c) && Payable(s) && Next(r, s, c).era <= era
    ensures OutBy(Next(r, s, c), era)
         <= OutBy(r, era) + if r.era + c.bondingDuration <= era then Moved(r, s, c) else 0
  {
    hide QueuedBy, ConsolidateResult, UnbondResult, RebondResult, SlashResult, NoEmptyChunk, ErasIncrease, Balanced;
    match s
    case NextEra =>
    case BondExtra(_, _) =>
    case Unbond(_, _) => UnbondOut(r, s, c, era);
    case Rebond(_) => RebondOut(r, s, c, era);
    case WithdrawUnbonded => WithdrawBy(r.ledger, r.era, era);
    case Slash(amount, slashEra) => SlashBy(r.ledger, amount, c.minimumBalance, slashEra + c.bondingDuration, era);
  }

  lemma {:induction false} EveryRunWaits(steps: seq<Step>, c: Config, era: nat)
    requires AllPayable(steps) && RunAll(steps, c).era <= era
    ensures OutBy(RunAll(steps, c), era) <= Matured(steps, c, era)
  {
    hide Inv, OutBy, Moved;
    if steps == [] {
      NothingOut(era);
    } else {
      var n := |steps| - 1;
      var r := RunAll(steps[..n], c);
      hide Next;
      EveryRunBalances(steps[..n], c);
      EraGrows(r, steps[n], c);
      EveryRunWaits(steps[..n], c, era);
      NextOut(r, steps[n], c, era);
    }
  }

  lemma NothingOut(era: nat)
    ensures OutBy(Start(), era) == 0
  {
  }

  lemma EraGrows(r: Run, s: Step, c: Config)
    ensures r.era <= Next(r, s, c).era
  {
  }

  // ---------- the theorems ----------

  /** Over every run, no more has been withdrawn than was unbonded at least a bonding duration ago. */
  lemma WithdrawnWasUnbonded(steps: seq<Step>, c: Config)
    requires AllPayable(steps)
    ensures var r := RunAll(steps, c); r.withdrawn <= Matured(steps, c, r.era)
  {
    EveryRunWaits(steps, c, RunAll(steps, c).era);
  }

  /** And all that has matured goes with the next withdrawal, and nothing else. */
  lemma WithdrawsAllMatured(steps: seq<Step>, c: Config, ch: Chunk)
    requires AllPayable(steps)
    ensures var r := RunAll(steps, c);
      ch in Next(r, WithdrawUnbonded, c).ledger.unlocking <==> ch in r.ledger.unlocking && ch.era > r.era
  {
    EveryRunBalances(steps, c);
    hide RunAll;
    ConsolidateExact(RunAll(steps, c).ledger, RunAll(steps, c).era);
  }

  /** After every run a slash is taken from what was bonded at the time of the offence, up to the bonding duration. */
  lemma SlashesRespectWindow(steps: seq<Step>, c: Config, amount: nat, slashEra: nat)
    requires AllPayable(steps)
    ensures var r := RunAll(steps, c);
      SlashedByEra(r.ledger, Next(r, Slash(amount, slashEra), c).ledger, amount, slashEra + c.bondingDuration,
                   c.minimumBalance)
  {
    hide RunAll, SlashedByEra, Inv, Next;
    EveryRunBalances(steps, c);
    StepRespectsWindow(RunAll(steps, c), c, amount, slashEra);
  }

  lemma StepRespectsWindow(r: Run, c: Config, amount: nat, slashEra: nat)
    requires Inv(r, c)
    ensures SlashedByEra(r.ledger, Next(r, Slash(amount, slashEra), c).ledger, amount, slashEra + c.bondingDuration,
                         c.minimumBalance)
  {
    hide SlashedByEra, SlashResult;
    SlashIsByEra(r.ledger, amount, c.minimumBalance, slashEra + c.bondingDuration);
  }
}
