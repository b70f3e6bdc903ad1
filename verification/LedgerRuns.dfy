/** What holds of a ledger after any sequence of staking calls and slashes. */
module LedgerRuns {
  import opened Numbers
  import opened Sums
  import opened Ledger
  import opened LedgerObject

  datatype Config = Config(bondingDuration: nat, maxUnlockingChunks: nat, minimumBalance: nat)

  datatype Step =
    | NextEra
    | BondExtra(stashBalance: nat, maxAdditional: nat)
    | Unbond(value: nat, minActiveBond: nat)
    | Rebond(rebondValue: nat)
    | WithdrawUnbonded
    | Slash(amount: nat, slashEra: nat)

  /** The ledger, the current era, and what has flowed in and out so far. */
  datatype Run = Run(ledger: LedgerState, era: nat, bonded: nat, withdrawn: nat, slashed: nat)

  function Start(): Run { Run(LedgerState(0, 0, []), 0, 0, 0, 0) }

  /** One step; a failing call changes nothing. */
  function Next(r: Run, s: Step, c: Config): Run
  {
    match s
    case NextEra => r.(era := r.era + 1)
    case BondExtra(balance, max) =>
      (match BondExtraResult(r.ledger, balance, max, c.minimumBalance)
       case Ok(l) => r.(ledger := l, bonded := r.bonded + SatSub(l.total, r.ledger.total))
       case Err(_) => r)
    case Unbond(value, minActive) =>
      (match UnbondResult(r.ledger, value, c.minimumBalance, minActive, r.era, c.bondingDuration, c.maxUnlockingChunks)
       case Ok(l) => r.(ledger := l, withdrawn := r.withdrawn + SatSub(r.ledger.total, l.total))
       case Err(_) => r)
    case Rebond(value) =>
      var l := RebondResult(r.ledger, value);
      if r.ledger.unlocking == [] || l.active < c.minimumBalance then r else r.(ledger := l)
    case WithdrawUnbonded => Withdrawn(r)
    case Slash(amount, slashEra) =>
      var o := SlashResult(r.ledger, amount, c.minimumBalance, slashEra + c.bondingDuration);
      r.(ledger := o.ledger, slashed := r.slashed + o.slashed)
  }

  function RunAll(steps: seq<Step>, c: Config): Run
  {
    if steps == [] then Start() else Next(RunAll(steps[..|steps| - 1], c), steps[|steps| - 1], c)
  }

  /** The stash can hold no more than a balance. */
  ghost predicate Payable(s: Step) { s.BondExtra? ==> s.stashBalance <= U128_MAX }

  ghost predicate AllPayable(steps: seq<Step>) { forall i :: 0 <= i < |steps| ==> Payable(steps[i]) }

  ghost predicate Inv(r: Run, c: Config)
  {
    && Balanced(r.ledger)
    && NoEmptyChunk(r.ledger.unlocking)
    && ErasIncrease(r.ledger.unlocking)
    && |r.ledger.unlocking| <= c.maxUnlockingChunks
    && (forall i :: 0 <= i < |r.ledger.unlocking| ==> r.ledger.unlocking[i].era <= r.era + c.bondingDuration)
    && (r.ledger.active == 0 || r.ledger.active >= c.minimumBalance)
    && r.bonded == r.ledger.total + r.withdrawn + r.slashed
  }

  /** The run with the unlocked chunks withdrawn. */
  function Withdrawn(r: Run): Run
  {
    var l := ConsolidateResult(r.ledger, r.era);
    r.(ledger := l, withdrawn := r.withdrawn + SatSub(r.ledger.total, l.total))
  }

  lemma WithdrawnKeeps(r: Run, c: Config)
    requires Inv(r, c)
    ensures Inv(Withdrawn(r), c)
  {
    hide Balanced;
    ConsolidateExact(r.ledger, r.era);
    FilterEras(r.ledger.unlocking, LockedAfter(r.era), |r.ledger.unlocking|);
  }

  lemma MoveKeeps(r: Run, value: nat, minActive: nat, c: Config)
    requires Inv(r, c)
    ensures var m := MoveToQueue(r.ledger, value, c.minimumBalance, minActive,
                                   r.era + c.bondingDuration, c.maxUnlockingChunks);
      m.Ok? ==> m.value.total == r.ledger.total && Inv(r.(ledger := m.value), c)
  {
    hide SumTo;
    var l, era := r.ledger, r.era + c.bondingDuration;
    var m := MoveToQueue(l, value, c.minimumBalance, minActive, era, c.maxUnlockingChunks);
    if m.Ok? && m.value != l {
      PushChunkSum(l.unlocking, l.active - m.value.active, era);
    }
  }

  lemma UnbondKeeps(r: Run, s: Step, c: Config)
    requires Inv(r, c) && s.Unbond?
    ensures Inv(Next(r, s, c), c)
  {
    hide MoveToQueue, ConsolidateResult, NoEmptyChunk, ErasIncrease, Balanced;
    if |r.ledger.unlocking| == c.maxUnlockingChunks {
      WithdrawnKeeps(r, c);
      MoveKeeps(Withdrawn(r), s.value, s.minActiveBond, c);
      ConsolidateExact(r.ledger, r.era);
    } else {
      MoveKeeps(r, s.value, s.minActiveBond, c);
    }
  }

  lemma RebondKeeps(r: Run, s: Step, c: Config)
    requires Inv(r, c) && s.Rebond?
    ensures Inv(Next(r, s, c), c)
  {
    RebondTakesFromTheEnd(r.ledger.unlocking, s.rebondValue);
    RebondKeepsQueue(r.ledger.unlocking, s.rebondValue);
  }

  lemma SlashKeeps(r: Run, s: Step, c: Config)
    requires Inv(r, c) && s.Slash?
    ensures Inv(Next(r, s, c), c)
  {
    hide SlashResult;
    var start := s.slashEra + c.bondingDuration;
    SlashBound(r.ledger, s.amount, c.minimumBalance, start);
    SlashKeepsQueue(r.ledger, s.amount, c.minimumBalance, start);
    SlashLeavesNoDust(r.ledger, s.amount, c.minimumBalance, start);
    SlashKeepsErasBelow(r.ledger, s.amount, c.minimumBalance, start, r.era + c.bondingDuration);
  }

  lemma SlashLeavesNoDust(l: LedgerState, amount: nat, minBalance: nat, start: nat)
    ensures var o := SlashResult(l, amount, minBalance, start);
      amount > 0 ==> o.ledger.active == 0 || o.ledger.active >= minBalance
    ensures amount == 0 ==> SlashResult(l, amount, minBalance, start).ledger == l
  {
    if amount == 0 {
    } else {
      var p := PassOf(l, amount, minBalance, FirstSlashable(l.unlocking, start));
      assert Remaining(p, 0) == amount;
      assert Left(p)[0] == p.ts[0] - Take(p.ts[0], amount, p.ratio, minBalance);
    }
  }

  lemma SlashKeepsErasBelow(l: LedgerState, amount: nat, minBalance: nat, start: nat, bound: nat)
    requires forall i :: 0 <= i < |l.unlocking| ==> l.unlocking[i].era <= bound
    ensures var q := SlashResult(l, amount, minBalance, start).ledger.unlocking;
      forall i :: 0 <= i < |q| ==> q[i].era <= bound
  {
    hide SlashResult, FilterTo;
    var o := SlashResult(l, amount, minBalance, start);
    SlashReduces(l, amount, minBalance, start);
    if amount > 0 {
      FilterFrom(o.remains, NonZero(), |o.remains|);
    }
  }

  lemma NextKeeps(r: Run, s: Step, c: Config)
    requires Inv(r, c) && Payable(s)
    ensures Inv(Next(r, s, c), c)
  {
    match s
    case NextEra =>
    case BondExtra(_, _) =>
    case Unbond(_, _) => UnbondKeeps(r, s, c);
    case Rebond(_) => RebondKeeps(r, s, c);
    case WithdrawUnbonded => WithdrawnKeeps(r, c);
    case Slash(_, _) => SlashKeeps(r, s, c);
  }

  /** Every run keeps the ledger balanced and ordered, and accounts for every unit ever bonded. */
  lemma {:induction false} EveryRunBalances(steps: seq<Step>, c: Config)
    requires AllPayable(steps)
    ensures Inv(RunAll(steps, c), c)
  {
    if steps == [] {
    } else {
      EveryRunBalances(steps[..|steps| - 1], c);
      NextKeeps(RunAll(steps[..|steps| - 1], c), steps[|steps| - 1], c);
    }
  }

  /** The object performs one step of a run; the pallet keeps the era. */
  method Perform(ledger: StakingLedger, era: nat, s: Step, c: Config, ghost r: Run) returns (newEra: nat)
    requires r.ledger == ledger.View() && r.era == era
    modifies ledger
    ensures ledger.View() == Next(r, s, c).ledger && newEra == Next(r, s, c).era
  {
    hide BondExtraResult, UnbondResult, RebondResult, ConsolidateResult, SlashResult;
    newEra := era;
    match s
    case NextEra => newEra := era + 1;
    case BondExtra(balance, max) => var _ := ledger.BondExtra(balance, max, c.minimumBalance);
    case Unbond(value, minActive) =>
      var _ := ledger.Unbond(value, c.minimumBalance, minActive, era, c.bondingDuration, c.maxUnlockingChunks);
    case Rebond(value) =>
      if ledger.unlocking != [] {
        var was := ledger.View();
        var _ := ledger.Rebond(value);
        if ledger.active < c.minimumBalance {
          ledger.Restore(was);
        }
      }
    case WithdrawUnbonded => ledger.ConsolidateUnlocked(era);
    case Slash(amount, slashEra) =>
      var _, _ := ledger.Slash(amount, c.minimumBalance, slashEra, c.bondingDuration);
  }

  /** The ledger driven through any sequence of steps is the ledger of that run, and its invariants hold. */
  method Execute(steps: seq<Step>, c: Config) returns (ledger: StakingLedger)
    requires AllPayable(steps)
    ensures fresh(ledger)
    ensures ledger.View() == RunAll(steps, c).ledger && Inv(RunAll(steps, c), c)
  {
    ledger := new StakingLedger(LedgerState(0, 0, []));
    var era := 0;
    for i := 0 to |steps|
      invariant fresh(ledger) && ledger.View() == RunAll(steps[..i], c).ledger && era == RunAll(steps[..i], c).era
    {
      hide Next, Inv;
      assert steps[..i + 1][..i] == steps[..i];
      era := Perform(ledger, era, steps[i], c, RunAll(steps[..i], c));
    }
    assert steps[..|steps|] == steps;
    EveryRunBalances(steps, c);
  }

  // ---------- when a run takes more than it was asked for ----------

  /** Bonding exactly the minimum balance and being slashed by one loses everything. */
  lemma DustIsTaken(c: Config, slashEra: nat)
    requires 2 <= c.minimumBalance <= U128_MAX
    ensures var m := c.minimumBalance;
      && RunAll([BondExtra(m, m)], c).ledger == LedgerState(m, m, [])
      && RunAll([BondExtra(m, m), Slash(1, slashEra)], c).slashed == m > 1
  {
    hide SlashResult;
    var m := c.minimumBalance;
    var first, both := [BondExtra(m, m)], [BondExtra(m, m), Slash(1, slashEra)];
    assert first[..|first| - 1] == [] && both[..|both| - 1] == first;
    assert RunAll(first, c) == Next(Start(), BondExtra(m, m), c);
    var l := RunAll(first, c).ledger;
    assert l == LedgerState(m, m, []);
    DustTakesAll(l, m, slashEra + c.bondingDuration);
  }

  lemma DustTakesAll(l: LedgerState, minBalance: nat, start: nat)
    requires l.unlocking == [] && l.active == l.total == minBalance && 2 <= minBalance <= U128_MAX
    ensures SlashResult(l, 1, minBalance, start).slashed == minBalance
  {
    OnlyActive(l);
    ActiveOvershoot(l, 1, minBalance, start);
    SlashBound(l, 1, minBalance, start);
    SlashLeavesNoDust(l, 1, minBalance, start);
    SlashOfActive(l, 1, minBalance, start);
    hide SlashResult;
  }

  lemma SlashOfActive(l: LedgerState, amount: nat, minBalance: nat, start: nat)
    requires l.unlocking == []
    ensures SlashResult(l, amount, minBalance, start).ledger.unlocking == []
  {
  }

  /** Over all runs a slash takes no more than it was asked for exactly when the minimum balance is at most 1. */
  lemma NeverMoreThanAskedInRuns(c: Config)
    requires c.minimumBalance <= U128_MAX
    ensures (forall steps: seq<Step>, amount: nat, slashEra: nat ::
               AllPayable(steps) ==> TakenBy(steps, amount, slashEra, c) <= amount)
       <==> c.minimumBalance <= 1
  {
    hide TakenBy;
    if c.minimumBalance <= 1 {
      forall steps: seq<Step>, amount: nat, slashEra: nat | AllPayable(steps)
        ensures TakenBy(steps, amount, slashEra, c) <= amount
      {
        TakenWithin(steps, amount, slashEra, c);
      }
    } else {
      TakenByDust(c);
    }
  }

  /** What a slash would take after a run. */
  function TakenBy(steps: seq<Step>, amount: nat, slashEra: nat, c: Config): nat
  {
    SlashResult(RunAll(steps, c).ledger, amount, c.minimumBalance, slashEra + c.bondingDuration).slashed
  }

  lemma TakenWithin(steps: seq<Step>, amount: nat, slashEra: nat, c: Config)
    requires c.minimumBalance <= 1 && AllPayable(steps)
    ensures TakenBy(steps, amount, slashEra, c) <= amount
  {
    hide SlashResult, RunAll;
    EveryRunBalances(steps, c);
    SlashBound(RunAll(steps, c).ledger, amount, c.minimumBalance, slashEra + c.bondingDuration);
  }

  lemma TakenByDust(c: Config)
    requires 2 <= c.minimumBalance <= U128_MAX
    ensures var steps := [BondExtra(c.minimumBalance, c.minimumBalance)];
      AllPayable(steps) && TakenBy(steps, 1, 0, c) > 1
  {
    hide SlashResult;
    DustIsTaken(c, 0);
    var m := c.minimumBalance;
    DustTakesAll(RunAll([BondExtra(m, m)], c).ledger, m, c.bondingDuration);
  }
}
