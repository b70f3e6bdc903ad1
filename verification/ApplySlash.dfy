/**
 * Applying a computed slash: ledgers are slashed, the currency takes what it can, reporters are paid
 * out of what was taken and the rest goes to the slash handler.
 */
module ApplySlash {
  import opened Numbers
  import opened Sums
  import opened Ledger
  import opened LedgerExact
  import opened LedgerObject
  import opened SlashStore

  datatype Config = Config(minimumBalance: nat, bondingDuration: nat)

  /** Ledgers by controller, and what slashing them has yielded so far. */
  datatype Till = Till(ledgers: map<AccountId, LedgerState>, payout: nat, taken: nat, missing: nat)

  /**
   * One stash. The currency answers a slash of `v` with any split into taken and missing; `cut`
   * bounds what it takes, so every split is some `cut`.
   */
  function Slashed(t: Till, bonded: map<AccountId, AccountId>, stash: AccountId, value: nat, era: nat, cut: nat,
      c: Config): Till
  {
    if stash !in bonded || bonded[stash] !in t.ledgers then t
    else
      var o := SlashResult(t.ledgers[bonded[stash]], value, c.minimumBalance, era + c.bondingDuration);
      if o.slashed == 0 then t
      else
        var taken := Min(cut, o.slashed);
        var missing := o.slashed - taken;
        Till(t.ledgers[bonded[stash] := o.ledger], SatSub(t.payout, missing), t.taken + taken, t.missing + missing)
  }

  function SlashedTo(t: Till, bonded: map<AccountId, AccountId>, others: seq<(AccountId, nat)>, era: nat,
                     cuts: seq<nat>, c: Config, k: nat): Till
    requires k <= |others| <= |cuts|
  {
    if k == 0 then t
    else Slashed(SlashedTo(t, bonded, others, era, cuts, c, k - 1), bonded, others[k - 1].0, others[k - 1].1,
        era, cuts[k - 1], c)
  }

  /** The validator's own part first, then each nominator's. */
  function Applied(ledgers: map<AccountId, LedgerState>, bonded: map<AccountId, AccountId>, u: UnappliedSlash,
      era: nat, cuts: seq<nat>, c: Config): Till
    requires |cuts| == 1 + |u.others|
  {
    var t := Slashed(Till(ledgers, u.payout, 0, 0), bonded, u.validator, u.own, era, cuts[0], c);
    SlashedTo(t, bonded, u.others, era, cuts[1..], c, |u.others|)
  }

  // ---------- conservation ----------

  function TotalOf(ledgers: map<AccountId, LedgerState>): AccountId -> nat
  {
    a => if a in ledgers then ledgers[a].total else 0
  }

  /** Everything the ledgers account for. */
  ghost function Bonded(ledgers: map<AccountId, LedgerState>): nat
  {
    SumOver(ledgers.Keys, TotalOf(ledgers))
  }

  ghost predicate AllBalanced(ledgers: map<AccountId, LedgerState>)
  {
    forall a :: a in ledgers ==> Balanced(ledgers[a])
  }

  lemma BondedAfter(ledgers: map<AccountId, LedgerState>, a: AccountId, l: LedgerState)
    requires a in ledgers
    ensures Bonded(ledgers[a := l]) + ledgers[a].total == Bonded(ledgers) + l.total
  {
    assert ledgers[a := l].Keys == ledgers.Keys;
    SumOverChange(ledgers.Keys, TotalOf(ledgers), TotalOf(ledgers[a := l]), a);
  }

  /** What one slash removes from the ledgers was taken or found missing, and missing reduces the payout. */
  ghost predicate Conserves(before: Till, after: Till)
  {
    && AllBalanced(after.ledgers)
    && Bonded(after.ledgers) + after.taken + after.missing == Bonded(before.ledgers) + before.taken + before.missing
    && before.taken <= after.taken && before.missing <= after.missing
    && after.payout == SatSub(before.payout, after.missing - before.missing)
  }

  lemma SlashConserves(t: Till, bonded: map<AccountId, AccountId>, stash: AccountId, value: nat, era: nat,
      cut: nat, c: Config)
    requires AllBalanced(t.ledgers)
    ensures Conserves(t, Slashed(t, bonded, stash, value, era, cut, c))
  {
    hide SlashResult, Bonded;
    if stash in bonded && bonded[stash] in t.ledgers {
      var l := t.ledgers[bonded[stash]];
      SlashBound(l, value, c.minimumBalance, era + c.bondingDuration);
      BondedAfter(t.ledgers, bonded[stash], SlashResult(l, value, c.minimumBalance, era + c.bondingDuration).ledger);
    }
  }

  lemma {:induction false} OthersConserve(t: Till, bonded: map<AccountId, AccountId>,
      others: seq<(AccountId, nat)>, era: nat, cuts: seq<nat>, c: Config, k: nat)
    requires AllBalanced(t.ledgers) && k <= |others| <= |cuts|
    ensures Conserves(t, SlashedTo(t, bonded, others, era, cuts, c, k))
  {
    hide Slashed, Bonded;
    if k == 0 {
    } else {
      OthersConserve(t, bonded, others, era, cuts, c, k - 1);
      var before := SlashedTo(t, bonded, others, era, cuts, c, k - 1);
      SlashConserves(before, bonded, others[k - 1].0, others[k - 1].1, era, cuts[k - 1], c);
    }
  }

  // ---------- how much a slash removes ----------

  lemma OneLess(n: nat, x: nat)
    requires n > 0
    ensures n * x == (n - 1) * x + x
  {
  }

  /** The dust that may go with each slashed stash. */
  function Dust(c: Config): nat { Max(1, c.minimumBalance) - 1 }

  /** A bonded stash loses at least its slash or everything, and at most its slash and dust; another loses nothing. */
  lemma SlashRemoves(t: Till, bonded: map<AccountId, AccountId>, stash: AccountId, value: nat, era: nat,
      cut: nat, c: Config)
    requires AllBalanced(t.ledgers)
    ensures var r := Slashed(t, bonded, stash, value, era, cut, c);
      && Bonded(r.ledgers) <= Bonded(t.ledgers) <= Bonded(r.ledgers) + value + Dust(c)
      && (stash in bonded && bonded[stash] in t.ledgers ==>
            Bonded(t.ledgers) >= Bonded(r.ledgers) + Min(value, t.ledgers[bonded[stash]].total))
  {
    hide SlashResult, Bonded;
    if stash in bonded && bonded[stash] in t.ledgers {
      var l := t.ledgers[bonded[stash]];
      SlashBound(l, value, c.minimumBalance, era + c.bondingDuration);
      BondedAfter(t.ledgers, bonded[stash], SlashResult(l, value, c.minimumBalance, era + c.bondingDuration).ledger);
    }
  }

  lemma {:induction false} OthersRemove(t: Till, bonded: map<AccountId, AccountId>,
      others: seq<(AccountId, nat)>, era: nat, cuts: seq<nat>, c: Config, k: nat)
    requires AllBalanced(t.ledgers) && k <= |others| <= |cuts|
    ensures var r := SlashedTo(t, bonded, others, era, cuts, c, k);
      Bonded(r.ledgers) <= Bonded(t.ledgers) <= Bonded(r.ledgers) + AmountsTo(others, k) + k * Dust(c)
  {
    hide Slashed, Bonded, Dust;
    if k == 0 {
    } else {
      OthersRemove(t, bonded, others, era, cuts, c, k - 1);
      OthersConserve(t, bonded, others, era, cuts, c, k - 1);
      var before := SlashedTo(t, bonded, others, era, cuts, c, k - 1);
      SlashRemoves(before, bonded, others[k - 1].0, others[k - 1].1, era, cuts[k - 1], c);
      OneLess(k, Dust(c));
    }
  }

  /** Applying a slash removes no more than it names, and dust for each stash it names. */
  lemma AppliedRemoves(ledgers: map<AccountId, LedgerState>, bonded: map<AccountId, AccountId>, u: UnappliedSlash,
      era: nat, cuts: seq<nat>, c: Config)
    requires AllBalanced(ledgers) && |cuts| == 1 + |u.others|
    ensures var r := Applied(ledgers, bonded, u, era, cuts, c).ledgers;
      var n := |u.others|;
      Bonded(r) <= Bonded(ledgers) <= Bonded(r) + u.own + AmountsTo(u.others, n) + (1 + n) * Dust(c)
  {
    hide Slashed, SlashedTo, Bonded, Dust;
    var first := Till(ledgers, u.payout, 0, 0);
    var t := Slashed(first, bonded, u.validator, u.own, era, cuts[0], c);
    SlashConserves(first, bonded, u.validator, u.own, era, cuts[0], c);
    SlashRemoves(first, bonded, u.validator, u.own, era, cuts[0], c);
    OthersRemove(t, bonded, u.others, era, cuts[1..], c, |u.others|);
    OneLess(1 + |u.others|, Dust(c));
  }

  // ---------- which part of which ledger a slash is taken from ----------

  /** The ledgers as every run leaves them: balanced, with one chunk an era and no empty one. */
  ghost predicate AllSound(ledgers: map<AccountId, LedgerState>)
  {
    forall a :: a in ledgers ==>
      Balanced(ledgers[a]) && ErasIncrease(ledgers[a].unlocking) && NoEmptyChunk(ledgers[a].unlocking)
  }

  /** The stash is bonded to the controller. */
  predicate BondedTo(bonded: map<AccountId, AccountId>, stash: AccountId, controller: AccountId)
  {
    stash in bonded && bonded[stash] == controller
  }

  /** A slash of a stash for an offence in `era` reaches only its own ledger, there what the bonding duration allows. */
  lemma SlashReaches(t: Till, bonded: map<AccountId, AccountId>, stash: AccountId, value: nat, era: nat,
      cut: nat, c: Config, controller: AccountId)
    requires AllSound(t.ledgers) && controller in t.ledgers
    ensures var r := Slashed(t, bonded, stash, value, era, cut, c);
      && AllSound(r.ledgers) && r.ledgers.Keys == t.ledgers.Keys
      && if BondedTo(bonded, stash, controller)
         then SlashedByEra(t.ledgers[controller], r.ledgers[controller], value, era + c.bondingDuration,
                           c.minimumBalance)
         else r.ledgers[controller] == t.ledgers[controller]
  {
    hide SlashResult, SlashedByEra, Balanced, ErasIncrease, NoEmptyChunk;
    if stash in bonded && bonded[stash] in t.ledgers {
      var l, start := t.ledgers[bonded[stash]], era + c.bondingDuration;
      SlashBound(l, value, c.minimumBalance, start);
      SlashKeepsQueue(l, value, c.minimumBalance, start);
      SlashIsByEra(l, value, c.minimumBalance, start);
      if SlashResult(l, value, c.minimumBalance, start).slashed == 0 {
        NothingSlashed(l, value, c.minimumBalance, start);
      }
    }
  }

  /** Nothing is slashed only when nothing is asked for or there is nothing. */
  lemma NothingSlashed(l: LedgerState, value: nat, minBalance: nat, start: nat)
    requires Balanced(l) && ErasIncrease(l.unlocking) && NoEmptyChunk(l.unlocking)
    requires SlashResult(l, value, minBalance, start).slashed == 0
    ensures SlashedByEra(l, l, value, start, minBalance)
  {
    SlashBound(l, value, minBalance, start);
    SlashIsByEra(l, value, minBalance, start);
    if value > 0 {
      NothingBonded(l);
    }
  }

  lemma NothingBonded(l: LedgerState)
    requires Balanced(l) && NoEmptyChunk(l.unlocking) && l.total == 0
    ensures l == LedgerState(0, 0, [])
  {
    if l.unlocking != [] {
      LastWithin(l.unlocking);
    }
  }

  lemma {:induction false} OthersReach(t: Till, bonded: map<AccountId, AccountId>, others: seq<(AccountId, nat)>,
      era: nat, cuts: seq<nat>, c: Config, k: nat, controller: AccountId)
    requires AllSound(t.ledgers) && controller in t.ledgers && k <= |others| <= |cuts|
    ensures var r := SlashedTo(t, bonded, others, era, cuts, c, k);
      && AllSound(r.ledgers) && r.ledgers.Keys == t.ledgers.Keys
      && ((forall j :: 0 <= j < k ==> !BondedTo(bonded, others[j].0, controller)) ==>
            r.ledgers[controller] == t.ledgers[controller])
  {
    hide Slashed, AllSound, BondedTo;
    if k == 0 {
    } else {
      OthersReach(t, bonded, others, era, cuts, c, k - 1, controller);
      var before := SlashedTo(t, bonded, others, era, cuts, c, k - 1);
      SlashReaches(before, bonded, others[k - 1].0, others[k - 1].1, era, cuts[k - 1], c, controller);
    }
  }

  /** A ledger that only entry `j` names is slashed by the amount of that entry. */
  lemma {:induction false} OtherIsSlashed(t: Till, bonded: map<AccountId, AccountId>, others: seq<(AccountId, nat)>,
      era: nat, cuts: seq<nat>, c: Config, k: nat, j: nat, controller: AccountId)
    requires AllSound(t.ledgers) && controller in t.ledgers && j < k <= |others| <= |cuts|
    requires forall i :: 0 <= i < k ==> (BondedTo(bonded, others[i].0, controller) <==> i == j)
    ensures var r := SlashedTo(t, bonded, others, era, cuts, c, k);
      && controller in r.ledgers
      && SlashedByEra(t.ledgers[controller], r.ledgers[controller], others[j].1, era + c.bondingDuration,
                      c.minimumBalance)
  {
    hide Slashed, AllSound, BondedTo, SlashedByEra;
    OthersReach(t, bonded, others, era, cuts, c, k - 1, controller);
    var before := SlashedTo(t, bonded, others, era, cuts, c, k - 1);
    SlashReaches(before, bonded, others[k - 1].0, others[k - 1].1, era, cuts[k - 1], c, controller);
    if j < k - 1 {
      OtherIsSlashed(t, bonded, others, era, cuts, c, k - 1, j, controller);
    }
  }

  /** The entries of a slash, the validator's first. */
  function Entries(u: UnappliedSlash): seq<(AccountId, nat)> { [(u.validator, u.own)] + u.others }

  /** Applying a slash leaves ledgers alone that no entry names. */
  lemma AppliedLeavesOthers(ledgers: map<AccountId, LedgerState>, bonded: map<AccountId, AccountId>,
      u: UnappliedSlash, era: nat, cuts: seq<nat>, c: Config, controller: AccountId)
    requires AllSound(ledgers) && controller in ledgers && |cuts| == 1 + |u.others|
    requires forall i :: 0 <= i < |Entries(u)| ==> !BondedTo(bonded, Entries(u)[i].0, controller)
    ensures var r := Applied(ledgers, bonded, u, era, cuts, c).ledgers;
      AllSound(r) && controller in r && r[controller] == ledgers[controller]
  {
    hide Slashed, SlashedTo, AllSound, BondedTo, SlashedByEra;
    var first, es := Till(ledgers, u.payout, 0, 0), Entries(u);
    var t := Slashed(first, bonded, u.validator, u.own, era, cuts[0], c);
    assert !BondedTo(bonded, es[0].0, controller);
    SlashReaches(first, bonded, u.validator, u.own, era, cuts[0], c, controller);
    forall j | 0 <= j < |u.others| ensures !BondedTo(bonded, u.others[j].0, controller) {
      assert es[1 + j] == u.others[j];
    }
    OthersReach(t, bonded, u.others, era, cuts[1..], c, |u.others|, controller);
  }

  /** And slashes a ledger that one entry names by its amount, from the parts that the offence allows. */
  lemma AppliedSlashesEach(ledgers: map<AccountId, LedgerState>, bonded: map<AccountId, AccountId>,
      u: UnappliedSlash, era: nat, cuts: seq<nat>, c: Config, controller: AccountId, i: nat)
    requires AllSound(ledgers) && controller in ledgers && |cuts| == 1 + |u.others| && i <= |u.others|
    requires forall j :: 0 <= j < |Entries(u)| ==> (BondedTo(bonded, Entries(u)[j].0, controller) <==> j == i)
    ensures var r := Applied(ledgers, bonded, u, era, cuts, c).ledgers;
      && controller in r
      && SlashedByEra(ledgers[controller], r[controller], Entries(u)[i].1, era + c.bondingDuration, c.minimumBalance)
  {
    hide Slashed, SlashedTo, AllSound, BondedTo, SlashedByEra;
    var first, es := Till(ledgers, u.payout, 0, 0), Entries(u);
    var t := Slashed(first, bonded, u.validator, u.own, era, cuts[0], c);
    assert BondedTo(bonded, es[0].0, controller) <==> i == 0;
    SlashReaches(first, bonded, u.validator, u.own, era, cuts[0], c, controller);
    forall j | 0 <= j < |u.others| ensures BondedTo(bonded, u.others[j].0, controller) <==> 1 + j == i {
      assert es[1 + j] == u.others[j];
    }
    OthersReach(t, bonded, u.others, era, cuts[1..], c, |u.others|, controller);
    if i > 0 {
      OtherIsSlashed(t, bonded, u.others, era, cuts[1..], c, |u.others|, i - 1, controller);
    }
  }

  // ---------- paying reporters ----------

  /** The floor share of each of `n` reporters. */
  function PerReporter(payout: nat, taken: nat, n: nat): (r: nat)
    ensures n * r <= Min(payout, taken)
    ensures payout == 0 ==> r == 0
    ensures n > 0 ==> Min(payout, taken) < n * r + n
  {
    if n == 0 then 0 else Min(payout, taken) / n
  }

  /** Splits the same share off the pot for each reporter; returns what is left of it. */
  method PayEach(pot: nat, perReporter: nat, n: nat) returns (rewards: seq<nat>, rest: nat)
    requires n * perReporter <= pot
    ensures |rewards| == n && forall i :: 0 <= i < n ==> rewards[i] == perReporter
    ensures Sum(rewards) + rest == pot
  {
    hide Sum;
    rewards, rest := [], pot;
    SumNone();
    for i := 0 to n
      invariant |rewards| == i && forall j :: 0 <= j < i ==> rewards[j] == perReporter
      invariant rest >= (n - i) * perReporter
      invariant Sum(rewards) + rest == pot
    {
      OneLess(n - i, perReporter);
      var reward := Min(rest, perReporter);
      SumOneMore(rewards, reward);
      rewards := rewards + [reward];
      rest := rest - reward;
    }
  }

  /** The equal share of each reporter, and what is handed to the slash handler. */
  method PayReporters(payout: nat, taken: nat, reporters: seq<AccountId>) returns (rewards: seq<nat>, handed: nat)
    ensures |rewards| == |reporters|
    ensures forall i :: 0 <= i < |rewards| ==> rewards[i] == PerReporter(payout, taken, |reporters|)
    ensures Sum(rewards) + handed == taken
    ensures Sum(rewards) <= payout
  {
    hide PerReporter;
    if payout == 0 || reporters == [] {
      rewards := seq(|reporters|, _ => 0);
      NoRewards(rewards, |rewards|);
      return rewards, taken;
    }
    var pot := Min(payout, taken);
    var rest;
    rewards, rest := PayEach(pot, PerReporter(payout, taken, |reporters|), |reporters|);
    handed := taken - pot + rest;
  }

  lemma {:induction false} NoRewards(rewards: seq<nat>, k: nat)
    requires k <= |rewards| && forall i :: 0 <= i < k ==> rewards[i] == 0
    ensures SumTo(rewards, k) == 0
  {
    if k == 0 {
    } else {
      NoRewards(rewards, k - 1);
    }
  }

  // ---------- the whole application ----------

  class StakingBooks {
    var bonded: map<AccountId, AccountId>
    var ledgers: map<AccountId, LedgerState>

    /** Slashes one stash; the two accumulators are passed in and out. */
    method DoSlash(stash: AccountId, value: nat, payout: nat, taken: nat, ghost missing: nat, era: nat, cut: nat,
        c: Config)
      returns (newPayout: nat, newTaken: nat, ghost newMissing: nat)
      modifies this`ledgers
      ensures Till(ledgers, newPayout, newTaken, newMissing)
           == Slashed(Till(old(ledgers), payout, taken, missing), bonded, stash, value, era, cut, c)
    {
      hide SlashResult, SlashReport;
      newPayout, newTaken, newMissing := payout, taken, missing;
      if stash !in bonded || bonded[stash] !in ledgers {
        return;
      }
      var controller := bonded[stash];
      var ledger := new StakingLedger(ledgers[controller]);
      var slashed, _ := ledger.Slash(value, c.minimumBalance, era, c.bondingDuration);
      if slashed != 0 {
        var imbalance := Min(cut, slashed);
        var short := slashed - imbalance;
        newTaken, newMissing := taken + imbalance, missing + short;
        if short != 0 {
          newPayout := SatSub(payout, short);
        }
        ledgers := ledgers[controller := ledger.View()];
      }
    }

    /**
     * Applies an unapplied slash. `cuts[0]` is the currency's answer for the validator, `cuts[k + 1]`
     * for nominator `k`.
     */
    method ApplySlash(u: UnappliedSlash, reporters: seq<AccountId>, era: nat, cuts: seq<nat>, c: Config)
      returns (rewards: seq<nat>, handed: nat, ghost taken: nat, ghost missing: nat)
      requires AllBalanced(ledgers) && |cuts| == 1 + |u.others|
      modifies this`ledgers
      ensures AllBalanced(ledgers)
      // each stash loses its part of the slash, in order; the currency takes what it can of it
      ensures Till(ledgers, SatSub(u.payout, missing), taken, missing) == Applied(old(ledgers), bonded, u, era, cuts, c)
      // no more goes than the slash names, and dust for each stash it names
      ensures Bonded(old(ledgers)) <=
        Bonded(ledgers) + u.own + AmountsTo(u.others, |u.others|) + (1 + |u.others|) * Dust(c)
      // every unit that leaves the ledgers is rewarded, handed over, or was missing
      ensures Bonded(old(ledgers)) == Bonded(ledgers) + Sum(rewards) + handed + missing
      ensures taken == Sum(rewards) + handed
      // reporters share equally, out of what is left of the payout and of what was taken
      ensures |rewards| == |reporters|
      ensures forall i :: 0 <= i < |rewards| ==>
        rewards[i] == PerReporter(SatSub(u.payout, missing), taken, |reporters|)
      ensures Sum(rewards) <= SatSub(u.payout, missing)
    {
      hide Slashed, Bonded, Dust;
      AppliedRemoves(ledgers, bonded, u, era, cuts, c);
      ghost var first := Till(ledgers, u.payout, 0, 0);
      var payout, imbalance;
      payout, imbalance, missing := DoSlash(u.validator, u.own, u.payout, 0, 0, era, cuts[0], c);
      SlashConserves(first, bonded, u.validator, u.own, era, cuts[0], c);
      ghost var t := Till(ledgers, payout, imbalance, missing);
      for k := 0 to |u.others|
        invariant Till(ledgers, payout, imbalance, missing) == SlashedTo(t, bonded, u.others, era, cuts[1..], c, k)
      {
        var (nominator, value) := u.others[k];
        payout, imbalance, missing := DoSlash(nominator, value, payout, imbalance, missing, era, cuts[k + 1], c);
      }
      OthersConserve(t, bonded, u.others, era, cuts[1..], c, |u.others|);
      taken := imbalance;
      rewards, handed := PayReporters(payout, imbalance, reporters);
    }
  }
}
