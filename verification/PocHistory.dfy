/**
 * The state of Proof of Commitment read off the history of a run: what each account has locked and for whom it
 * votes, who is running, which calls succeed, when eras turn and whom they seat.
 */
module PocHistory {
  import opened Numbers
  import opened Sums
  import opened Election
  import opened Poc
  import opened PocObject
  import opened PocRuns

  // ---------- commitments ----------

  /** The candidate named by an account's last lock or vote, unless it has taken its funds out since. */
  function CandidateOf(log: Log, who: AccountId): Option<AccountId>
  {
    match log
    case Start => None
    case Then(b, e) =>
      if (e.Locked? || e.Voted?) && e.actor == who then Some(e.candidate)
      else if e.TakenOut? && e.actor == who then None
      else CandidateOf(b, who)
  }

  /** What an account has locked, and added since. */
  function LockedBy(log: Log, who: AccountId): nat
  {
    match log
    case Start => 0
    case Then(b, e) =>
      if e.Locked? && e.actor == who then e.amount
      else if e.Added? && e.actor == who then LockedBy(b, who) + e.amount
      else if e.TakenOut? && e.actor == who then 0
      else LockedBy(b, who)
  }

  ghost predicate HistoryFor(w: World, who: AccountId)
  {
    if who !in w.state.commitments then CandidateOf(w.log, who) == None && LockedBy(w.log, who) == 0
    else
      var m := w.state.commitments[who];
      CandidateOf(w.log, who) == Some(m.candidate) && LockedBy(w.log, who) == m.amount
  }

  ghost predicate HistoryInv(w: World)
  {
    forall who: AccountId :: HistoryFor(w, who)
  }

  lemma HistoryStep(w: World, call: Call, c: Config)
    requires HistoryInv(w)
    ensures HistoryInv(Next(w, call, c))
  {
    hide EraVoterReward, CouncilMint, Tally, Winners;
    var r := Next(w, call, c);
    forall who: AccountId ensures HistoryFor(r, who) {
      assert HistoryFor(w, who);
    }
  }

  /** After every run a commitment is for the candidate last named, and of what was locked and added. */
  lemma {:induction false} CommitmentsAreHistory(issuance: nat, calls: seq<Call>, k: nat, c: Config)
    requires k <= |calls|
    ensures HistoryInv(RunTo(issuance, calls, k, c))
  {
    hide Next;
    if k == 0 {
    } else {
      CommitmentsAreHistory(issuance, calls, k - 1, c);
      HistoryStep(RunTo(issuance, calls, k - 1, c), calls[k - 1], c);
    }
  }

  // ---------- candidacies ----------

  predicate Running(log: Log, who: AccountId)
  {
    match log
    case Start => false
    case Then(b, e) =>
      if e.CandidacyStarted? && e.actor == who then true
      else if e.CandidacyStopped? && e.actor == who then false
      else Running(b, who)
  }

  ghost predicate RunningFor(w: World, c: Config, who: AccountId)
  {
    && (who in w.state.candidates <==> Running(w.log, who))
    && (who in w.state.candidates ==> w.state.candidates[who] == c.candidacyDeposit)
  }

  ghost predicate RunningInv(w: World, c: Config)
  {
    forall who: AccountId :: RunningFor(w, c, who)
  }

  lemma RunningStep(w: World, call: Call, c: Config)
    requires RunningInv(w, c)
    ensures RunningInv(Next(w, call, c), c)
  {
    hide EraVoterReward, CouncilMint, Tally, Winners;
    var r := Next(w, call, c);
    forall who: AccountId ensures RunningFor(r, c, who) {
      assert RunningFor(w, c, who);
    }
  }

  /** After every run the candidates are those who started and have not stopped, each with its deposit. */
  lemma {:induction false} CandidatesAreRunning(issuance: nat, calls: seq<Call>, k: nat, c: Config)
    requires k <= |calls|
    ensures RunningInv(RunTo(issuance, calls, k, c), c)
  {
    hide Next;
    if k == 0 {
    } else {
      CandidatesAreRunning(issuance, calls, k - 1, c);
      RunningStep(RunTo(issuance, calls, k - 1, c), calls[k - 1], c);
    }
  }

  // ---------- the tally ----------

  /** A month counts once, a year ten times, ten years a hundred times. */
  function Multiplier(d: LockDuration): nat
  {
    if d == TenYears then 100 else if d == OneYear then 10 else 1
  }

  /** The weight an account's history gives to a candidate; unbonding takes it away. */
  ghost function VoteOf(log: Log, x: AccountId): AccountId -> nat
  {
    who =>
      if CandidateOf(log, who) == Some(x) && UnbondedAt(log, who).None? && DurationOf(log, who).Some?
      then Multiplier(DurationOf(log, who).value) * LockedBy(log, who) else 0
  }

  lemma WeightIsVote(w: World, x: AccountId, who: AccountId)
    requires HistoryFor(w, who) && LockInvFor(w, who) && who in w.state.commitments
    requires 100 * w.state.commitments[who].amount <= U128_MAX
    ensures WeightFor(w.state.commitments, x)(who) == VoteOf(w.log, x)(who)
  {
    hide CandidateOf, LockedBy, UnbondedAt, DurationOf;
  }

  /**
   * With the cap at most a hundredth of the balance type, after every run the tally counts exactly the running
   * candidates that some commitment names, each with the weights of the accounts whose last word names it.
   */
  lemma TallyIsVotes(issuance: nat, calls: seq<Call>, c: Config, x: AccountId)
    requires 100 * c.totalLockedCap <= U128_MAX && c.Typed()
    ensures var w := RunTo(issuance, calls, |calls|, c);
      var keys := w.state.commitments.Keys;
      && (x in Tally(w.state) <==> Running(w.log, x) && exists who :: who in keys && CandidateOf(w.log, who) == Some(x))
      && (x in Tally(w.state) ==> Tally(w.state)[x] == SumOver(keys, VoteOf(w.log, x)))
      && (forall who :: who in keys <==> CandidateOf(w.log, who).Some?)
  {
    hide RunTo, HistoryInv, RunningInv, LockInv, Tally, SumOver;
    CommitmentsAreHistory(issuance, calls, |calls|, c);
    CandidatesAreRunning(issuance, calls, |calls|, c);
    LocksKept(issuance, calls, |calls|, c);
    SmallAmounts(issuance, calls, c);
    TallyNeverSaturates(issuance, calls, |calls|, c, x);
    var w := RunTo(issuance, calls, |calls|, c);
    NamedByHistory(w, c, x);
    VotesAddUp(w, x);
  }

  /** Who has a commitment, and whom commitments name. */
  lemma NamedByHistory(w: World, c: Config, x: AccountId)
    requires HistoryInv(w) && RunningInv(w, c)
    ensures var keys := w.state.commitments.Keys;
      && (forall who :: who in keys <==> CandidateOf(w.log, who).Some?)
      && (x in Tallied(w.state) <==>
            Running(w.log, x) && exists who :: who in keys && CandidateOf(w.log, who) == Some(x))
    ensures Tally(w.state).Keys == Tallied(w.state)
  {
    hide CandidateOf, LockedBy, Running;
    var ms := w.state.commitments;
    assert RunningFor(w, c, x);
    forall who: AccountId
      ensures who in ms <==> CandidateOf(w.log, who).Some?
      ensures who in ms ==> CandidateOf(w.log, who) == Some(ms[who].candidate)
    {
      assert HistoryFor(w, who);
    }
  }

  lemma VotesAddUp(w: World, x: AccountId)
    requires HistoryInv(w) && LockInv(w)
    requires forall who :: who in w.state.commitments ==> 100 * w.state.commitments[who].amount <= U128_MAX
    ensures var ms := w.state.commitments;
      SumOver(ms.Keys, WeightFor(ms, x)) == SumOver(ms.Keys, VoteOf(w.log, x))
  {
    hide WeightFor, VoteOf, SumOver;
    var ms := w.state.commitments;
    forall who | who in ms ensures WeightFor(ms, x)(who) == VoteOf(w.log, x)(who) {
      assert HistoryFor(w, who) && LockInvFor(w, who);
      WeightIsVote(w, x, who);
    }
    SumOverSame(ms.Keys, WeightFor(ms, x), VoteOf(w.log, x));
  }

  lemma SmallAmounts(issuance: nat, calls: seq<Call>, c: Config)
    requires 100 * c.totalLockedCap <= U128_MAX && c.Typed()
    ensures var ms := RunTo(issuance, calls, |calls|, c).state.commitments;
      forall who :: who in ms ==> 100 * ms[who].amount <= U128_MAX
  {
    FundsConserved(issuance, calls, |calls|, c);
    hide RunTo;
    var s := RunTo(issuance, calls, |calls|, c).state;
    forall who | who in s.commitments ensures 100 * s.commitments[who].amount <= U128_MAX {
      SumOverAt(s.commitments.Keys, AmountOf(s.commitments), who);
    }
  }

  // ---------- which calls succeed ----------

  /** The account has a commitment and is not unbonding. */
  ghost predicate IsCommitted(log: Log, who: AccountId)
  {
    CandidateOf(log, who).Some? && UnbondedAt(log, who).None?
  }

  /** What all accounts together have locked. */
  ghost function TotalLocked(w: World): nat
  {
    SumOver(w.state.commitments.Keys, k => LockedBy(w.log, k))
  }

  lemma LockedIsHistory(w: World, issuance: nat, c: Config)
    requires HistoryInv(w) && FundsInv(w, issuance, c)
    ensures w.state.lockedAmount == TotalLocked(w)
    ensures forall who :: who in w.state.commitments ==> w.state.commitments[who].amount <= w.state.lockedAmount
  {
    hide LockedBy, CandidateOf;
    var ms := w.state.commitments;
    var f, g := AmountOf(ms), k => LockedBy(w.log, k);
    forall who | who in ms ensures f(who) == g(who) && ms[who].amount <= w.state.lockedAmount {
      assert HistoryFor(w, who);
      SumOverAt(ms.Keys, f, who);
    }
    SumOverSame(ms.Keys, f, g);
  }

  /**
   * After every run: an account can lock exactly when it has nothing locked, the amount is enough, the cap is not
   * reached and the currency lets the funds go; it can add exactly when it has something locked, under the same cap.
   */
  lemma LockExactly(issuance: nat, calls: seq<Call>, c: Config, who: AccountId, amount: nat, d: LockDuration,
      x: AccountId, allowed: bool)
    requires c.Typed()
    ensures var w := RunTo(issuance, calls, |calls|, c);
      var room := TotalLocked(w) + amount < c.totalLockedCap && allowed && amount <= w.state.issuance;
      && (Commit(w.state, who, amount, d, x, allowed, c).Ok? <==>
            CandidateOf(w.log, who).None? && amount >= c.minLockAmount && room)
      && (AddFunds(w.state, who, amount, allowed, c).Ok? <==> CandidateOf(w.log, who).Some? && room)
  {
    hide RunTo, TotalLocked, CandidateOf, LockedBy, FundsInv;
    CommitmentsAreHistory(issuance, calls, |calls|, c);
    FundsConserved(issuance, calls, |calls|, c);
    var w := RunTo(issuance, calls, |calls|, c);
    assert HistoryFor(w, who);
    LockedIsHistory(w, issuance, c);
  }

  /** After every run: unbonding and voting succeed exactly for committed accounts, voting if its reward can be paid. */
  lemma VoteExactly(issuance: nat, calls: seq<Call>, c: Config, who: AccountId, x: AccountId, deposited: bool)
    ensures var w := RunTo(issuance, calls, |calls|, c);
      && (Unbond(w.state, who).Ok? <==> IsCommitted(w.log, who))
      && (IsCommitted(w.log, who) ==> who in w.state.commitments)
      && (VoteCandidate(w.state, who, x, deposited, c).Ok? <==>
            IsCommitted(w.log, who) && (deposited || RewardDue(w.state, who, c) == 0))
  {
    hide RunTo, CandidateOf, LockedBy, UnbondedAt, DurationOf, EraVoterReward;
    CommitmentsAreHistory(issuance, calls, |calls|, c);
    LocksKept(issuance, calls, |calls|, c);
    var w := RunTo(issuance, calls, |calls|, c);
    assert HistoryFor(w, who) && LockInvFor(w, who);
  }

  /** After every run: an account can start running exactly when it is not, there is room, and it pays its deposit. */
  lemma StartExactly(issuance: nat, calls: seq<Call>, c: Config, who: AccountId, reserved: bool)
    requires c.Typed()
    ensures var w := RunTo(issuance, calls, |calls|, c);
      StartCandidacy(w.state, who, reserved, c).Ok? <==>
        !Running(w.log, who) && |w.state.candidates| < c.maxCandidates && reserved
  {
    hide RunTo, Running;
    CandidatesAreRunning(issuance, calls, |calls|, c);
    CouncilKept(issuance, calls, |calls|, c);
    assert RunningFor(RunTo(issuance, calls, |calls|, c), c, who);
  }

  // ---------- voter rewards ----------

  ghost predicate PaidFor(w: World, who: AccountId)
  {
    (w.state.eraIndex, who) in w.state.voterRewards ==> Paid(w.log, w.state.eraIndex, who) > 0
  }

  ghost predicate PaidInv(w: World)
  {
    RewardInv(w) && forall who: AccountId :: PaidFor(w, who)
  }

  lemma PaidStep(w: World, call: Call, c: Config)
    requires PaidInv(w)
    ensures PaidInv(Next(w, call, c))
  {
    RewardStep(w, call, c);
    hide EraVoterReward, CouncilMint, Tally, Winners, OncePaid;
    var r := Next(w, call, c);
    forall who: AccountId ensures PaidFor(r, who) {
      assert PaidFor(w, who);
    }
  }

  lemma {:induction false} EveryRunPays(issuance: nat, calls: seq<Call>, k: nat, c: Config)
    requires k <= |calls|
    ensures PaidInv(RunTo(issuance, calls, k, c))
  {
    hide Next;
    if k == 0 {
    } else {
      EveryRunPays(issuance, calls, k - 1, c);
      PaidStep(RunTo(issuance, calls, k - 1, c), calls[k - 1], c);
    }
  }

  /** While eras have indices of their own, a vote is paid exactly when none has been paid to the account in the era. */
  lemma VoteRewardExactly(issuance: nat, calls: seq<Call>, c: Config, who: AccountId)
    ensures var w := RunTo(issuance, calls, |calls|, c);
      who in w.state.commitments && Distinguished(w.state, w.state.eraIndex) ==>
        RewardDue(w.state, who, c) ==
          if Paid(w.log, w.state.eraIndex, who) > 0 then 0 else EraVoterReward(c, w.state.commitments[who])
  {
    EveryRunPays(issuance, calls, |calls|, c);
    hide RunTo, EraVoterReward, Paid;
    var w := RunTo(issuance, calls, |calls|, c);
    assert PaidFor(w, who);
    assert Distinguished(w.state, w.state.eraIndex) ==> OncePaid(w, w.state.eraIndex, who);
  }

  // ---------- the turn of an era ----------

  /** Eras of a given length, numbered from block 0; the number stays at the last one. */
  ghost predicate EraAt(s: State, d: nat)
    requires d > 0
  {
    s.eraStart == s.block / d * d && s.eraIndex == Min(s.block / d, U32_MAX)
  }

  lemma QuotientIs(n: nat, d: nat, q: nat)
    requires d > 0 && q * d <= n < q * d + d
    ensures n / d == q
  {
    var r := n / d;
    Quotient(n, d);
    if r < q {
      MulOrderAny(r + 1, q, d);
    } else if r > q {
      MulOrderAny(q + 1, r, d);
    }
  }

  lemma Quotient(n: nat, d: nat)
    requires d > 0
    ensures n / d * d <= n < n / d * d + d
  {
  }

  lemma OneMoreEra(q: nat, d: nat)
    ensures (q + 1) * d == q * d + d
  {
  }

  /** Counting on by one reaches the next multiple or stays below it. */
  lemma NextQuotient(b: nat, d: nat, q: nat)
    requires d > 0 && q * d <= b < q * d + d
    ensures (b + 1) / d == if b + 1 == q * d + d then q + 1 else q
  {
    OneMoreEra(q, d);
    if b + 1 == q * d + d {
      QuotientIs(b + 1, d, q + 1);
    } else {
      QuotientIs(b + 1, d, q);
    }
  }

  lemma EraStep(s: State, dead: set<AccountId>, c: Config)
    requires EraAt(s, Max(1, c.eraDuration))
    ensures EraAt(NextBlock(s, dead, c), Max(1, c.eraDuration))
  {
    hide CouncilMint, Tally, Winners, Ascending;
    var d := Max(1, c.eraDuration);
    Quotient(s.block, d);
    NextQuotient(s.block, d, s.block / d);
    OneMoreEra(s.block / d, d);
  }

  /** After every run the era index is the number of whole eras the block number holds, and the era began with it. */
  lemma {:induction false} EraIsQuotient(issuance: nat, calls: seq<Call>, k: nat, c: Config)
    requires k <= |calls|
    ensures EraAt(RunTo(issuance, calls, k, c).state, Max(1, c.eraDuration))
  {
    hide EraAt, NextBlock;
    if k == 0 {
      assert EraAt(Genesis(issuance).state, Max(1, c.eraDuration)) by { FirstEra(issuance, Max(1, c.eraDuration)); }
    } else {
      EraIsQuotient(issuance, calls, k - 1, c);
      var s, call := RunTo(issuance, calls, k - 1, c).state, calls[k - 1];
      if call.Tick? {
        EraStep(s, call.dead, c);
      } else {
        SameEra(s, call, c, Max(1, c.eraDuration));
      }
    }
  }

  lemma FirstEra(issuance: nat, d: nat)
    requires d > 0
    ensures EraAt(Genesis(issuance).state, d)
  {
  }

  lemma SameEra(s: State, call: Call, c: Config, d: nat)
    requires d > 0 && EraAt(s, d) && !call.Tick?
    ensures Step(s, call, c).Ok? ==> EraAt(Step(s, call, c).value, d)
  {
    hide EraVoterReward;
  }

  /** The best of a tally, as many as there are seats. */
  ghost predicate AreBest(ws: set<AccountId>, tally: map<AccountId, nat>, seats: nat)
  {
    && ws <= tally.Keys && |ws| == Min(seats, |tally.Keys|)
    && forall a, b :: a in ws && b in tally.Keys - ws ==> Beats(tally, a, b)
  }

  lemma SeatedAreBest(tally: map<AccountId, nat>, seats: nat)
    ensures var ws := Winners(tally, seats);
      && StrictlySorted(Ascending(ws)) && Elements(Ascending(ws)) == ws && AreBest(ws, tally, seats)
      && (ws == {} <==> tally == map[] || seats == 0)
  {
    hide Winners, Ascending, StrictlySorted, Elements;
    var ws := Winners(tally, seats);
    WinnersAreBest(tally, seats);
    AscendingElements(ws);
    AscendingSorted(ws);
    assert tally != map[] ==> tally.Keys != {};
  }

  /** An equal floor share for each of the seated, paid to those that can be paid. */
  ghost predicate PaysEqually(minted: nat, total: nat, ws: set<AccountId>, dead: set<AccountId>)
  {
    exists share: nat :: minted == Times(|ws - dead|, share) && Times(|ws|, share) <= total < Times(|ws|, share + 1)
  }

  /** Between turns the council stays; a turn seats the best of the tally, in order, and pays each an equal share. */
  lemma TurnSeatsBest(s: State, dead: set<AccountId>, c: Config)
    ensures var r := NextBlock(s, dead, c);
      if !EraOver(s, c) || Tally(s) == map[] || c.maxMembers == 0
      then r.members == s.members && r.issuance == s.issuance
      else
        && StrictlySorted(r.members) && AreBest(Elements(r.members), Tally(s), c.maxMembers) && r.members != []
        && r.issuance >= s.issuance
        && PaysEqually(r.issuance - s.issuance, EraCouncilRewards(c, s.issuance), Elements(r.members), dead)
  {
    hide NextBlock, Tally, Winners, Ascending, EraCouncilRewards, StrictlySorted, Elements, AreBest;
    EraTurn(s, dead, c);
    SeatedAreBest(Tally(s), c.maxMembers);
    var ws := Winners(Tally(s), c.maxMembers);
    if ws != {} {
      FloorShare(EraCouncilRewards(c, s.issuance), |ws|);
      assert |Ascending(ws)| > 0;
    }
  }

  lemma FloorShare(total: nat, n: nat)
    requires n > 0
    ensures Times(n, total / n) <= total < Times(n, total / n + 1)
  {
  }

  // ---------- the object through whole runs ----------

  /** The object performs one call of a run; `order` is the order in which storage lists the commitments. */
  method Perform(pallet: PocPallet, call: Call, order: seq<AccountId>, c: Config, ghost log: Log)
    returns (r: Result<(), Error>)
    requires call.Tick? ==> Enumerates(order, pallet.commitments.Keys)
    modifies pallet
    ensures pallet.View() == Next(World(old(pallet.View()), log), call, c).state
    ensures r.Ok? <==> Step(old(pallet.View()), call, c).Ok?
  {
    hide Poc.StartCandidacy, Poc.StopCandidacy, Poc.Commit, Poc.AddFunds;
    hide Poc.Unbond, Poc.Withdraw, Poc.VoteCandidate, NextBlock, EventOf;
    match call
    case StartRunning(who, reserved) => r := pallet.StartCandidacy(who, reserved, c);
    case StopRunning(who) => r := pallet.StopCandidacy(who);
    case Lock(who, amount, duration, candidate, allowed) =>
      r := pallet.Commit(who, amount, duration, candidate, allowed, c);
    case AddTo(who, amount, allowed) => r := pallet.AddFunds(who, amount, allowed, c);
    case StartUnbonding(who) => r := pallet.Unbond(who);
    case TakeOut(who, deposited) => r := pallet.Withdraw(who, deposited);
    case Vote(who, candidate, deposited) => r := pallet.VoteCandidate(who, candidate, deposited, c);
    case Tick(dead) => pallet.OnInitialize(order, dead, c); r := Ok(());
  }

  /** What every run from genesis keeps. */
  ghost predicate RunInv(w: World, issuance: nat, c: Config)
  {
    && FundsInv(w, issuance, c) && CouncilInv(w.state, c) && PaidInv(w) && LockInv(w)
    && HistoryInv(w) && RunningInv(w, c) && EraAt(w.state, Max(1, c.eraDuration))
  }

  lemma EveryRunKeeps(issuance: nat, calls: seq<Call>, c: Config)
    requires c.Typed()
    ensures RunInv(RunTo(issuance, calls, |calls|, c), issuance, c)
  {
    hide RunTo, FundsInv, CouncilInv, PaidInv, LockInv, HistoryInv, RunningInv, EraAt;
    FundsConserved(issuance, calls, |calls|, c);
    CouncilKept(issuance, calls, |calls|, c);
    EveryRunPays(issuance, calls, |calls|, c);
    LocksKept(issuance, calls, |calls|, c);
    CommitmentsAreHistory(issuance, calls, |calls|, c);
    CandidatesAreRunning(issuance, calls, |calls|, c);
    EraIsQuotient(issuance, calls, |calls|, c);
  }

  /** The pallet driven through any sequence of calls is in the state of that run, and all invariants hold of it. */
  method Execute(issuance: nat, calls: seq<Call>, c: Config) returns (pallet: PocPallet)
    requires c.Typed()
    ensures fresh(pallet)
    ensures var w := RunTo(issuance, calls, |calls|, c);
      pallet.View() == w.state && RunInv(w, issuance, c)
  {
    hide Next, RunInv, Enumerates, Ascending, Elements;
    pallet := new PocPallet(issuance);
    for i := 0 to |calls|
      invariant fresh(pallet) && pallet.View() == RunTo(issuance, calls, i, c).state
    {
      var order := SortedAccounts(pallet.commitments.Keys);
      AscendingEnumerates(pallet.commitments.Keys);
      var _ := Perform(pallet, calls[i], order, c, RunTo(issuance, calls, i, c).log);
    }
    EveryRunKeeps(issuance, calls, c);
  }

  lemma AscendingEnumerates(keys: set<AccountId>)
    ensures Enumerates(Ascending(keys), keys)
  {
    AscendingElements(keys);
    AscendingSorted(keys);
  }
}
