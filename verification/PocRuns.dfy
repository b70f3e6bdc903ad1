/** What holds of Proof of Commitment after every run from genesis. */
module PocRuns {
  import opened Numbers
  import opened Sums
  import opened Election
  import opened Poc

  // ---------- funds ----------

  function AmountOf(ms: map<AccountId, Commitment>): AccountId -> nat
  {
    k => if k in ms then ms[k].amount else 0
  }

  /** Everything minted as a reward. */
  function Minted(log: Log): nat
  {
    match log
    case Start => 0
    case Then(b, e) =>
      Minted(b) + match e case Voted(_, _, reward, _) => reward case CouncilPaid(minted) => minted case _ => 0
  }

  ghost function SumOfCommitments(s: State): nat
  {
    SumOver(s.commitments.Keys, AmountOf(s.commitments))
  }

  /** The locked amount is the sum of the commitments, below the cap; issuance and locks grow by rewards only. */
  ghost predicate FundsInv(w: World, issuance: nat, c: Config)
  {
    && w.state.lockedAmount == SumOfCommitments(w.state)
    && (w.state.lockedAmount == 0 || w.state.lockedAmount < c.totalLockedCap)
    && w.state.issuance + w.state.lockedAmount == issuance + Minted(w.log)
  }

  lemma SetCommitment(s: State, s': State, who: AccountId, m: Commitment)
    requires s'.commitments == s.commitments[who := m]
    ensures SumOfCommitments(s') + (if who in s.commitments then s.commitments[who].amount else 0)
         == SumOfCommitments(s) + m.amount
  {
    var f, g := AmountOf(s.commitments), AmountOf(s'.commitments);
    if who in s.commitments {
      assert s'.commitments.Keys == s.commitments.Keys;
      SumOverChange(s.commitments.Keys, f, g, who);
    } else {
      assert s'.commitments.Keys == s.commitments.Keys + {who};
      SumOverInsert(s.commitments.Keys, g, who);
      SumOverSame(s.commitments.Keys, f, g);
    }
  }

  lemma DropCommitment(s: State, s': State, who: AccountId)
    requires who in s.commitments && s'.commitments == s.commitments - {who}
    ensures SumOfCommitments(s') + s.commitments[who].amount == SumOfCommitments(s)
  {
    assert s'.commitments.Keys == s.commitments.Keys - {who};
    SumOverRemove(s.commitments.Keys, AmountOf(s.commitments), who);
    SumOverSame(s'.commitments.Keys, AmountOf(s.commitments), AmountOf(s'.commitments));
  }

  lemma FundsStep(w: World, call: Call, issuance: nat, c: Config)
    requires FundsInv(w, issuance, c) && c.Typed()
    ensures FundsInv(Next(w, call, c), issuance, c)
  {
    hide SumOfCommitments, CouncilMint, Tally, EraVoterReward;
    var s, r := w.state, Step(w.state, call, c);
    if r.Ok? {
      var s' := r.value;
      match call
      case Lock(who, amount, _, _, _) => SetCommitment(s, s', who, s'.commitments[who]);
      case AddTo(who, _, _) => SetCommitment(s, s', who, s'.commitments[who]);
      case StartUnbonding(who) => SetCommitment(s, s', who, s'.commitments[who]);
      case Vote(who, _, _) => SetCommitment(s, s', who, s'.commitments[who]);
      case TakeOut(who, _) => DropCommitment(s, s', who);
      case _ => SameCommitments(s, s');
    }
  }

  lemma SameCommitments(s: State, s': State)
    requires s'.commitments == s.commitments
    ensures SumOfCommitments(s') == SumOfCommitments(s)
  {
  }

  /** In every reachable state locks are accounted for, and only rewards are minted. */
  lemma {:induction false} FundsConserved(issuance: nat, calls: seq<Call>, k: nat, c: Config)
    requires k <= |calls| && c.Typed()
    ensures FundsInv(RunTo(issuance, calls, k, c), issuance, c)
  {
    hide Next;
    if k == 0 {
    } else {
      FundsConserved(issuance, calls, k - 1, c);
      FundsStep(RunTo(issuance, calls, k - 1, c), calls[k - 1], issuance, c);
    }
  }

  /** With the cap at most a hundredth of the balance type, no weight wraps and no tally saturates. */
  lemma TallyNeverSaturates(issuance: nat, calls: seq<Call>, k: nat, c: Config, x: AccountId)
    requires k <= |calls| && 100 * c.totalLockedCap <= U128_MAX && c.Typed()
    ensures var s := RunTo(issuance, calls, k, c).state;
      x in Tallied(s) ==> Tally(s)[x] == SumOver(s.commitments.Keys, WeightFor(s.commitments, x))
    ensures var ms := RunTo(issuance, calls, k, c).state.commitments;
      forall a :: a in ms && ms[a].state.Committed? ==> VotingWeight(ms[a]) == Weighted(ms[a].amount, ms[a].duration)
  {
    FundsConserved(issuance, calls, k, c);
    hide RunTo;
    var s := RunTo(issuance, calls, k, c).state;
    forall a | a in s.commitments ensures 100 * s.commitments[a].amount <= U128_MAX {
      SumOverAt(s.commitments.Keys, AmountOf(s.commitments), a);
    }
    SumOverScale(s.commitments.Keys, WeightFor(s.commitments, x), AmountOf(s.commitments), 100);
  }

  // ---------- the council ----------

  ghost predicate CouncilInv(s: State, c: Config)
  {
    && StrictlySorted(s.members) && |s.members| <= c.maxMembers
    && (forall i :: 0 <= i < |s.members| ==> s.members[i] in s.candidates)
    && s.candidatesCount == |s.candidates| <= c.maxCandidates
  }

  lemma TalliedAreRunning(s: State)
    ensures forall x :: x in Tally(s) ==> x in s.candidates
  {
  }

  lemma ElectionKeepsCouncil(s: State, dead: set<AccountId>, c: Config)
    requires CouncilInv(s, c)
    ensures CouncilInv(NextBlock(s, dead, c), c)
  {
    hide CouncilMint, Tally, Winners, Ascending;
    var ws := Winners(Tally(s), c.maxMembers);
    TalliedAreRunning(s);
    WinnersAreBest(Tally(s), c.maxMembers);
    AscendingSorted(ws);
    AscendingElements(ws);
    var members := Ascending(ws);
    forall i | 0 <= i < |members| ensures members[i] in s.candidates {
      assert members[i] in members;
    }
  }

  lemma StopKeepsCouncil(s: State, who: AccountId, c: Config)
    requires CouncilInv(s, c) && StopCandidacy(s, who).Ok?
    ensures CouncilInv(StopCandidacy(s, who).value, c)
  {
    SearchExact(s.members, who, 0, |s.members|);
    assert (s.candidates - {who}).Keys == s.candidates.Keys - {who};
  }

  lemma StartKeepsCouncil(s: State, who: AccountId, reserved: bool, c: Config)
    requires CouncilInv(s, c) && c.Typed() && StartCandidacy(s, who, reserved, c).Ok?
    ensures CouncilInv(StartCandidacy(s, who, reserved, c).value, c)
  {
    assert s.candidates[who := c.candidacyDeposit].Keys == s.candidates.Keys + {who};
  }

  lemma SameCouncil(s: State, s': State, c: Config)
    requires CouncilInv(s, c)
    requires s'.members == s.members && s'.candidates == s.candidates && s'.candidatesCount == s.candidatesCount
    ensures CouncilInv(s', c)
  {
  }

  lemma CouncilStep(s: State, call: Call, c: Config)
    requires CouncilInv(s, c) && c.Typed() && Step(s, call, c).Ok?
    ensures CouncilInv(Step(s, call, c).value, c)
  {
    hide NextBlock, StopCandidacy, StartCandidacy, EraVoterReward, CouncilInv;
    match call
    case Tick(dead) => ElectionKeepsCouncil(s, dead, c);
    case StopRunning(who) => StopKeepsCouncil(s, who, c);
    case StartRunning(who, reserved) => StartKeepsCouncil(s, who, reserved, c);
    case _ => SameCouncil(s, Step(s, call, c).value, c);
  }

  /** In every reachable state the council is sorted, within its size, and made of running candidates. */
  lemma {:induction false} CouncilKept(issuance: nat, calls: seq<Call>, k: nat, c: Config)
    requires k <= |calls| && c.Typed()
    ensures CouncilInv(RunTo(issuance, calls, k, c).state, c)
  {
    hide Step;
    if k == 0 {
    } else {
      CouncilKept(issuance, calls, k - 1, c);
      var s := RunTo(issuance, calls, k - 1, c).state;
      if Step(s, calls[k - 1], c).Ok? {
        CouncilStep(s, calls[k - 1], c);
      }
    }
  }

  /** So a candidate can stop exactly when not a member. */
  lemma StopExactly(issuance: nat, calls: seq<Call>, c: Config, who: AccountId)
    requires c.Typed()
    ensures var s := RunTo(issuance, calls, |calls|, c).state;
      StopCandidacy(s, who).Ok? <==> who in s.candidates && who !in s.members
  {
    CouncilKept(issuance, calls, |calls|, c);
    hide RunTo;
    var s := RunTo(issuance, calls, |calls|, c).state;
    SearchExact(s.members, who, 0, |s.members|);
  }

  /** The council is never paid more than the era's budget. */
  lemma CouncilWithinBudget(s: State, dead: set<AccountId>, c: Config)
    ensures CouncilMint(s, dead, c) <= EraCouncilRewards(c, s.issuance)
  {
    hide EraCouncilRewards, Winners, Tally;
    var ws := Winners(Tally(s), c.maxMembers);
    var alive := ws - dead;
    assert |alive| <= |ws| by { Fewer(ws, dead); }
    ShareBound(|alive|, |ws|, EraCouncilRewards(c, s.issuance));
  }

  lemma Fewer(ws: set<AccountId>, dead: set<AccountId>)
    ensures |ws - dead| <= |ws|
  {
    assert ws == (ws - dead) + (ws * dead);
  }

  lemma ShareBound(k: nat, n: nat, total: nat)
    requires k <= n
    ensures Times(k, if n == 0 then 0 else total / n) <= total
  {
    if n > 0 {
      MulOrderAny(k, n, total / n);
    }
  }

  // ---------- reward rates ----------

  /** An era's share of the year is rounded down to parts of 10^9 and is at most the whole year. */
  lemma EraShareIsFloor(c: Config)
    ensures c.eraDuration < 365 * DAYS ==>
      EraShare(c) * (365 * DAYS) <= c.eraDuration * BILLION < (EraShare(c) + 1) * (365 * DAYS)
    ensures c.eraDuration >= 365 * DAYS ==> EraShare(c) == BILLION
  {
  }

  lemma NearestOfParts(p: Perbill, x: nat)
    ensures 2 * (p * x) - BILLION <= 2 * BILLION * PerbillOf(p, x) <= 2 * (p * x) + BILLION
  {
  }

  /** Taking a part of a part is within one unit of the exact product. */
  lemma PartOfPart(p: Perbill, q: Perbill, x: nat)
    ensures var r := PerbillOf(p, PerbillOf(q, x)) * (BILLION * BILLION);
      p * (q * x) - BILLION * BILLION <= r <= p * (q * x) + BILLION * BILLION
  {
    var y := PerbillOf(q, x);
    var z := PerbillOf(p, y);
    NearestOfParts(q, x);
    NearestOfParts(p, y);
    hide PerbillOf;
    ScaleBounds(p, y, q * x);
    MulOrderAny(p, BILLION, BILLION);
    CombineBounds(z, p * y, p * (q * x), p * BILLION);
  }

  lemma CombineBounds(z: nat, py: nat, pe: nat, slack: nat)
    requires 2 * py - BILLION <= 2 * BILLION * z <= 2 * py + BILLION
    requires 2 * pe - slack <= 2 * BILLION * py <= 2 * pe + slack && slack <= BILLION * BILLION
    ensures pe - BILLION * BILLION <= z * (BILLION * BILLION) <= pe + BILLION * BILLION
  {
  }

  lemma ScaleBounds(p: nat, y: nat, e: nat)
    requires 2 * e - BILLION <= 2 * BILLION * y <= 2 * e + BILLION
    ensures 2 * (p * e) - p * BILLION <= 2 * BILLION * (p * y) <= 2 * (p * e) + p * BILLION
  {
    var d := 2 * BILLION * y - 2 * e;
    assert p * d == 2 * BILLION * (p * y) - 2 * (p * e);
    assert d <= BILLION && d + BILLION >= 0;
    assert p * d + p * BILLION == p * (d + BILLION) >= 0;
    assert p * BILLION - p * d == p * (BILLION - d) >= 0;
  }

  /** A voter's era reward: none for monthly locks, otherwise within one unit of rate times era share times amount. */
  lemma VoterRewardRate(c: Config, m: Commitment)
    requires m.state.Committed?
    ensures m.duration.OneMonth? ==> EraVoterReward(c, m) == 0
    ensures !m.duration.OneMonth? ==>
      var exact := c.nominatorAPY * (EraShare(c) * m.amount);
      var r := EraVoterReward(c, m) * (BILLION * BILLION);
      exact - BILLION * BILLION <= r <= exact + BILLION * BILLION
  {
    PartOfPart(c.nominatorAPY, EraShare(c), m.amount);
    hide PerbillOf, EraShare;
  }

  /** The council's era reward is within one unit of era share times inflation times issuance. */
  lemma CouncilRewardRate(c: Config, issuance: nat)
    ensures var exact := EraShare(c) * (c.councilInflation * issuance);
      var r := EraCouncilRewards(c, issuance) * (BILLION * BILLION);
      exact - BILLION * BILLION <= r <= exact + BILLION * BILLION
  {
    PartOfPart(EraShare(c), c.councilInflation, issuance);
    hide PerbillOf, EraShare;
  }

  // ---------- voter rewards ----------

  /** How often an account was paid a voter reward for an era index. */
  function Paid(log: Log, era: nat, who: AccountId): nat
  {
    match log
    case Start => 0
    case Then(b, e) => Paid(b, era, who) + if e.Voted? && e.actor == who && e.era == era && e.reward > 0 then 1 else 0
  }

  /** Eras with this index are told apart: it is not the last one, or block numbers still fit 32 bits. */
  ghost predicate Distinguished(s: State, e: nat) { e != U32_MAX || s.block <= U32_MAX }

  /** Rewards are remembered for the current era, and none is paid twice while eras have distinct indices. */
  ghost predicate RewardInv(w: World)
  {
    && w.state.eraIndex <= U32_MAX && w.state.eraIndex <= w.state.block
    && (forall k :: k in w.state.voterRewards ==> k.0 == w.state.eraIndex)
    && forall e: nat, a: AccountId :: Distinguished(w.state, e) ==> OncePaid(w, e, a)
  }

  ghost predicate OncePaid(w: World, e: nat, a: AccountId)
  {
    && Paid(w.log, e, a) <= 1
    && (e > w.state.eraIndex ==> Paid(w.log, e, a) == 0)
    && (e == w.state.eraIndex && Paid(w.log, e, a) > 0 ==> (e, a) in w.state.voterRewards)
  }

  lemma RewardStep(w: World, call: Call, c: Config)
    requires RewardInv(w)
    ensures RewardInv(Next(w, call, c))
  {
    hide EraVoterReward, CouncilMint, Tally, Winners;
    var r := Next(w, call, c);
    forall e: nat, a: AccountId | Distinguished(r.state, e) ensures OncePaid(r, e, a) {
      assert Distinguished(w.state, e);
      assert OncePaid(w, e, a);
    }
  }

  /**
   * Over every run, an account is paid at most one voter reward for an era index below the last one, and for
   * the last one too as long as the block number fits 32 bits.
   */
  lemma {:induction false} OneRewardPerEra(issuance: nat, calls: seq<Call>, k: nat, c: Config)
    requires k <= |calls|
    ensures RewardInv(RunTo(issuance, calls, k, c))
  {
    hide Next;
    if k == 0 {
    } else {
      OneRewardPerEra(issuance, calls, k - 1, c);
      RewardStep(RunTo(issuance, calls, k - 1, c), calls[k - 1], c);
    }
  }

  /** A second payment for an index needs the last index and more blocks than 32 bits can number. */
  lemma OnceWhileBlocksFit(issuance: nat, calls: seq<Call>, c: Config, era: nat, who: AccountId)
    ensures var w := RunTo(issuance, calls, |calls|, c);
      Paid(w.log, era, who) > 1 ==> era == U32_MAX < w.state.block
  {
    OneRewardPerEra(issuance, calls, |calls|, c);
    hide RunTo;
    var w := RunTo(issuance, calls, |calls|, c);
    assert Distinguished(w.state, era) ==> OncePaid(w, era, who);
  }

  // ---------- the last era index ----------

  ghost predicate Reachable(w: World, issuance: nat, c: Config)
  {
    exists calls: seq<Call> :: RunTo(issuance, calls, |calls|, c) == w
  }

  lemma {:induction false} RunPrefix(issuance: nat, calls: seq<Call>, more: seq<Call>, k: nat, c: Config)
    requires k <= |calls|
    ensures RunTo(issuance, calls + more, k, c) == RunTo(issuance, calls, k, c)
  {
    hide Next;
    if k == 0 {
    } else {
      RunPrefix(issuance, calls, more, k - 1, c);
    }
  }

  lemma ReachNext(w: World, call: Call, issuance: nat, c: Config)
    requires Reachable(w, issuance, c)
    ensures Reachable(Next(w, call, c), issuance, c)
  {
    hide Next;
    var calls: seq<Call> :| RunTo(issuance, calls, |calls|, c) == w;
    var more := calls + [call];
    RunPrefix(issuance, calls, [call], |calls|, c);
    assert RunTo(issuance, more, |more|, c) == Next(w, call, c);
  }

  /** The two states are one era apart; nothing else that matters to voters has changed. */
  ghost predicate Turned(s: State, s': State)
  {
    && s'.commitments == s.commitments
    && s'.eraIndex == Min(s.eraIndex + 1, U32_MAX)
    && s'.eraStart <= s'.block
    && s'.voterRewards == WithoutEra(s.voterRewards, s.eraIndex)
  }

  ghost predicate SamePayments(log: Log, log': Log)
  {
    forall e: nat, a: AccountId :: Paid(log', e, a) == Paid(log, e, a)
  }

  lemma TickOnce(w: World, c: Config)
    requires w.state.eraStart <= w.state.block
    ensures var r := Next(w, Tick({}), c);
      && SamePayments(w.log, r.log)
      && if EraOver(w.state, c) then Turned(w.state, r.state) else r.state == w.state.(block := w.state.block + 1)
  {
    hide CouncilMint, Tally, Winners, Ascending;
  }

  /** Letting blocks pass turns the era. */
  lemma {:induction false} TurnEra(w: World, issuance: nat, c: Config) returns (w': World)
    requires Reachable(w, issuance, c) && w.state.eraStart <= w.state.block
    ensures Reachable(w', issuance, c) && Turned(w.state, w'.state) && SamePayments(w.log, w'.log)
    decreases w.state.eraStart + c.eraDuration - w.state.block
  {
    hide Next, Reachable;
    TickOnce(w, c);
    ReachNext(w, Tick({}), issuance, c);
    w' := Next(w, Tick({}), c);
    if EraOver(w.state, c) {
    } else {
      w' := TurnEra(w', issuance, c);
    }
  }

  /** Letting enough blocks pass reaches the last era index. */
  lemma {:induction false} ReachLastIndex(w: World, issuance: nat, c: Config) returns (w': World)
    requires Reachable(w, issuance, c) && w.state.eraStart <= w.state.block
    requires w.state.eraIndex <= U32_MAX && w.state.voterRewards == map[]
    ensures Reachable(w', issuance, c) && SamePayments(w.log, w'.log)
    ensures w'.state.eraStart <= w'.state.block
    ensures w'.state.eraIndex == U32_MAX && w'.state.voterRewards == map[]
    ensures w'.state.commitments == w.state.commitments
    decreases U32_MAX - w.state.eraIndex
  {
    hide Reachable;
    if w.state.eraIndex == U32_MAX {
      w' := w;
    } else {
      w' := TurnEra(w, issuance, c);
      w' := ReachLastIndex(w', issuance, c);
    }
  }

  /** A vote that finds its reward unpaid is paid, once more. */
  lemma VotePays(w: World, who: AccountId, m: Commitment, c: Config)
    requires who in w.state.commitments && w.state.commitments[who] == m && m.state.Committed?
    requires w.state.voterRewards == map[] && EraVoterReward(c, m) > 0
    ensures var r := Next(w, Vote(who, m.candidate, true), c);
      && Paid(r.log, w.state.eraIndex, who) == Paid(w.log, w.state.eraIndex, who) + 1
      && r.state.commitments == w.state.commitments
      && r.state.eraIndex == w.state.eraIndex && r.state.eraStart == w.state.eraStart && r.state.block == w.state.block
      && r.state.voterRewards.Keys == {(w.state.eraIndex, who)}
  {
    hide EraVoterReward;
    assert w.state.commitments[who := m.(candidate := m.candidate)] == w.state.commitments;
  }

  /** The account can make this lock at genesis, and its votes earn something. */
  ghost predicate Earns(c: Config, issuance: nat, m: Commitment)
  {
    && m.state.Committed? && EraVoterReward(c, m) > 0
    && c.minLockAmount <= m.amount <= issuance && SatAdd(0, m.amount) < c.totalLockedCap
  }

  const REEF: nat := 1_000_000_000_000_000_000

  /** The constants the chain is built with: eras of a week, ten percent a year for voters. */
  const RUNTIME: Config := Config(
    7 * DAYS, BILLION / 10, BILLION / 100, 1_000_000 * REEF, 100_000 * REEF, 2_000_000_000 * REEF, 100, 9)

  lemma SmallestLockEarns()
    ensures PerbillOf(RUNTIME.nominatorAPY, PerbillOf(EraShare(RUNTIME), RUNTIME.minLockAmount)) > 0
  {
    assert EraShare(RUNTIME) == 19_178_082;
    assert PerbillOf(19_178_082, RUNTIME.minLockAmount) == 19_178_082 * 100_000 * 1_000_000_000;
  }

  /** On the chain every yearly or ten-yearly lock that can be made earns something. */
  lemma RuntimeLocksEarn(m: Commitment, issuance: nat)
    requires m.state.Committed? && m.duration != OneMonth
    ensures Earns(RUNTIME, issuance, m) <==>
      RUNTIME.minLockAmount <= m.amount <= issuance && m.amount < RUNTIME.totalLockedCap
  {
    hide PerbillOf, EraShare;
    var p, q, low := RUNTIME.nominatorAPY, EraShare(RUNTIME), RUNTIME.minLockAmount;
    SmallestLockEarns();
    if m.amount >= low {
      PerbillMonotone(q, q, low, m.amount);
      PerbillMonotone(p, p, PerbillOf(q, low), PerbillOf(q, m.amount));
    }
  }

  lemma LockAtGenesis(who: AccountId, m: Commitment, issuance: nat, c: Config)
    requires Earns(c, issuance, m)
    ensures var r := Next(Genesis(issuance), Lock(who, m.amount, m.duration, m.candidate, true), c);
      && r.state.commitments == map[who := m]
      && r.state.eraIndex == r.state.eraStart == r.state.block == 0 && r.state.voterRewards == map[]
      && SamePayments(Start, r.log)
  {
    hide EraVoterReward;
  }

  /** At the last index the era turns without a new index and forgets: the same index is paid twice in one run. */
  lemma LastIndexPaysAgain(who: AccountId, m: Commitment, issuance: nat, c: Config) returns (calls: seq<Call>)
    requires Earns(c, issuance, m)
    ensures Paid(RunTo(issuance, calls, |calls|, c).log, U32_MAX, who) == 2
  {
    var g := Genesis(issuance);
    assert RunTo(issuance, [], 0, c) == g;
    assert Reachable(g, issuance, c);
    LockAtGenesis(who, m, issuance, c);
    hide Reachable, Next, EraVoterReward;
    var lock, vote := Lock(who, m.amount, m.duration, m.candidate, true), Vote(who, m.candidate, true);
    ReachNext(g, lock, issuance, c);
    var w := ReachLastIndex(Next(g, lock, c), issuance, c);
    assert Paid(w.log, U32_MAX, who) == 0;
    VotePays(w, who, m, c);
    ReachNext(w, vote, issuance, c);
    w := TurnEra(Next(w, vote, c), issuance, c);
    assert Paid(w.log, U32_MAX, who) == 1;
    VotePays(w, who, m, c);
    ReachNext(w, vote, issuance, c);
    calls := RunOf(Next(w, vote, c), issuance, c);
  }

  lemma RunOf(w: World, issuance: nat, c: Config) returns (calls: seq<Call>)
    requires Reachable(w, issuance, c)
    ensures RunTo(issuance, calls, |calls|, c) == w
  {
    calls :| RunTo(issuance, calls, |calls|, c) == w;
  }

  ghost predicate PaidAtMostOnce(issuance: nat, c: Config, era: nat, who: AccountId)
  {
    forall calls: seq<Call> :: Paid(RunTo(issuance, calls, |calls|, c).log, era, who) <= 1
  }

  /** Over all runs an account is paid at most once for an era index, if and only if it is not the last one. */
  lemma OncePerIndexExactly(issuance: nat, c: Config, era: nat, who: AccountId, m: Commitment)
    ensures era != U32_MAX ==> PaidAtMostOnce(issuance, c, era, who)
    ensures Earns(c, issuance, m) ==> (PaidAtMostOnce(issuance, c, era, who) <==> era != U32_MAX)
  {
    if era != U32_MAX {
      forall calls: seq<Call> ensures Paid(RunTo(issuance, calls, |calls|, c).log, era, who) <= 1 {
        OneRewardPerEra(issuance, calls, |calls|, c);
        assert OncePaid(RunTo(issuance, calls, |calls|, c), era, who);
      }
    } else if Earns(c, issuance, m) {
      var calls := LastIndexPaysAgain(who, m, issuance, c);
    }
  }

  // ---------- time locks ----------

  ghost predicate By(e: Event, who: AccountId)
  {
    (e.Locked? || e.Added? || e.UnbondingStarted? || e.TakenOut? || e.Voted?) && e.actor == who
  }

  /** The block at which an account started unbonding, when that is the last thing it did. */
  ghost function UnbondedAt(log: Log, who: AccountId): Option<nat>
  {
    match log
    case Start => None
    case Then(b, e) => if By(e, who) then (if e.UnbondingStarted? then Some(e.at) else None) else UnbondedAt(b, who)
  }

  /** The duration chosen at the account's last lock, unless it has been taken out since. */
  ghost function DurationOf(log: Log, who: AccountId): Option<LockDuration>
  {
    match log
    case Start => None
    case Then(b, e) =>
      if e.Locked? && e.actor == who then Some(e.period)
      else if e.TakenOut? && e.actor == who then None
      else DurationOf(b, who)
  }

  ghost predicate LockInvFor(w: World, who: AccountId)
  {
    if who !in w.state.commitments then DurationOf(w.log, who) == None && UnbondedAt(w.log, who) == None
    else
      var m := w.state.commitments[who];
      && DurationOf(w.log, who) == Some(m.duration)
      && UnbondedAt(w.log, who) == match m.state case Committed => None case Unbonding(b) => Some(b)
  }

  ghost predicate LockInv(w: World)
  {
    forall who: AccountId :: LockInvFor(w, who)
  }

  lemma LockStep(w: World, call: Call, c: Config)
    requires LockInv(w)
    ensures LockInv(Next(w, call, c))
  {
    hide EraVoterReward, CouncilMint, Tally, Winners;
    var r := Next(w, call, c);
    forall who: AccountId ensures LockInvFor(r, who) {
      assert LockInvFor(w, who);
    }
  }

  lemma {:induction false} LocksKept(issuance: nat, calls: seq<Call>, k: nat, c: Config)
    requires k <= |calls|
    ensures LockInv(RunTo(issuance, calls, k, c))
  {
    hide Next;
    if k == 0 {
    } else {
      LocksKept(issuance, calls, k - 1, c);
      LockStep(RunTo(issuance, calls, k - 1, c), calls[k - 1], c);
    }
  }

  function DaysOf(d: LockDuration): nat
  {
    if d == OneMonth then 30 else if d == OneYear then 365 else 3650
  }

  /**
   * After every run a withdrawal succeeds exactly when the last thing the account did was to start
   * unbonding, at least the period chosen at its lock ago, and the currency takes the funds back.
   */
  lemma WithdrawExactly(issuance: nat, calls: seq<Call>, c: Config, who: AccountId, deposited: bool)
    ensures var w := RunTo(issuance, calls, |calls|, c);
      Withdraw(w.state, who, deposited).Ok? <==>
        && deposited
        && UnbondedAt(w.log, who).Some? && DurationOf(w.log, who).Some?
        && UnbondedAt(w.log, who).value + 8640 * DaysOf(DurationOf(w.log, who).value) <= w.state.block
  {
    LocksKept(issuance, calls, |calls|, c);
    hide RunTo;
    var w := RunTo(issuance, calls, |calls|, c);
    assert LockInvFor(w, who);
  }
}
