/** Proof of Commitment: long locks, candidacies, council elections and rewards, as transitions on storage. */
module Poc {
  import opened Numbers
  import opened Sums
  import opened Election

  // ---------- storage ----------

  /** Blocks come every ten seconds. */
  const DAYS: nat := 8640

  datatype LockState = Committed | Unbonding(since: nat)

  datatype LockDuration = OneMonth | OneYear | TenYears

  datatype Commitment = Commitment(state: LockState, duration: LockDuration, amount: nat, candidate: AccountId)

  datatype Config = Config(
    eraDuration: nat, nominatorAPY: Perbill, councilInflation: Perbill,
    candidacyDeposit: nat, minLockAmount: nat, totalLockedCap: nat, maxCandidates: nat, maxMembers: nat)
  {
    /** The constants have the types the pallet gives them. */
    ghost predicate Typed() { totalLockedCap <= U128_MAX && maxCandidates <= U32_MAX }
  }

  datatype State = State(
    block: nat, eraIndex: nat, eraStart: nat,
    voterRewards: map<(nat, AccountId), nat>,
    commitments: map<AccountId, Commitment>,
    members: seq<AccountId>,
    candidates: map<AccountId, nat>,
    candidatesCount: nat,
    lockedAmount: nat,
    issuance: nat)

  datatype Error =
    | AlreadyCandidate | NotCandidate | CannotLeave | MaxCandidatesReached | AlreadyCommitted | CommitmentNotFound
    | NotCommitted | CannotWithdrawLocked | InsufficientAmount | OverSubscribed | CurrencyOverflow | CurrencyFailed

  // ---------- weights and rewards ----------

  /** Committed funds times the lock's multiplier: monthly locks once, yearly ten times, ten-yearly a hundred times. */
  function Weighted(amount: nat, d: LockDuration): nat
  {
    match d case OneMonth => amount case OneYear => amount * 10 case TenYears => amount * 100
  }

  /** A product as 128 bits hold it. */
  function Wrap128(x: nat): (r: nat)
    ensures r <= U128_MAX && (x <= U128_MAX ==> r == x)
  {
    if x <= U128_MAX then x else x % (U128_MAX + 1)
  }

  /** The weight of a commitment's vote; an unbonding commitment has none. */
  function VotingWeight(c: Commitment): (w: nat)
    ensures w <= U128_MAX
    ensures c.state.Committed? && 100 * c.amount <= U128_MAX ==> w == Weighted(c.amount, c.duration)
    ensures c.state.Unbonding? ==> w == 0
  {
    if c.state.Unbonding? then 0 else Wrap128(Weighted(c.amount, c.duration))
  }

  /** The part of a year that an era lasts, rounded down. */
  function EraShare(c: Config): Perbill
  {
    if c.eraDuration >= 365 * DAYS then BILLION else c.eraDuration * BILLION / (365 * DAYS)
  }

  function EraVoterReward(c: Config, m: Commitment): nat
  {
    if m.state.Unbonding? || m.duration.OneMonth? then 0
    else PerbillOf(c.nominatorAPY, PerbillOf(EraShare(c), m.amount))
  }

  function EraCouncilRewards(c: Config, issuance: nat): nat
  {
    PerbillOf(EraShare(c), PerbillOf(c.councilInflation, issuance))
  }

  function LockPeriod(d: LockDuration): nat
  {
    DAYS * match d case OneMonth => 30 case OneYear => 365 case TenYears => 3650
  }

  // ---------- candidacies ----------

  /** `reserved` is the currency's answer to the deposit. */
  function StartCandidacy(s: State, who: AccountId, reserved: bool, c: Config): Result<State, Error>
  {
    if who in s.candidates then Err(AlreadyCandidate)
    else if s.candidatesCount >= c.maxCandidates then Err(MaxCandidatesReached)
    else if !reserved then Err(CurrencyFailed)
    else Ok(s.(candidates := s.candidates[who := c.candidacyDeposit],
        candidatesCount := Min(s.candidatesCount + 1, U32_MAX)))
  }

  function StopCandidacy(s: State, who: AccountId): Result<State, Error>
  {
    if who !in s.candidates then Err(NotCandidate)
    else if SearchFinds(s.members, who, 0, |s.members|) then Err(CannotLeave)
    else Ok(s.(candidates := s.candidates - {who}, candidatesCount := SatSub(s.candidatesCount, 1)))
  }

  // ---------- commitments ----------

  /** Funds leave the issuance when the currency lets them go; it never burns more than exists. */
  predicate CanWithdraw(s: State, amount: nat, allowed: bool) { allowed && amount <= s.issuance }

  function Commit(s: State, who: AccountId, amount: nat, duration: LockDuration, candidate: AccountId,
      allowed: bool, c: Config)
    : Result<State, Error>
  {
    if who in s.commitments then Err(AlreadyCommitted)
    else if amount < c.minLockAmount then Err(InsufficientAmount)
    else if SatAdd(s.lockedAmount, amount) >= c.totalLockedCap then Err(OverSubscribed)
    else if !CanWithdraw(s, amount, allowed) then Err(CurrencyFailed)
    else Ok(s.(issuance := s.issuance - amount, lockedAmount := SatAdd(s.lockedAmount, amount),
               commitments := s.commitments[who := Commitment(Committed, duration, amount, candidate)]))
  }

  function AddFunds(s: State, who: AccountId, amount: nat, allowed: bool, c: Config): Result<State, Error>
  {
    if who !in s.commitments then Err(CommitmentNotFound)
    else if SatAdd(s.lockedAmount, amount) >= c.totalLockedCap then Err(OverSubscribed)
    else if !CanWithdraw(s, amount, allowed) then Err(CurrencyFailed)
    else
      var m := s.commitments[who];
      if m.amount + amount > U128_MAX then Err(CurrencyOverflow)
      else Ok(s.(issuance := s.issuance - amount, lockedAmount := SatAdd(s.lockedAmount, amount),
                 commitments := s.commitments[who := m.(amount := m.amount + amount, state := Committed)]))
  }

  function Unbond(s: State, who: AccountId): Result<State, Error>
  {
    if who !in s.commitments then Err(CommitmentNotFound)
    else if !s.commitments[who].state.Committed? then Err(NotCommitted)
    else Ok(s.(commitments := s.commitments[who := s.commitments[who].(state := Unbonding(s.block))]))
  }

  /** `deposited` is the currency's answer to returning the funds. */
  function Withdraw(s: State, who: AccountId, deposited: bool): Result<State, Error>
  {
    if who !in s.commitments then Err(CommitmentNotFound)
    else
      var m := s.commitments[who];
      if m.state.Committed? then Err(AlreadyCommitted)
      else if m.state.since + LockPeriod(m.duration) > s.block then Err(CannotWithdrawLocked)
      else if !deposited then Err(CurrencyFailed)
      else Ok(s.(issuance := s.issuance + m.amount, commitments := s.commitments - {who},
                 lockedAmount := SatSub(s.lockedAmount, m.amount)))
  }

  /** The reward a vote would be paid now; nothing when one has been paid for this era. */
  function RewardDue(s: State, who: AccountId, c: Config): nat
    requires who in s.commitments
  {
    if (s.eraIndex, who) in s.voterRewards then 0 else EraVoterReward(c, s.commitments[who])
  }

  function VoteCandidate(s: State, who: AccountId, candidate: AccountId, deposited: bool, c: Config)
    : Result<State, Error>
  {
    if who !in s.commitments then Err(CommitmentNotFound)
    else if !s.commitments[who].state.Committed? then Err(NotCommitted)
    else
      var s1 := s.(commitments := s.commitments[who := s.commitments[who].(candidate := candidate)]);
      var reward := RewardDue(s, who, c);
      if reward == 0 then Ok(s1)
      else if !deposited then Err(CurrencyFailed)
      else Ok(s1.(voterRewards := s.voterRewards[(s.eraIndex, who) := reward], issuance := s.issuance + reward))
  }

  // ---------- the turn of an era ----------

  /** The weight each commitment gives to candidate `x`. */
  function WeightFor(ms: map<AccountId, Commitment>, x: AccountId): AccountId -> nat
  {
    k => if k in ms && ms[k].candidate == x then VotingWeight(ms[k]) else 0
  }

  /** The running candidates that some commitment names. */
  function Tallied(s: State): set<AccountId>
  {
    set k | k in s.commitments && s.commitments[k].candidate in s.candidates :: s.commitments[k].candidate
  }

  /** Each tallied candidate's weight: the sum over all commitments, saturating at 128 bits. */
  ghost function Tally(s: State): map<AccountId, nat>
  {
    map x | x in Tallied(s) :: Min(SumOver(s.commitments.Keys, WeightFor(s.commitments, x)), U128_MAX)
  }

  function WithoutEra(rewards: map<(nat, AccountId), nat>, era: nat): map<(nat, AccountId), nat>
  {
    map k | k in rewards && k.0 != era :: rewards[k]
  }

  predicate EraOver(s: State, c: Config) { s.block + 1 >= s.eraStart + c.eraDuration }

  /** What each of `n` winners is paid. */
  function WinnerReward(c: Config, issuance: nat, n: nat): nat
  {
    if n == 0 then 0 else EraCouncilRewards(c, issuance) / n
  }

  function Times(a: nat, b: nat): nat { a * b }

  /** What the council is paid in all; deposits to the accounts in `dead` fail. */
  ghost function CouncilMint(s: State, dead: set<AccountId>, c: Config): nat
  {
    var ws := Winners(Tally(s), c.maxMembers);
    Times(|ws - dead|, WinnerReward(c, s.issuance, |ws|))
  }

  /** The next block; when the era is over a new council is elected and paid. */
  ghost function NextBlock(s: State, dead: set<AccountId>, c: Config): State
  {
    var s1 := s.(block := s.block + 1);
    if !EraOver(s, c) then s1
    else
      var ws := Winners(Tally(s), c.maxMembers);
      s1.(eraIndex := Min(s.eraIndex + 1, U32_MAX), eraStart := s.block + 1,
          voterRewards := WithoutEra(s.voterRewards, s.eraIndex),
          members := if ws == {} then s.members else Ascending(ws),
          issuance := s.issuance + CouncilMint(s, dead, c))
  }

  // ---------- runs ----------

  datatype Call =
    | StartRunning(who: AccountId, reserved: bool)
    | StopRunning(who: AccountId)
    | Lock(who: AccountId, amount: nat, duration: LockDuration, candidate: AccountId, allowed: bool)
    | AddTo(who: AccountId, amount: nat, allowed: bool)
    | StartUnbonding(who: AccountId)
    | TakeOut(who: AccountId, deposited: bool)
    | Vote(who: AccountId, candidate: AccountId, deposited: bool)
    | Tick(dead: set<AccountId>)

  ghost function Step(s: State, call: Call, c: Config): Result<State, Error>
  {
    match call
    case StartRunning(who, reserved) => StartCandidacy(s, who, reserved, c)
    case StopRunning(who) => StopCandidacy(s, who)
    case Lock(who, amount, duration, candidate, allowed) => Commit(s, who, amount, duration, candidate, allowed, c)
    case AddTo(who, amount, allowed) => AddFunds(s, who, amount, allowed, c)
    case StartUnbonding(who) => Unbond(s, who)
    case TakeOut(who, deposited) => Withdraw(s, who, deposited)
    case Vote(who, candidate, deposited) => VoteCandidate(s, who, candidate, deposited, c)
    case Tick(dead) => Ok(NextBlock(s, dead, c))
  }

  /** What a call did, when it succeeded. */
  datatype Event =
    | CandidacyStarted(actor: AccountId)
    | CandidacyStopped(actor: AccountId)
    | Locked(actor: AccountId, period: LockDuration, amount: nat, candidate: AccountId)
    | Added(actor: AccountId, amount: nat)
    | UnbondingStarted(actor: AccountId, at: nat)
    | TakenOut(actor: AccountId)
    | Voted(actor: AccountId, era: nat, reward: nat, candidate: AccountId)
    | CouncilPaid(minted: nat)

  datatype Log = Start | Then(before: Log, last: Event)

  datatype World = World(state: State, log: Log)

  ghost function EventOf(s: State, call: Call, c: Config): Event
  {
    match call
    case StartRunning(who, _) => CandidacyStarted(who)
    case StopRunning(who) => CandidacyStopped(who)
    case Lock(who, amount, duration, candidate, _) => Locked(who, duration, amount, candidate)
    case AddTo(who, amount, _) => Added(who, amount)
    case StartUnbonding(who) => UnbondingStarted(who, s.block)
    case TakeOut(who, _) => TakenOut(who)
    case Vote(who, candidate, _) =>
      Voted(who, s.eraIndex, if who in s.commitments then RewardDue(s, who, c) else 0, candidate)
    case Tick(dead) => CouncilPaid(if EraOver(s, c) then CouncilMint(s, dead, c) else 0)
  }

  ghost function Next(w: World, call: Call, c: Config): World
  {
    match Step(w.state, call, c)
    case Ok(s) => World(s, Then(w.log, EventOf(w.state, call, c)))
    case Err(_) => w
  }

  function Genesis(issuance: nat): World
  {
    World(State(0, 0, 0, map[], map[], [], map[], 0, 0, issuance), Start)
  }

  ghost function RunTo(issuance: nat, calls: seq<Call>, k: nat, c: Config): World
    requires k <= |calls|
  {
    if k == 0 then Genesis(issuance) else Next(RunTo(issuance, calls, k - 1, c), calls[k - 1], c)
  }
}
