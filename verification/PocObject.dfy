/** The Proof of Commitment pallet as an object whose storage the calls update. */
module PocObject {
  import opened Numbers
  import opened Sums
  import opened Election
  import opened Poc

  /** The entries of an ordered map, or a sorted vector of distinct accounts. */
  method SortedAccounts(s: set<AccountId>) returns (r: seq<AccountId>)
    ensures r == Ascending(s)
  {
    r := [];
    var rest := s;
    while rest != {}
      invariant rest <= s && Ascending(s) == r + Ascending(rest)
      decreases rest
    {
      LeastWitness(rest);
      var x :| x in rest && forall y :: y in rest ==> x <= y;
      LeastUnique(rest, x);
      r := r + [x];
      rest := rest - {x};
    }
  }

  lemma LeastUnique(s: set<AccountId>, x: AccountId)
    requires Least(s, x)
    ensures Ascending(s) == [x] + Ascending(s - {x})
  {
    assert LeastOf(s) == x;
  }

  // ---------- the tally loop ----------

  /** The order lists every commitment once. */
  ghost predicate Enumerates(order: seq<AccountId>, keys: set<AccountId>)
  {
    && (forall i, j :: 0 <= i < j < |order| ==> order[i] != order[j])
    && Elements(order) == keys
  }

  ghost predicate Names(order: seq<AccountId>, i: nat, ms: map<AccountId, Commitment>, x: AccountId)
    requires i <= |order| && forall j :: 0 <= j < |order| ==> order[j] in ms
  {
    exists j :: 0 <= j < i && ms[order[j]].candidate == x
  }

  function CountFor(counter: map<AccountId, nat>, x: AccountId): nat { if x in counter then counter[x] else 0 }

  /** The tally after the first `i` commitments of an order have been counted. */
  ghost predicate TallySoFar(counter: map<AccountId, nat>, order: seq<AccountId>, i: nat, s: State)
    requires i <= |order| && forall j :: 0 <= j < |order| ==> order[j] in s.commitments
  {
    && (forall x :: x in counter <==> x in s.candidates && Names(order, i, s.commitments, x))
    && forall x :: x in s.candidates ==>
         CountFor(counter, x) == Min(SumOver(Elements(order[..i]), WeightFor(s.commitments, x)), U128_MAX)
  }

  lemma CountNone(order: seq<AccountId>, s: State)
    requires forall j :: 0 <= j < |order| ==> order[j] in s.commitments
    ensures TallySoFar(map[], order, 0, s)
  {
    assert Elements(order[..0]) == {};
  }

  /** The counter after one more commitment. */
  function Counted(counter: map<AccountId, nat>, m: Commitment, s: State): map<AccountId, nat>
  {
    if m.candidate !in s.candidates then counter
    else if m.candidate in counter then counter[m.candidate := SatAdd(VotingWeight(m), counter[m.candidate])]
    else counter[m.candidate := VotingWeight(m)]
  }

  lemma CountedAt(counter: map<AccountId, nat>, m: Commitment, s: State, x: AccountId, sum: nat)
    requires x in s.candidates && CountFor(counter, x) == Min(sum, U128_MAX)
    ensures CountFor(Counted(counter, m, s), x)
         == Min((if m.candidate == x then VotingWeight(m) else 0) + sum, U128_MAX)
  {
  }

  lemma NamesOneMore(order: seq<AccountId>, i: nat, ms: map<AccountId, Commitment>, x: AccountId)
    requires i < |order| && forall j :: 0 <= j < |order| ==> order[j] in ms
    ensures Names(order, i + 1, ms, x) <==> Names(order, i, ms, x) || ms[order[i]].candidate == x
  {
    if Names(order, i, ms, x) {
      var j :| 0 <= j < i && ms[order[j]].candidate == x;
      assert 0 <= j < i + 1;
    }
  }

  lemma CountOne(counter: map<AccountId, nat>, order: seq<AccountId>, i: nat, s: State)
    requires i < |order| && forall j :: 0 <= j < |order| ==> order[j] in s.commitments
    requires forall j, k :: 0 <= j < k < |order| ==> order[j] != order[k]
    requires TallySoFar(counter, order, i, s)
    ensures TallySoFar(Counted(counter, s.commitments[order[i]], s), order, i + 1, s)
  {
    hide VotingWeight, SumOver, Names, CountFor;
    var m := s.commitments[order[i]];
    var after := Counted(counter, m, s);
    var seen := Elements(order[..i]);
    assert order[..i + 1] == order[..i] + [order[i]];
    assert Elements(order[..i + 1]) == seen + {order[i]};
    forall x | x in s.candidates
      ensures CountFor(after, x) == Min(SumOver(Elements(order[..i + 1]), WeightFor(s.commitments, x)), U128_MAX)
    {
      SumOverInsert(seen, WeightFor(s.commitments, x), order[i]);
      CountedAt(counter, m, s, x, SumOver(seen, WeightFor(s.commitments, x)));
    }
    forall x ensures x in after <==> x in s.candidates && Names(order, i + 1, s.commitments, x) {
      NamesOneMore(order, i, s.commitments, x);
    }
  }

  lemma TalliedAreNamed(order: seq<AccountId>, s: State, x: AccountId)
    requires Elements(order) == s.commitments.Keys && forall j :: 0 <= j < |order| ==> order[j] in s.commitments
    ensures x in Tallied(s) <==> x in s.candidates && Names(order, |order|, s.commitments, x)
  {
    if x in Tallied(s) {
      var k :| k in s.commitments && s.commitments[k].candidate in s.candidates && s.commitments[k].candidate == x;
      assert k in Elements(order);
      var j :| 0 <= j < |order| && order[j] == k;
    }
  }

  /** Counting every commitment gives the tally, whatever the order. */
  lemma CountAll(counter: map<AccountId, nat>, order: seq<AccountId>, s: State)
    requires Enumerates(order, s.commitments.Keys) && forall j :: 0 <= j < |order| ==> order[j] in s.commitments
    requires TallySoFar(counter, order, |order|, s)
    ensures counter == Tally(s)
  {
    assert order[..|order|] == order;
    forall x
      ensures x in counter <==> x in Tallied(s)
      ensures x in counter ==> counter[x] == Min(SumOver(s.commitments.Keys, WeightFor(s.commitments, x)), U128_MAX)
    {
      TalliedAreNamed(order, s, x);
      assert x in counter ==> counter[x] == CountFor(counter, x);
    }
    TallyIs(counter, s);
  }

  lemma TallyIs(counter: map<AccountId, nat>, s: State)
    requires forall x :: x in counter <==> x in Tallied(s)
    requires forall x :: x in counter ==>
      counter[x] == Min(SumOver(s.commitments.Keys, WeightFor(s.commitments, x)), U128_MAX)
    ensures counter == Tally(s)
  {
    hide SumOver, WeightFor, Tallied;
  }

  // ---------- paying the winners ----------

  ghost function AliveTo(members: seq<AccountId>, dead: set<AccountId>, i: nat): nat
    requires i <= |members|
  {
    if i == 0 then 0 else AliveTo(members, dead, i - 1) + if members[i - 1] in dead then 0 else 1
  }

  lemma NoElements(members: seq<AccountId>)
    ensures Elements(members[..0]) == {}
  {
  }

  lemma ElementsOneMore(members: seq<AccountId>, i: nat)
    requires i < |members| && StrictlySorted(members)
    ensures Elements(members[..i + 1]) == Elements(members[..i]) + {members[i]}
    ensures members[i] !in Elements(members[..i])
  {
    assert members[..i + 1] == members[..i] + [members[i]];
  }

  lemma {:induction false} AliveIsSize(members: seq<AccountId>, dead: set<AccountId>, i: nat)
    requires i <= |members| && StrictlySorted(members)
    ensures AliveTo(members, dead, i) == |Elements(members[..i]) - dead|
  {
    NoElements(members);
    hide Elements, StrictlySorted;
    if i == 0 {
      assert {} - dead == {};
    } else {
      var x := members[i - 1];
      AliveIsSize(members, dead, i - 1);
      ElementsOneMore(members, i - 1);
      OneMoreAlive(Elements(members[..i - 1]), x, dead);
    }
  }

  lemma OneMoreAlive(s: set<AccountId>, x: AccountId, dead: set<AccountId>)
    requires x !in s
    ensures |s + {x} - dead| == |s - dead| + if x in dead then 0 else 1
  {
    assert s + {x} - dead == (s - dead) + if x in dead then {} else {x};
  }

  /** The first `i` members that can be paid have been, in order. */
  ghost predicate PaidSoFar(paid: seq<AccountId>, members: seq<AccountId>, dead: set<AccountId>, i: nat)
    requires i <= |members|
  {
    && |paid| == AliveTo(members, dead, i)
    && StrictlySorted(paid)
    && Elements(paid) == Elements(members[..i]) - dead
  }

  lemma PaidOneMore(paid: seq<AccountId>, members: seq<AccountId>, dead: set<AccountId>, i: nat)
    requires i < |members| && StrictlySorted(members) && PaidSoFar(paid, members, dead, i)
    ensures PaidSoFar(if members[i] in dead then paid else paid + [members[i]], members, dead, i + 1)
  {
    ElementsOneMore(members, i);
    if members[i] !in dead {
      SortedAppend(paid, members, i);
      assert Elements(paid + [members[i]]) == Elements(paid) + {members[i]};
    }
  }

  lemma SortedAppend(paid: seq<AccountId>, members: seq<AccountId>, i: nat)
    requires i < |members| && StrictlySorted(members) && StrictlySorted(paid)
    requires Elements(paid) <= Elements(members[..i])
    ensures StrictlySorted(paid + [members[i]])
  {
    forall k | 0 <= k < |paid| ensures paid[k] < members[i] {
      assert paid[k] in Elements(paid);
      assert paid[k] in members[..i];
    }
  }

  /** The turn of an era, part by part. */
  lemma EraTurn(s: State, dead: set<AccountId>, c: Config)
    ensures var ws := Winners(Tally(s), c.maxMembers);
      NextBlock(s, dead, c) ==
        if !EraOver(s, c) then s.(block := s.block + 1)
        else s.(block := s.block + 1, eraIndex := Min(s.eraIndex + 1, U32_MAX), eraStart := s.block + 1,
                voterRewards := WithoutEra(s.voterRewards, s.eraIndex),
                members := if ws == {} then s.members else Ascending(ws),
                issuance := s.issuance + if ws == {} then 0 else Times(|ws - dead|, WinnerReward(c, s.issuance, |ws|)))
  {
    hide Tally, Winners, Ascending, WinnerReward;
    assert {} - dead == {};
  }

  /** The result says what the transition says, and a refused call changes nothing. */
  predicate Did(before: State, after: State, r: Result<(), Error>, spec: Result<State, Error>)
  {
    match spec
    case Ok(s) => r.Ok? && after == s
    case Err(e) => r == Err(e) && after == before
  }

  class PocPallet {
    var block: nat
    var eraIndex: nat
    var eraStart: nat
    var voterRewards: map<(nat, AccountId), nat>
    var commitments: map<AccountId, Commitment>
    var members: seq<AccountId>
    var candidates: map<AccountId, nat>
    var candidatesCount: nat
    var lockedAmount: nat
    var issuance: nat

    constructor (supply: nat)
      ensures View() == Genesis(supply).state
    {
      block, eraIndex, eraStart := 0, 0, 0;
      voterRewards, commitments, members, candidates := map[], map[], [], map[];
      candidatesCount, lockedAmount, issuance := 0, 0, supply;
    }

    function View(): State
      reads this
    {
      State(block, eraIndex, eraStart, voterRewards, commitments, members, candidates, candidatesCount,
          lockedAmount, issuance)
    }

    /** Votes are counted commitment by commitment, in whatever order storage yields them. */
    method CountVotes(order: seq<AccountId>) returns (counter: map<AccountId, nat>)
      requires Enumerates(order, commitments.Keys)
      ensures counter == Tally(View())
    {
      hide SumOver, WeightFor, VotingWeight, Tally, Names, TallySoFar;
      counter := map[];
      assert forall j :: 0 <= j < |order| ==> order[j] in Elements(order);
      CountNone(order, View());
      for i := 0 to |order|
        invariant TallySoFar(counter, order, i, View())
      {
        var m := commitments[order[i]];
        CountOne(counter, order, i, View());
        if m.candidate in candidates {
          if m.candidate in counter {
            counter := counter[m.candidate := SatAdd(VotingWeight(m), counter[m.candidate])];
          } else {
            counter := counter[m.candidate := VotingWeight(m)];
          }
        }
      }
      CountAll(counter, order, View());
    }

    /** Deposits the same reward to each winner, once and in order; winners whose deposit fails are passed over. */
    method PayWinners(winners: seq<AccountId>, reward: nat, dead: set<AccountId>) returns (paid: seq<AccountId>)
      requires StrictlySorted(winners)
      modifies this`issuance
      ensures StrictlySorted(paid) && Elements(paid) == if reward > 0 then Elements(winners) - dead else {}
      ensures issuance == old(issuance) + Times(|paid|, reward)
      ensures issuance == old(issuance) + Times(|Elements(winners) - dead|, reward)
    {
      paid := [];
      if reward > 0 {
        for i := 0 to |winners|
          invariant PaidSoFar(paid, winners, dead, i)
          invariant issuance == old(issuance) + Times(|paid|, reward)
        {
          PaidOneMore(paid, winners, dead, i);
          OneMoreTime(|paid|, reward);
          if winners[i] !in dead {
            issuance := issuance + reward;
            paid := paid + [winners[i]];
          }
        }
        AliveIsSize(winners, dead, |winners|);
        assert winners[..|winners|] == winners;
      }
    }

    /** A new block; at the end of an era the council is elected from the commitments and paid. */
    method OnInitialize(order: seq<AccountId>, dead: set<AccountId>, c: Config)
      requires Enumerates(order, commitments.Keys)
      modifies this
      ensures View() == NextBlock(old(View()), dead, c)
    {
      EraTurn(View(), dead, c);
      hide Tally, Winners, Ascending, WinnerReward, NextBlock, CouncilMint, Elements, StrictlySorted, Times;
      var n := block + 1;
      if n >= eraStart + c.eraDuration {
        var counter := CountVotes(order);
        var winners := Elect(counter, c.maxMembers);
        voterRewards := WithoutEra(voterRewards, eraIndex);
        eraIndex, eraStart := Min(eraIndex + 1, U32_MAX), n;
        if winners != [] {
          members := winners;
          var reward := WinnerReward(c, issuance, |winners|);
          var _ := PayWinners(winners, reward, dead);
        }
      }
      block := n;
    }

    /** The best of the tally, in the order the collective expects. */
    static method Elect(counter: map<AccountId, nat>, maxMembers: nat) returns (winners: seq<AccountId>)
      ensures var ws := Winners(counter, maxMembers);
        && winners == Ascending(ws)
        && StrictlySorted(winners) && Elements(winners) == ws && |winners| == |ws|
    {
      var keys := SortedAccounts(counter.Keys);
      AscendingElements(counter.Keys);
      var sorted := SortByWeight(counter, keys);
      var best := sorted[..Min(maxMembers, |sorted|)];
      winners := SortedAccounts(Elements(best));
      AscendingSorted(Elements(best));
      AscendingElements(Elements(best));
    }

    method StartCandidacy(who: AccountId, reserved: bool, c: Config) returns (r: Result<(), Error>)
      modifies this
      ensures Did(old(View()), View(), r, Poc.StartCandidacy(old(View()), who, reserved, c))
    {
      if who in candidates {
        return Err(AlreadyCandidate);
      }
      if candidatesCount >= c.maxCandidates {
        return Err(MaxCandidatesReached);
      }
      if !reserved {
        return Err(CurrencyFailed);
      }
      candidates := candidates[who := c.candidacyDeposit];
      candidatesCount := Min(candidatesCount + 1, U32_MAX);
      r := Ok(());
    }

    method StopCandidacy(who: AccountId) returns (r: Result<(), Error>)
      modifies this
      ensures Did(old(View()), View(), r, Poc.StopCandidacy(old(View()), who))
    {
      if who !in candidates {
        return Err(NotCandidate);
      }
      if SearchFinds(members, who, 0, |members|) {
        return Err(CannotLeave);
      }
      candidates := candidates - {who};
      candidatesCount := SatSub(candidatesCount, 1);
      r := Ok(());
    }

    method Commit(who: AccountId, amount: nat, duration: LockDuration, candidate: AccountId, allowed: bool, c: Config)
      returns (r: Result<(), Error>)
      modifies this
      ensures Did(old(View()), View(), r, Poc.Commit(old(View()), who, amount, duration, candidate, allowed, c))
    {
      if who in commitments {
        return Err(AlreadyCommitted);
      }
      if amount < c.minLockAmount {
        return Err(InsufficientAmount);
      }
      var lockedTotal := SatAdd(lockedAmount, amount);
      if lockedTotal >= c.totalLockedCap {
        return Err(OverSubscribed);
      }
      if !CanWithdraw(View(), amount, allowed) {
        return Err(CurrencyFailed);
      }
      issuance := issuance - amount;
      lockedAmount := lockedTotal;
      commitments := commitments[who := Commitment(Committed, duration, amount, candidate)];
      r := Ok(());
    }

    method AddFunds(who: AccountId, amount: nat, allowed: bool, c: Config) returns (r: Result<(), Error>)
      modifies this
      ensures Did(old(View()), View(), r, Poc.AddFunds(old(View()), who, amount, allowed, c))
    {
      if who !in commitments {
        return Err(CommitmentNotFound);
      }
      var m := commitments[who];
      var lockedTotal := SatAdd(lockedAmount, amount);
      if lockedTotal >= c.totalLockedCap {
        return Err(OverSubscribed);
      }
      if !CanWithdraw(View(), amount, allowed) {
        return Err(CurrencyFailed);
      }
      if m.amount + amount > U128_MAX {
        return Err(CurrencyOverflow);  // the withdrawal is rolled back
      }
      issuance := issuance - amount;
      m := m.(amount := m.amount + amount);
      lockedAmount := lockedTotal;
      m := m.(state := Committed);
      commitments := commitments[who := m];
      r := Ok(());
    }

    method Unbond(who: AccountId) returns (r: Result<(), Error>)
      modifies this
      ensures Did(old(View()), View(), r, Poc.Unbond(old(View()), who))
    {
      if who !in commitments {
        return Err(CommitmentNotFound);
      }
      var m := commitments[who];
      if m.state != Committed {
        return Err(NotCommitted);
      }
      commitments := commitments[who := m.(state := Unbonding(block))];
      r := Ok(());
    }

    method Withdraw(who: AccountId, deposited: bool) returns (r: Result<(), Error>)
      modifies this
      ensures Did(old(View()), View(), r, Poc.Withdraw(old(View()), who, deposited))
    {
      if who !in commitments {
        return Err(CommitmentNotFound);
      }
      var m := commitments[who];
      if m.state == Committed {
        return Err(AlreadyCommitted);
      }
      if m.state.since + LockPeriod(m.duration) <= block {
        if !deposited {
          return Err(CurrencyFailed);
        }
        issuance := issuance + m.amount;
        commitments := commitments - {who};
        lockedAmount := SatSub(lockedAmount, m.amount);
        return Ok(());
      }
      r := Err(CannotWithdrawLocked);
    }

    method VoteCandidate(who: AccountId, candidate: AccountId, deposited: bool, c: Config)
      returns (r: Result<(), Error>)
      modifies this
      ensures Did(old(View()), View(), r, Poc.VoteCandidate(old(View()), who, candidate, deposited, c))
    {
      hide EraVoterReward;
      if who !in commitments {
        return Err(CommitmentNotFound);
      }
      var m := commitments[who];
      if m.state != Committed {
        return Err(NotCommitted);
      }
      var eraReward := EraVoterReward(c, m);
      var pays := eraReward > 0 && (eraIndex, who) !in voterRewards;
      if pays && !deposited {
        return Err(CurrencyFailed);  // the vote is rolled back
      }
      if m.candidate != candidate {
        commitments := commitments[who := m.(candidate := candidate)];
      } else {
        assert commitments[who := m.(candidate := candidate)] == commitments;
      }
      if pays {
        voterRewards := voterRewards[(eraIndex, who) := eraReward];
        issuance := issuance + eraReward;
      }
      r := Ok(());
    }
  }

  lemma OneMoreTime(n: nat, x: nat)
    ensures Times(n + 1, x) == Times(n, x) + x
  {
  }
}
