/** The ledger as the object the staking pallet updates in place. */
module LedgerObject {
  import opened Numbers
  import opened Sums
  import opened Ledger

  lemma LastChunkSum(chunks: seq<Chunk>)
    requires chunks != []
    ensures Sum(Values(chunks)) == Sum(Values(chunks[..|chunks| - 1])) + chunks[|chunks| - 1].value
  {
    SumToSame(Values(chunks), Values(chunks[..|chunks| - 1]), |chunks| - 1);
  }

  // ---------- the queue while a slash is under way ----------

  /** The targets of `p` are some balance and the given chunks, in slash order. */
  ghost predicate TargetsAre(p: Pass, chunks: seq<Chunk>, f: nat)
  {
    && f <= |chunks| && |p.ts| == 1 + |chunks|
    && forall i :: 0 <= i < |chunks| ==> p.ts[TargetOf(f, |chunks|, i)] == chunks[i].value
  }

  /** The chunk indices in the order they are slashed. */
  function Priority(first: nat, n: nat): (r: seq<nat>)
    requires first <= n
    ensures |r| == n && forall k :: 0 <= k < n ==> r[k] == ChunkOf(first, n, 1 + k)
  {
    seq(n - first, k => first + k) + Reverse(seq(first, i => i))
  }

  /** The queue once the first `k` chunks in slash order have been visited. */
  ghost function QueueAfter(p: Pass, chunks: seq<Chunk>, f: nat, k: nat): (q: seq<Chunk>)
    requires TargetsAre(p, chunks, f) && k <= |chunks|
    ensures |q| == |chunks|
    ensures forall i :: 0 <= i < |chunks| ==>
      q[i] == if TargetOf(f, |chunks|, i) <= k then Remains(p, chunks, f)[i] else chunks[i]
  {
    var n := |chunks|;
    seq(n, i requires 0 <= i < n => if TargetOf(f, n, i) <= k then Remains(p, chunks, f)[i] else chunks[i])
  }

  lemma FirstTarget(p: Pass)
    requires p.ts != [] && p.amount > 0
    ensures var t := Take(p.ts[0], p.amount, p.ratio, p.minBalance);
      Left(p)[0] == p.ts[0] - t && Remaining(p, 1) == SatSub(p.amount, t) && Taken(p, 1) == t
  {
    assert Remaining(p, 0) == p.amount && Taken(p, 0) == 0;
  }

  lemma SlashParts(l: LedgerState, amount: nat, minBalance: nat, start: nat)
    requires amount > 0
    ensures var f := FirstSlashable(l.unlocking, start);
      var p := PassOf(l, amount, minBalance, f);
      var o := SlashResult(l, amount, minBalance, start);
      && p == Pass(p.ts, amount, SlashRatio(l, f, amount), minBalance)
      && TargetsAre(p, l.unlocking, f) && p.ts[0] == l.active
      && o.ledger.total == SatSub(l.total, Taken(p, |p.ts|))
      && o.ledger.active == Left(p)[0]
      && o.ledger.unlocking == Filter(Remains(p, l.unlocking, f), NonZero())
      && o.slashed == SatSub(l.total, o.ledger.total)
  {
    hide Take, SlashRatio, Remaining, TakeAt, Taken, Left, Remains, Filter;
  }

  lemma ReportParts(l: LedgerState, amount: nat, minBalance: nat, start: nat)
    requires amount > 0
    ensures var f := FirstSlashable(l.unlocking, start);
      var p := PassOf(l, amount, minBalance, f);
      SlashReport(l, amount, minBalance, start) == Some(ReportTo(p, l.unlocking, f, VisitedFrom(p, 1) - 1))
  {
    hide ReportTo, VisitedFrom;
  }

  lemma StartPass(p: Pass, chunks: seq<Chunk>, f: nat)
    requires TargetsAre(p, chunks, f)
    ensures QueueAfter(p, chunks, f, 0) == chunks && ReportTo(p, chunks, f, 0) == map[]
  {
  }

  /** A visit to the next chunk in slash order. */
  lemma VisitChunk(p: Pass, chunks: seq<Chunk>, f: nat, k: nat)
    requires TargetsAre(p, chunks, f) && k < |chunks|
    ensures var i := ChunkOf(f, |chunks|, 1 + k);
      var q := QueueAfter(p, chunks, f, k);
      && p.ts[1 + k] == q[i].value
      && q[i].era == chunks[i].era
      && QueueAfter(p, chunks, f, k + 1) == q[i := q[i].(value := q[i].value - TakeAt(p, 1 + k))]
  {
    hide TakeAt;
    var i := ChunkOf(f, |chunks|, 1 + k);
    var q := QueueAfter(p, chunks, f, k);
    assert p.ts[TargetOf(f, |chunks|, i)] == chunks[i].value;
    assert QueueAfter(p, chunks, f, k + 1) == q[i := q[i].(value := q[i].value - TakeAt(p, 1 + k))];
  }

  /** What the visit takes, what then remains, and what is reported. */
  lemma VisitTarget(p: Pass, chunks: seq<Chunk>, f: nat, k: nat)
    requires TargetsAre(p, chunks, f) && k < |chunks| && Remaining(p, 1 + k) != 0
    ensures var i := ChunkOf(f, |chunks|, 1 + k);
      var t := Take(p.ts[1 + k], Remaining(p, 1 + k), p.ratio, p.minBalance);
      && TakeAt(p, 1 + k) == t
      && Remaining(p, 2 + k) == SatSub(Remaining(p, 1 + k), t)
      && Taken(p, 2 + k) == Taken(p, 1 + k) + t
      && ReportTo(p, chunks, f, k + 1) == ReportTo(p, chunks, f, k)[chunks[i].era := p.ts[1 + k] - t]
      && VisitedFrom(p, 1 + k) == VisitedFrom(p, 2 + k)
  {
    hide Take;
  }

  /** Stopping once the slash is used up gives the same queue and amount as visiting every chunk. */
  lemma StopEarly(p: Pass, chunks: seq<Chunk>, f: nat, k: nat)
    requires TargetsAre(p, chunks, f) && k <= |chunks|
    requires k == |chunks| || Remaining(p, 1 + k) == 0
    ensures QueueAfter(p, chunks, f, k) == Remains(p, chunks, f)
    ensures Taken(p, 1 + k) == Taken(p, |p.ts|)
    ensures VisitedFrom(p, 1 + k) == 1 + k
  {
    hide TakeAt, Remaining, Taken;
    var n := |chunks|;
    if k < n {
      NothingAfterwards(p, 1 + k, 1 + n);
      forall i | 0 <= i < n && TargetOf(f, n, i) > k ensures Remains(p, chunks, f)[i] == chunks[i] {
        NothingAfterwards(p, 1 + k, TargetOf(f, n, i));
      }
    }
  }

  class StakingLedger {
    var total: nat
    var active: nat
    var unlocking: seq<Chunk>

    constructor (l: LedgerState)
      ensures View() == l
    {
      total, active, unlocking := l.total, l.active, l.unlocking;
    }

    function View(): LedgerState
      reads this
    {
      LedgerState(total, active, unlocking)
    }

    /** Removes unlocked chunks and their value. */
    method ConsolidateUnlocked(currentEra: nat)
      modifies this
      ensures View() == ConsolidateResult(old(View()), currentEra)
    {
      ghost var keep := LockedAfter(currentEra);
      var kept := [];
      var left := total;
      for i := 0 to |unlocking|
        invariant View() == old(View())
        invariant kept == FilterTo(unlocking, keep, i)
        invariant left == SatSub(total, DroppedTo(unlocking, keep, i))
      {
        if unlocking[i].era > currentEra {
          kept := kept + [unlocking[i]];
        } else {
          left := SatSub(left, unlocking[i].value);
        }
      }
      total, unlocking := left, kept;
    }

    /** Takes unlocking funds back into `active`, newest chunk first. */
    method Rebond(value: nat) returns (rebonded: nat)
      modifies this
      ensures rebonded == Min(value, Sum(Values(old(unlocking))))
      ensures View() == RebondResult(old(View()), value)
    {
      rebonded := 0;
      ghost var was := unlocking;
      while unlocking != []
        invariant rebonded < value || value == 0 == rebonded
        invariant rebonded + Min(value - rebonded, Sum(Values(unlocking))) == Min(value, Sum(Values(was)))
        invariant total == old(total) && active == old(active) + rebonded
        invariant RebondQueue(unlocking, value - rebonded) == RebondQueue(was, value)
        decreases |unlocking|
      {
        var n := |unlocking|;
        var last := unlocking[n - 1];
        LastChunkSum(unlocking);
        if rebonded + last.value <= value {
          rebonded := rebonded + last.value;
          active := active + last.value;
          unlocking := unlocking[..n - 1];
        } else {
          var diff := value - rebonded;
          rebonded := rebonded + diff;
          active := active + diff;
          unlocking := unlocking[..n - 1] + [last.(value := last.value - diff)];
        }
        if rebonded >= value {
          return;
        }
      }
    }

    /** Takes one target's part of the slash; the caller stores the new target. */
    method SlashOutOf(target: nat, remaining: nat, ratio: Option<nat>, minimumBalance: nat)
      returns (newTarget: nat, newRemaining: nat)
      modifies this`total
      ensures newTarget == target - Take(target, remaining, ratio, minimumBalance)
      ensures newRemaining == SatSub(remaining, Take(target, remaining, ratio, minimumBalance))
      ensures total == SatSub(old(total), Take(target, remaining, ratio, minimumBalance))
    {
      var fromTarget := Wanted(target, remaining, ratio);
      newTarget := target - fromTarget;
      if newTarget < minimumBalance {
        fromTarget := fromTarget + newTarget;
        newTarget := 0;
      }
      total := SatSub(total, fromTarget);
      newRemaining := SatSub(remaining, fromTarget);
    }

    /** The unlocking balance from chunk `first` on, summed with saturation. */
    method UnbondingAffected(first: nat) returns (sum: nat)
      requires first <= |unlocking|
      ensures sum == Min(Sum(Values(unlocking)[first..]), U128_MAX)
    {
      sum := 0;
      ghost var vs := Values(unlocking)[first..];
      for i := first to |unlocking|
        invariant sum == Min(SumTo(vs, i - first), U128_MAX)
      {
        sum := SatAdd(sum, unlocking[i].value);
      }
    }

    /** The ratio of a proportional slash; `None` when no chunk is affected. */
    method Proportion(first: nat, slashAmount: nat) returns (ratio: Option<nat>)
      requires first <= |unlocking|
      ensures ratio == SlashRatio(View(), first, slashAmount)
    {
      ratio := None;
      if first < |unlocking| {
        var affected := UnbondingAffected(first);
        ratio := Some(RatioUp(slashAmount, SatAdd(active, affected)));
      }
    }

    /** Slashes the ledger and returns the amount taken. */
    method Slash(slashAmount: nat, minimumBalance: nat, slashEra: nat, bondingDuration: nat)
      returns (slashed: nat, report: Option<map<nat, nat>>)
      modifies this
      ensures var o := SlashResult(old(View()), slashAmount, minimumBalance, slashEra + bondingDuration);
        View() == o.ledger && slashed == o.slashed
      ensures report == SlashReport(old(View()), slashAmount, minimumBalance, slashEra + bondingDuration)
    {
      if slashAmount == 0 {
        return 0, None;
      }
      ghost var was := View();
      var preSlashTotal := total;
      var start := slashEra + bondingDuration;
      var first, n := FirstSlashable(unlocking, start), |unlocking|;
      ghost var p := PassOf(was, slashAmount, minimumBalance, first);
      SlashParts(was, slashAmount, minimumBalance, start);
      ReportParts(was, slashAmount, minimumBalance, start);
      hide SlashResult, PassOf, Left, Remains, Take, SlashRatio, Remaining, TakeAt, Taken, Filter,
          FirstSlashable, Priority, TargetsAre,
        SlashReport, ReportTo, VisitedFrom;
      var ratio := Proportion(first, slashAmount);
      var priority := Priority(first, n);

      var remaining;
      active, remaining := SlashOutOf(active, slashAmount, ratio, minimumBalance);
      FirstTarget(p);
      var slashedUnlocking := SlashChunks(priority, remaining, ratio, minimumBalance, p, first, was.total);
      report := Some(slashedUnlocking);
      unlocking := Filter(unlocking, NonZero());
      slashed := SatSub(preSlashTotal, total);
    }

    /** The loop of the slash over the chunks, in priority order. */
    method SlashChunks(priority: seq<nat>, slashRemaining: nat, ratio: Option<nat>, minimumBalance: nat,
                       ghost p: Pass, ghost first: nat, ghost before: nat)
      returns (slashedUnlocking: map<nat, nat>)
      requires ratio == p.ratio && minimumBalance == p.minBalance
      requires TargetsAre(p, unlocking, first) && |priority| == |unlocking|
      requires forall k :: 0 <= k < |priority| ==> priority[k] == ChunkOf(first, |priority|, 1 + k)
      requires slashRemaining == Remaining(p, 1) && total == SatSub(before, Taken(p, 1))
      modifies this`unlocking, this`total
      ensures unlocking == Remains(p, old(unlocking), first)
      ensures total == SatSub(before, Taken(p, |p.ts|))
      ensures slashedUnlocking == ReportTo(p, old(unlocking), first, VisitedFrom(p, 1) - 1)
    {
      hide Take, TakeAt, Remaining, Taken, VisitedFrom, ReportTo, QueueAfter;
      StartPass(p, unlocking, first);
      slashedUnlocking := map[];
      ghost var was := unlocking;
      var remaining := slashRemaining;
      var k := 0;
      while k < |priority| && remaining != 0
        invariant k <= |priority|
        invariant remaining == Remaining(p, 1 + k)
        invariant total == SatSub(before, Taken(p, 1 + k))
        invariant unlocking == QueueAfter(p, was, first, k)
        invariant slashedUnlocking == ReportTo(p, was, first, k) && VisitedFrom(p, 1) == VisitedFrom(p, 1 + k)
      {
        var i := priority[k];
        VisitChunk(p, was, first, k);
        VisitTarget(p, was, first, k);
        var value;
        value, remaining := SlashOutOf(unlocking[i].value, remaining, ratio, minimumBalance);
        unlocking := unlocking[i := unlocking[i].(value := value)];
        slashedUnlocking := slashedUnlocking[unlocking[i].era := value];
        k := k + 1;
      }
      StopEarly(p, was, first, k);
    }

    /** Bonds more of the stash's balance. */
    method BondExtra(stashBalance: nat, maxAdditional: nat, minimumBalance: nat) returns (r: Result<(), LedgerError>)
      modifies this
      ensures match BondExtraResult(old(View()), stashBalance, maxAdditional, minimumBalance)
        case Ok(l) => r.Ok? && View() == l
        case Err(e) => r == Err(e) && View() == old(View())
    {
      if stashBalance >= total {
        var extra := Min(stashBalance - total, maxAdditional);
        if active + extra < minimumBalance {
          return Err(InsufficientBond);
        }
        total := total + extra;
        active := active + extra;
      }
      r := Ok(());
    }

    /** Schedules funds to unlock a bonding duration from now, withdrawing first when the queue is full. */
    method Unbond(value: nat, minimumBalance: nat, minActiveBond: nat,
                  currentEra: nat, bondingDuration: nat, maxChunks: nat) returns (r: Result<(), LedgerError>)
      modifies this
      ensures match UnbondResult(old(View()), value, minimumBalance, minActiveBond,
                                 currentEra, bondingDuration, maxChunks)
        case Ok(l) => r.Ok? && View() == l
        case Err(e) => r == Err(e) && View() == old(View())
    {
      hide ConsolidateResult;
      var was := View();
      if |unlocking| == maxChunks {
        ConsolidateUnlocked(currentEra);
        if unlocking == [] && active < minimumBalance {
          Restore(was);
          return Err(NotController);
        }
      }
      r := ScheduleUnlock(value, minimumBalance, minActiveBond, currentEra + bondingDuration, maxChunks);
      if r.Err? {
        Restore(was);
      }
    }

    /** A failed call is rolled back. */
    method Restore(l: LedgerState)
      modifies this
      ensures View() == l
    {
      total, active, unlocking := l.total, l.active, l.unlocking;
    }

    method ScheduleUnlock(value: nat, minimumBalance: nat, minActiveBond: nat, era: nat, maxChunks: nat)
      returns (r: Result<(), LedgerError>)
      modifies this
      ensures match MoveToQueue(old(View()), value, minimumBalance, minActiveBond, era, maxChunks)
        case Ok(l) => r.Ok? && View() == l
        case Err(e) => r == Err(e) && View() == old(View())
    {
      var moved := Min(value, active);
      if |unlocking| >= maxChunks {
        return Err(NoMoreChunks);
      }
      if moved != 0 {
        var left := active - moved;
        if left < minimumBalance {
          moved := moved + left;
          left := 0;
        }
        if left < minActiveBond {
          return Err(InsufficientBond);
        }
        active := left;
        unlocking := PushChunk(unlocking, moved, era);
      }
      r := Ok(());
    }
  }
}
