/** Exactly how much each part of a ledger gives or gets. */
module LedgerExact {
  import opened Numbers
  import opened Sums
  import opened Ledger

  // ---------- whole shares of a proportional slash ----------

  /** The target's part of the amount is a whole number and leaves no dust. */
  ghost predicate WholeShare(target: nat, amount: nat, affected: nat, minBalance: nat)
    requires affected > 0
  {
    amount * target % affected == 0 && target - amount * target / affected >= minBalance
  }

  /** The ratio has no more than eighteen digits. */
  ghost predicate WholeRatio(amount: nat, affected: nat)
  {
    0 < affected && amount <= affected && amount * QUINTILL % affected == 0
  }

  lemma WholeRatioExact(amount: nat, affected: nat)
    requires WholeRatio(amount, affected)
    ensures RatioUp(amount, affected) * affected == amount * QUINTILL
  {
    var parts := RatioUp(amount, affected);
    hide RatioUp;
    var n := amount * QUINTILL;
    assert n == n / affected * affected;
    WholeIsExact(parts, affected, n, n / affected);
  }

  /** The rounded-up share of a whole ratio and a whole share is that share. */
  lemma WholeShareExact(target: nat, amount: nat, affected: nat, minBalance: nat)
    requires WholeRatio(amount, affected) && WholeShare(target, amount, affected, minBalance)
    ensures var ratio := Some(RatioUp(amount, affected));
      && ShareOf(target, ratio) * affected == amount * target
      && FullTake(target, ratio, minBalance) == ShareOf(target, ratio)
      && target - ShareOf(target, ratio) >= minBalance
  {
    WholeRatioExact(amount, affected);
    var parts, share := RatioUp(amount, affected), amount * target / affected;
    assert share * affected == amount * target;
    hide RatioUp, WholeShare, WholeRatio;
    ScaledBack(parts, target, share, amount, affected);
    WholeIsExact(MulCeil(parts, target), QUINTILL, parts * target, share);
    hide MulCeil;
  }

  lemma ScaledBack(parts: nat, target: nat, share: nat, amount: nat, affected: nat)
    requires parts * affected == amount * QUINTILL && share * affected == amount * target && affected > 0
    ensures parts * target == share * QUINTILL
  {
    calc {
      parts * target * affected;
      (parts * affected) * target;
      (amount * QUINTILL) * target;
      (amount * target) * QUINTILL;
      (share * affected) * QUINTILL;
      share * QUINTILL * affected;
    }
    MulOrder(parts * target, share * QUINTILL, affected);
    MulOrder(share * QUINTILL, parts * target, affected);
  }

  ghost predicate WholeShares(p: Pass, affected: nat, m: nat)
    requires m <= |p.ts| && affected > 0
  {
    forall k :: 0 <= k < m ==> WholeShare(p.ts[k], p.amount, affected, p.minBalance)
  }

  lemma {:induction false} FullSharesAddUp(p: Pass, affected: nat, m: nat, k: nat)
    requires k <= m <= |p.ts| && WholeRatio(p.amount, affected) && WholeShares(p, affected, m)
    requires p.ratio == Some(RatioUp(p.amount, affected))
    ensures FullTo(p, k) * affected == p.amount * SumTo(p.ts, k)
  {
    hide RatioUp, FullTake, ShareOf, WholeShare;
    if k == 0 {
    } else {
      FullSharesAddUp(p, affected, m, k - 1);
      var t := p.ts[k - 1];
      WholeShareExact(t, p.amount, affected, p.minBalance);
      Distribute(affected, FullTo(p, k - 1), FullTake(t, p.ratio, p.minBalance));
      Distribute(p.amount, SumTo(p.ts, k - 1), t);
    }
  }

  /** A pass over whole shares takes exactly those from the affected targets. */
  lemma PassTakesShares(p: Pass, affected: nat, m: nat, k: nat)
    requires k < m <= |p.ts| && WholeRatio(p.amount, affected) && WholeShares(p, affected, m)
    requires p.ratio == Some(RatioUp(p.amount, affected)) && SumTo(p.ts, k + 1) <= affected
    ensures TakeAt(p, k) * affected == p.amount * p.ts[k]
  {
    hide RatioUp, ShareOf, TakeAt, WholeShare, SumTo, FullTo, Take;
    var share := ShareOf(p.ts[k], p.ratio);
    FullSharesAddUp(p, affected, m, k + 1);
    WholeShareExact(p.ts[k], p.amount, affected, p.minBalance);
    FullToNext(p, k);
    MulOrderAny(SumTo(p.ts, k + 1), affected, p.amount);
    MulOrder(FullTo(p, k + 1), p.amount, affected);
    ShortExactly(p, k);
    NoMoreThanShare(p, k);
  }

  lemma FullToNext(p: Pass, k: nat)
    requires k < |p.ts|
    ensures FullTo(p, k + 1) == FullTo(p, k) + FullTake(p.ts[k], p.ratio, p.minBalance)
  {
  }

  /** Without dust a target gives at most its share. */
  lemma NoMoreThanShare(p: Pass, k: nat)
    requires k < |p.ts| && p.ts[k] - ShareOf(p.ts[k], p.ratio) >= p.minBalance
    ensures TakeAt(p, k) <= ShareOf(p.ts[k], p.ratio)
  {
    hide ShareOf, Take, Remaining;
    TakeByShare(p.ts[k], Remaining(p, k), p.ratio, p.minBalance);
  }

  /** Every target of the slash window has a whole share. */
  ghost predicate AllWhole(l: LedgerState, amount: nat, minBalance: nat, f: nat)
    requires f <= |l.unlocking|
  {
    var affected := l.active + Sum(Values(l.unlocking)[f..]);
    && WholeRatio(amount, affected)
    && WholeShare(l.active, amount, affected, minBalance)
    && forall j :: f <= j < |l.unlocking| ==> WholeShare(l.unlocking[j].value, amount, affected, minBalance)
  }

  lemma AllWholePass(l: LedgerState, amount: nat, minBalance: nat, f: nat)
    requires Balanced(l) && f < |l.unlocking| && AllWhole(l, amount, minBalance, f)
    ensures var affected := l.active + Sum(Values(l.unlocking)[f..]);
      var p := PassOf(l, amount, minBalance, f);
      && p.ratio == Some(RatioUp(amount, affected))
      && WholeShares(p, affected, 1 + |l.unlocking| - f)
  {
    hide WholeShare, RatioUp;
    var affected, n := l.active + Sum(Values(l.unlocking)[f..]), |l.unlocking|;
    var p := PassOf(l, amount, minBalance, f);
    SumSplit(Values(l.unlocking), f);
    forall k | 0 <= k < 1 + n - f ensures WholeShare(p.ts[k], amount, affected, minBalance) {
      if k > 0 {
        assert p.ts[k] == l.unlocking[f + k - 1].value;
      }
    }
  }

  /** A proportional slash whose shares are whole takes exactly the same part of every target in the window. */
  lemma ExactShares(l: LedgerState, amount: nat, minBalance: nat, start: nat, i: nat)
    requires Balanced(l) && FirstSlashable(l.unlocking, start) <= i < |l.unlocking|
    requires AllWhole(l, amount, minBalance, FirstSlashable(l.unlocking, start))
    ensures var affected := l.active + Sum(Values(l.unlocking)[FirstSlashable(l.unlocking, start)..]);
      var o := SlashResult(l, amount, minBalance, start);
      && (l.active - o.ledger.active) * affected == amount * l.active
      && (l.unlocking[i].value - o.remains[i].value) * affected == amount * l.unlocking[i].value
  {
    hide SlashResult, TakeAt, RatioUp, AllWhole, WholeShares, WholeRatio, SumTo, Balanced, AffectedBalance, SlashRatio;
    var f, n := FirstSlashable(l.unlocking, start), |l.unlocking|;
    var p, affected := PassOf(l, amount, minBalance, f), l.active + Sum(Values(l.unlocking)[f..]);
    AllWholePass(l, amount, minBalance, f);
    WholeOf(l, amount, minBalance, f);
    AffectedSum(l, f, 1);
    AffectedSum(l, f, 2 + i - f);
    PassTakesShares(p, affected, 1 + n - f, 0);
    PassTakesShares(p, affected, 1 + n - f, 1 + i - f);
    LostIsTaken(l, amount, minBalance, start, i);
    ActiveLost(l, amount, minBalance, start);
  }

  lemma WholeOf(l: LedgerState, amount: nat, minBalance: nat, f: nat)
    requires Balanced(l) && f <= |l.unlocking| && AllWhole(l, amount, minBalance, f)
    ensures var affected := l.active + Sum(Values(l.unlocking)[f..]);
      WholeRatio(amount, affected) && affected > 0 && AffectedBalance(l, f) == affected
  {
    SumSplit(Values(l.unlocking), f);
  }

  lemma ActiveLost(l: LedgerState, amount: nat, minBalance: nat, start: nat)
    ensures var p := PassOf(l, amount, minBalance, FirstSlashable(l.unlocking, start));
      p.ts[0] == l.active && SlashResult(l, amount, minBalance, start).ledger.active == l.active - TakeAt(p, 0)
  {
    hide Remains, Filter, Taken, Take;
  }

  // ---------- the order of the slash ----------

  /** A target that gives less than its share uses the slash up. */
  lemma ShortStops(p: Pass, j: nat, k: nat)
    requires j < k < |p.ts| && TakeAt(p, j) < ShareOf(p.ts[j], p.ratio)
    ensures TakeAt(p, k) == 0
  {
    ShortExactly(p, j);
    RemainingAfterFull(p, j);
    assert Remaining(p, j + 1) == SatSub(Remaining(p, j), TakeAt(p, j));
    hide TakeAt, ShareOf, Remaining;
    NothingAfterwards(p, j + 1, k);
  }

  /** Oldest first among the affected chunks: behind one that gives less than its share nothing is taken. */
  lemma AffectedInOrder(l: LedgerState, amount: nat, minBalance: nat, start: nat, i: nat, j: nat)
    requires FirstSlashable(l.unlocking, start) <= i < j < |l.unlocking|
    requires var f := FirstSlashable(l.unlocking, start);
      var lost := l.unlocking[i].value - SlashResult(l, amount, minBalance, start).remains[i].value;
      lost < ShareOf(l.unlocking[i].value, SlashRatio(l, f, amount))
    ensures SlashResult(l, amount, minBalance, start).remains[j].value == l.unlocking[j].value
  {
    hide SlashResult, TakeAt, ShareOf, SlashRatio;
    var f := FirstSlashable(l.unlocking, start);
    LostIsTaken(l, amount, minBalance, start, i);
    LostIsTaken(l, amount, minBalance, start, j);
    ShortStops(PassOf(l, amount, minBalance, f), 1 + i - f, 1 + j - f);
  }

  // ---------- the queue by era ----------

  /** A choice of eras. */
  type Eras = nat -> bool

  function At(era: nat): Eras { (e: nat) => e == era }

  function From(start: nat): Eras { (e: nat) => e >= start }

  function By(era: nat): Eras { (e: nat) => e <= era }

  /** What the first `k` chunks hold that unlock at the chosen eras. */
  function ValueTo(chunks: seq<Chunk>, eras: Eras, k: nat): nat
    requires k <= |chunks|
  {
    if k == 0 then 0
    else ValueTo(chunks, eras, k - 1) + if eras(chunks[k - 1].era) then chunks[k - 1].value else 0
  }

  function ValueIn(chunks: seq<Chunk>, eras: Eras): nat { ValueTo(chunks, eras, |chunks|) }

  /** Everything unlocking at an era. */
  function QueuedAt(chunks: seq<Chunk>, era: nat): nat { ValueIn(chunks, At(era)) }

  /** Everything unlocking at `start` or later. */
  function QueuedFrom(chunks: seq<Chunk>, start: nat): nat { ValueIn(chunks, From(start)) }

  lemma {:induction false} ValueToSame(a: seq<Chunk>, b: seq<Chunk>, eras: Eras, k: nat)
    requires k <= |a| && k <= |b| && forall i :: 0 <= i < k ==> a[i] == b[i]
    ensures ValueTo(a, eras, k) == ValueTo(b, eras, k)
  {
    if k == 0 {
    } else {
      ValueToSame(a, b, eras, k - 1);
    }
  }

  lemma OneMoreValue(chunks: seq<Chunk>, c: Chunk, eras: Eras)
    ensures ValueIn(chunks + [c], eras) == ValueIn(chunks, eras) + if eras(c.era) then c.value else 0
  {
    ValueToSame(chunks + [c], chunks, eras, |chunks|);
  }

  /** Dropping empty chunks loses nothing. */
  lemma {:induction false} NonZeroValue(chunks: seq<Chunk>, k: nat, eras: Eras)
    requires k <= |chunks|
    ensures ValueIn(FilterTo(chunks, NonZero(), k), eras) == ValueTo(chunks, eras, k)
  {
    if k == 0 {
    } else {
      hide ValueIn, FilterTo;
      NonZeroValue(chunks, k - 1, eras);
      FilterStep(chunks, NonZero(), k - 1);
      OneMoreValue(FilterTo(chunks, NonZero(), k - 1), chunks[k - 1], eras);
    }
  }

  /** Chunk by chunk no more holds no more. */
  lemma {:induction false} NoMoreValue(r: seq<Chunk>, chunks: seq<Chunk>, eras: Eras, k: nat)
    requires NoMore(r, chunks) && k <= |chunks|
    ensures ValueTo(r, eras, Min(k, |r|)) <= ValueTo(chunks, eras, k)
  {
    if k == 0 {
    } else {
      NoMoreValue(r, chunks, eras, k - 1);
    }
  }

  lemma PushValue(chunks: seq<Chunk>, value: nat, at: nat, eras: Eras)
    requires Sum(Values(chunks)) + value <= U128_MAX
    ensures ValueIn(PushChunk(chunks, value, at), eras) == ValueIn(chunks, eras) + if eras(at) then value else 0
  {
    var n := |chunks|;
    var r := PushChunk(chunks, value, at);
    if n > 0 && chunks[n - 1].era == at {
      LastWithin(chunks);
      ValueToSame(r, chunks, eras, n - 1);
    } else {
      OneMoreValue(chunks, Chunk(value, at), eras);
    }
  }

  /** In a queue with one chunk an era, an era holds what its chunk holds. */
  lemma {:induction false} QueuedUnique(chunks: seq<Chunk>, i: nat, k: nat)
    requires ErasIncrease(chunks) && i < |chunks| && k <= |chunks|
    ensures ValueTo(chunks, At(chunks[i].era), k) == if i < k then chunks[i].value else 0
  {
    if k == 0 {
    } else {
      QueuedUnique(chunks, i, k - 1);
      assert k - 1 != i ==> chunks[k - 1].era != chunks[i].era;
    }
  }

  lemma {:induction false} QueuedNowhere(chunks: seq<Chunk>, era: nat, k: nat)
    requires k <= |chunks| && forall i :: 0 <= i < |chunks| ==> chunks[i].era != era
    ensures ValueTo(chunks, At(era), k) == 0
  {
    if k == 0 {
    } else {
      QueuedNowhere(chunks, era, k - 1);
    }
  }

  lemma InWindow(chunks: seq<Chunk>, start: nat, i: nat)
    requires ErasIncrease(chunks) && i < |chunks|
    ensures chunks[i].era < start <==> i < FirstSlashable(chunks, start)
  {
    hide FirstSlashable;
  }

  lemma {:induction false} ValueFromSum(chunks: seq<Chunk>, start: nat, k: nat)
    requires ErasIncrease(chunks) && k <= |chunks|
    ensures var f := FirstSlashable(chunks, start);
      ValueTo(chunks, From(start), k) + SumTo(Values(chunks), Min(f, k)) == SumTo(Values(chunks), k)
  {
    hide FirstSlashable, ErasIncrease;
    if k == 0 {
    } else {
      ValueFromSum(chunks, start, k - 1);
      InWindow(chunks, start, k - 1);
    }
  }

  /** What unlocks from `start` on is what the chunks from the first such one hold. */
  lemma QueuedFromSum(chunks: seq<Chunk>, start: nat)
    requires ErasIncrease(chunks)
    ensures QueuedFrom(chunks, start) == Sum(Values(chunks)[FirstSlashable(chunks, start)..])
  {
    hide FirstSlashable, ErasIncrease;
    ValueFromSum(chunks, start, |chunks|);
    SumSplit(Values(chunks), FirstSlashable(chunks, start));
  }

  // ---------- bonding and unbonding ----------

  lemma LastWithin(chunks: seq<Chunk>)
    requires chunks != []
    ensures chunks[|chunks| - 1].value <= Sum(Values(chunks))
  {
    assert Sum(Values(chunks)) == SumTo(Values(chunks), |chunks| - 1) + Values(chunks)[|chunks| - 1];
  }

  /**
   * Unbonding moves what is asked for, or everything active when that is asked for or dust would stay behind, to
   * the chunk of the era; it is refused exactly when the queue is full or too little would stay active.
   */
  lemma UnbondMoves(l: LedgerState, value: nat, minBalance: nat, minActive: nat, era: nat, maxChunks: nat, e: nat)
    requires Balanced(l)
    ensures var r := MoveToQueue(l, value, minBalance, minActive, era, maxChunks);
      var all := l.active < value + Max(1, minBalance);
      var stays := if all then 0 else l.active - value;
      && (r == Err(NoMoreChunks) <==> |l.unlocking| >= maxChunks)
      && (r == Err(InsufficientBond) <==> |l.unlocking| < maxChunks && 0 < value && 0 < l.active && stays < minActive)
      && (r.Err? ==> r.error == NoMoreChunks || r.error == InsufficientBond)
      && (r.Ok? && 0 < value ==>
            && r.value.active == stays && r.value.total == l.total
            && QueuedAt(r.value.unlocking, e) == QueuedAt(l.unlocking, e) + if e == era then l.active - stays else 0)
      && (r.Ok? && value == 0 ==> r.value == l)
  {
    hide SumTo, ValueIn;
    var r := MoveToQueue(l, value, minBalance, minActive, era, maxChunks);
    if r.Ok? && r.value != l {
      PushValue(l.unlocking, l.active - r.value.active, era, At(e));
    }
  }

  /** What the first `k` chunks hold at an era after the unlocked ones are dropped. */
  lemma {:induction false} LockedValue(chunks: seq<Chunk>, now: nat, k: nat, e: nat)
    requires k <= |chunks|
    ensures ValueIn(FilterTo(chunks, LockedAfter(now), k), At(e)) == if e <= now then 0 else ValueTo(chunks, At(e), k)
  {
    if k == 0 {
    } else {
      hide ValueIn, FilterTo;
      LockedValue(chunks, now, k - 1, e);
      FilterStep(chunks, LockedAfter(now), k - 1);
      OneMoreValue(FilterTo(chunks, LockedAfter(now), k - 1), chunks[k - 1], At(e));
    }
  }

  /**
   * The whole of `unbond`: only a full queue is first rid of what has unlocked, era by era; then funds move as
   * above. When nothing worth keeping is left of a full queue the call is refused.
   */
  lemma UnbondExactly(l: LedgerState, value: nat, minBalance: nat, minActive: nat, now: nat, duration: nat,
      maxChunks: nat, e: nat)
    requires Balanced(l) && value > 0
    ensures var r := UnbondResult(l, value, minBalance, minActive, now, duration, maxChunks);
      var full := |l.unlocking| == maxChunks;
      var stays := if l.active < value + Max(1, minBalance) then 0 else l.active - value;
      var kept := if full && e <= now then 0 else QueuedAt(l.unlocking, e);
      && (r.Ok? ==>
            && r.value.active == stays && Balanced(r.value)
            && (!full ==> r.value.total == l.total)
            && QueuedAt(r.value.unlocking, e) == kept + if e == now + duration then l.active - stays else 0)
      && (!full && |l.unlocking| < maxChunks ==> (r.Ok? <==> l.active == 0 || stays >= minActive))
  {
    hide MoveToQueue, ValueTo, Max;
    var full := |l.unlocking| == maxChunks;
    var l1 := if full then ConsolidateResult(l, now) else l;
    ConsolidateExact(l, now);
    LockedValue(l.unlocking, now, |l.unlocking|, e);
    hide ConsolidateResult, ValueIn, Balanced;
    UnbondMoves(l1, value, minBalance, minActive, now + duration, maxChunks, e);
    MoveBalances(l1, value, minBalance, minActive, now + duration, maxChunks);
  }

  lemma MoveBalances(l: LedgerState, value: nat, minBalance: nat, minActive: nat, era: nat, maxChunks: nat)
    requires Balanced(l)
    ensures var r := MoveToQueue(l, value, minBalance, minActive, era, maxChunks);
      r.Ok? ==> Balanced(r.value)
  {
    hide SumTo;
    var r := MoveToQueue(l, value, minBalance, minActive, era, maxChunks);
    if r.Ok? && r.value != l {
      PushChunkSum(l.unlocking, l.active - r.value.active, era);
    }
  }

  /** Bonding more adds what the stash holds beyond its ledger, up to the limit, to the active balance. */
  lemma BondExtraAdds(l: LedgerState, balance: nat, limit: nat, minBalance: nat)
    ensures var r := BondExtraResult(l, balance, limit, minBalance);
      && (r.Ok? ==>
            && r.value.unlocking == l.unlocking
            && r.value.total - l.total == r.value.active - l.active
            && l.total <= r.value.total <= Max(l.total, balance)
            && r.value.total <= l.total + limit
            && (r.value.total < balance ==> r.value.total == l.total + limit))
      && (r.Err? <==> l.total <= balance && l.active + Min(balance - l.total, limit) < minBalance)
  {
  }

  // ---------- a slash era by era ----------

  /** The slash or all there is is taken, and less than the minimum balance beyond it; active keeps no dust. */
  ghost predicate TakesAmount(l: LedgerState, r: LedgerState, value: nat, minBalance: nat)
  {
    && r.total <= l.total && Min(value, l.total) <= l.total - r.total < value + Max(1, minBalance)
    && (value > 0 ==> r.active == 0 || r.active >= minBalance)
  }

  /** What unlocks before `start` is left alone. */
  ghost predicate SparesOlder(l: LedgerState, r: LedgerState, start: nat)
  {
    forall e: nat :: e < start ==> QueuedAt(r.unlocking, e) == QueuedAt(l.unlocking, e)
  }

  ghost predicate NothingAfter(r: LedgerState, era: nat)
  {
    r.active == 0 && forall later: nat :: era < later ==> QueuedAt(r.unlocking, later) == 0
  }

  /** What unlocks before `start` is touched only once the active balance and all that unlocks later are gone. */
  ghost predicate OlderGoLast(l: LedgerState, r: LedgerState, start: nat)
  {
    forall e: nat :: e < start && QueuedAt(r.unlocking, e) < QueuedAt(l.unlocking, e) ==> NothingAfter(r, e)
  }

  /** What is active and what unlocks from `start` on gives at most its share, or all when dust would stay. */
  ghost predicate GivesShares(l: LedgerState, r: LedgerState, parts: nat, start: nat, minBalance: nat)
  {
    && WithinShare(l.active, r.active, parts, minBalance)
    && forall e: nat :: e >= start ==>
         WithinShare(QueuedAt(l.unlocking, e), QueuedAt(r.unlocking, e), parts, minBalance)
  }

  /** How much a slash of `value` takes, and from which eras, when `start` is the first that it affects. */
  ghost predicate SlashedByEra(l: LedgerState, r: LedgerState, value: nat, start: nat, minBalance: nat)
  {
    var cover := l.active + QueuedFrom(l.unlocking, start);
    && TakesAmount(l, r, value, minBalance)
    && (value <= cover ==> SparesOlder(l, r, start))
    && OlderGoLast(l, r, start)
    && (QueuedFrom(l.unlocking, start) > 0 ==> GivesShares(l, r, RatioUp(value, cover), start, minBalance))
  }

  /** What an era holds after a slash is what the pass has left of its chunk. */
  lemma QueuedAfterSlash(l: LedgerState, value: nat, minBalance: nat, start: nat, era: nat)
    requires ErasIncrease(l.unlocking)
    ensures var o := SlashResult(l, value, minBalance, start);
      QueuedAt(o.ledger.unlocking, era) == QueuedAt(o.remains, era) && ErasIncrease(o.remains)
  {
    var o := SlashResult(l, value, minBalance, start);
    SlashReduces(l, value, minBalance, start);
    SameEras(l, value, minBalance, start);
    hide SlashResult;
    if value > 0 {
      NonZeroValue(o.remains, |o.remains|, At(era));
    }
  }

  /** An era is that of a chunk, and then of no other, or holds nothing. */
  lemma EraOfChunk(l: LedgerState, value: nat, minBalance: nat, start: nat, era: nat) returns (i: nat)
    requires ErasIncrease(l.unlocking)
    ensures var o := SlashResult(l, value, minBalance, start);
      if i < |l.unlocking| then
        && l.unlocking[i].era == era && (era < start <==> i < FirstSlashable(l.unlocking, start))
        && QueuedAt(l.unlocking, era) == l.unlocking[i].value
        && QueuedAt(o.ledger.unlocking, era) == o.remains[i].value
      else QueuedAt(l.unlocking, era) == 0 == QueuedAt(o.ledger.unlocking, era)
  {
    hide SlashResult, ValueTo, FirstSlashable, ErasIncrease;
    var o, n := SlashResult(l, value, minBalance, start), |l.unlocking|;
    QueuedAfterSlash(l, value, minBalance, start, era);
    SameEras(l, value, minBalance, start);
    if j :| 0 <= j < n && l.unlocking[j].era == era {
      i := j;
      InWindow(l.unlocking, start, i);
      QueuedUnique(l.unlocking, i, n);
      QueuedUnique(o.remains, i, n);
    } else {
      i := n;
      QueuedNowhere(l.unlocking, era, n);
      QueuedNowhere(o.remains, era, n);
    }
  }

  lemma SameEras(l: LedgerState, value: nat, minBalance: nat, start: nat)
    ensures var o := SlashResult(l, value, minBalance, start);
      forall i :: 0 <= i < |l.unlocking| ==> o.remains[i].era == l.unlocking[i].era
  {
  }

  lemma OlderSpared(l: LedgerState, value: nat, minBalance: nat, start: nat, era: nat)
    requires Balanced(l) && ErasIncrease(l.unlocking) && era < start
    requires value <= l.active + QueuedFrom(l.unlocking, start)
    ensures QueuedAt(SlashResult(l, value, minBalance, start).ledger.unlocking, era) == QueuedAt(l.unlocking, era)
  {
    var i := EraOfChunk(l, value, minBalance, start, era);
    hide SlashResult, QueuedAt, Balanced;
    QueuedFromSum(l.unlocking, start);
    if i < |l.unlocking| {
      var f := FirstSlashable(l.unlocking, start);
      assert f == |l.unlocking| ==> Values(l.unlocking)[f..] == [];
      OlderChunksUntouched(l, value, minBalance, start, i);
    }
  }

  lemma OlderLast(l: LedgerState, value: nat, minBalance: nat, start: nat, era: nat, later: nat)
    requires Balanced(l) && ErasIncrease(l.unlocking) && era < start && era < later
    requires QueuedAt(SlashResult(l, value, minBalance, start).ledger.unlocking, era) < QueuedAt(l.unlocking, era)
    ensures var r := SlashResult(l, value, minBalance, start).ledger;
      r.active == 0 && QueuedAt(r.unlocking, later) == 0
  {
    var i := EraOfChunk(l, value, minBalance, start, era);
    var j := EraOfChunk(l, value, minBalance, start, later);
    hide SlashResult, QueuedAt, Balanced, FirstSlashable;
    OlderEmptiesActive(l, value, minBalance, start, i);
    if j < |l.unlocking| {
      assert i < j;
      OlderChunksLast(l, value, minBalance, start, i, j);
    }
  }

  lemma OlderEmptiesActive(l: LedgerState, value: nat, minBalance: nat, start: nat, i: nat)
    requires Balanced(l) && i < FirstSlashable(l.unlocking, start)
    requires SlashResult(l, value, minBalance, start).remains[i].value < l.unlocking[i].value
    ensures SlashResult(l, value, minBalance, start).ledger.active == 0
  {
    OlderTouchedTakesAll(l, value, minBalance, start, i);
    LostIsTaken(l, value, minBalance, start, i);
    ActiveLost(l, value, minBalance, start);
    hide SlashResult, SlashRatio, TakeAt;
    var f := FirstSlashable(l.unlocking, start);
    EarlierTargetsEmptied(PassOf(l, value, minBalance, f), 0, TargetOf(f, |l.unlocking|, i));
  }

  lemma SharesByEra(l: LedgerState, value: nat, minBalance: nat, start: nat, era: nat)
    requires Balanced(l) && ErasIncrease(l.unlocking) && era >= start && QueuedFrom(l.unlocking, start) > 0
    ensures var r := SlashResult(l, value, minBalance, start).ledger;
      var parts := RatioUp(value, l.active + QueuedFrom(l.unlocking, start));
      && WithinShare(l.active, r.active, parts, minBalance)
      && WithinShare(QueuedAt(l.unlocking, era), QueuedAt(r.unlocking, era), parts, minBalance)
  {
    hide SlashResult, QueuedAt, QueuedFrom, RatioUp, MulCeil, FirstSlashable, Balanced, ErasIncrease, SumTo;
    var i := EraOfChunk(l, value, minBalance, start, era);
    var f := FirstSlashable(l.unlocking, start);
    WindowRatio(l, value, start);
    ProportionalShare(l, value, minBalance, start, if i < |l.unlocking| then i else f);
  }

  lemma WindowRatio(l: LedgerState, value: nat, start: nat)
    requires Balanced(l) && ErasIncrease(l.unlocking) && QueuedFrom(l.unlocking, start) > 0
    ensures var f := FirstSlashable(l.unlocking, start);
      && f < |l.unlocking|
      && SlashRatio(l, f, value) == Some(RatioUp(value, l.active + QueuedFrom(l.unlocking, start)))
  {
    hide RatioUp, FirstSlashable;
    QueuedFromSum(l.unlocking, start);
    var f := FirstSlashable(l.unlocking, start);
    SumSplit(Values(l.unlocking), f);
  }

  lemma NoDustStays(l: LedgerState, value: nat, minBalance: nat, start: nat)
    requires value > 0
    ensures var r := SlashResult(l, value, minBalance, start).ledger; r.active == 0 || r.active >= minBalance
  {
    ActiveLost(l, value, minBalance, start);
    hide SlashResult;
    var p := PassOf(l, value, minBalance, FirstSlashable(l.unlocking, start));
    assert Remaining(p, 0) == value;
  }

  lemma SlashTakesAmount(l: LedgerState, value: nat, minBalance: nat, start: nat)
    requires Balanced(l)
    ensures TakesAmount(l, SlashResult(l, value, minBalance, start).ledger, value, minBalance)
  {
    hide SlashResult, Balanced;
    SlashBound(l, value, minBalance, start);
    if value > 0 {
      NoDustStays(l, value, minBalance, start);
    }
  }

  lemma SlashSparesOlder(l: LedgerState, value: nat, minBalance: nat, start: nat)
    requires Balanced(l) && ErasIncrease(l.unlocking) && value <= l.active + QueuedFrom(l.unlocking, start)
    ensures SparesOlder(l, SlashResult(l, value, minBalance, start).ledger, start)
  {
    hide SlashResult, QueuedAt, QueuedFrom, Balanced, ErasIncrease;
    var r := SlashResult(l, value, minBalance, start).ledger;
    forall e: nat | e < start ensures QueuedAt(r.unlocking, e) == QueuedAt(l.unlocking, e) {
      OlderSpared(l, value, minBalance, start, e);
    }
  }

  lemma SlashOlderLast(l: LedgerState, value: nat, minBalance: nat, start: nat)
    requires Balanced(l) && ErasIncrease(l.unlocking)
    ensures OlderGoLast(l, SlashResult(l, value, minBalance, start).ledger, start)
  {
    hide SlashResult, QueuedAt, Balanced, ErasIncrease;
    var r := SlashResult(l, value, minBalance, start).ledger;
    forall e: nat | e < start && QueuedAt(r.unlocking, e) < QueuedAt(l.unlocking, e) ensures NothingAfter(r, e) {
      OlderLast(l, value, minBalance, start, e, e + 1);
      forall later: nat | e < later ensures QueuedAt(r.unlocking, later) == 0 {
        OlderLast(l, value, minBalance, start, e, later);
      }
    }
  }

  lemma SlashGivesShares(l: LedgerState, value: nat, minBalance: nat, start: nat)
    requires Balanced(l) && ErasIncrease(l.unlocking) && QueuedFrom(l.unlocking, start) > 0
    ensures GivesShares(l, SlashResult(l, value, minBalance, start).ledger,
                        RatioUp(value, l.active + QueuedFrom(l.unlocking, start)), start, minBalance)
  {
    hide SlashResult, QueuedAt, QueuedFrom, RatioUp, WithinShare, Balanced, ErasIncrease;
    var r := SlashResult(l, value, minBalance, start).ledger;
    var parts := RatioUp(value, l.active + QueuedFrom(l.unlocking, start));
    SharesByEra(l, value, minBalance, start, start);
    forall e: nat | e >= start
      ensures WithinShare(QueuedAt(l.unlocking, e), QueuedAt(r.unlocking, e), parts, minBalance)
    {
      SharesByEra(l, value, minBalance, start, e);
    }
  }

  /** Every slash is taken era by era as the window and the order demand. */
  lemma SlashIsByEra(l: LedgerState, value: nat, minBalance: nat, start: nat)
    requires Balanced(l) && ErasIncrease(l.unlocking)
    ensures SlashedByEra(l, SlashResult(l, value, minBalance, start).ledger, value, start, minBalance)
  {
    hide SlashResult, QueuedFrom, RatioUp, Balanced, ErasIncrease, TakesAmount, SparesOlder, OlderGoLast, GivesShares;
    SlashTakesAmount(l, value, minBalance, start);
    SlashOlderLast(l, value, minBalance, start);
    if value <= l.active + QueuedFrom(l.unlocking, start) {
      SlashSparesOlder(l, value, minBalance, start);
    }
    if QueuedFrom(l.unlocking, start) > 0 {
      SlashGivesShares(l, value, minBalance, start);
    }
  }
}
