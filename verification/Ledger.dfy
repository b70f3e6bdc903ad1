/**
 * The ledger of one bonded stash: `active` funds, a FIFO of unlocking chunks,
 * and their `total`. Slashing is described as one pass over the list of slash
 * targets in priority order; everything claimed about a slash is proved about
 * that pass.
 */
module Ledger {
  import opened Numbers
  import opened Sums

  datatype Chunk = Chunk(value: nat, era: nat)

  datatype LedgerState = LedgerState(total: nat, active: nat, unlocking: seq<Chunk>)

  function Values(chunks: seq<Chunk>): (vs: seq<nat>)
    ensures |vs| == |chunks|
    ensures forall i :: 0 <= i < |vs| ==> vs[i] == chunks[i].value
  {
    seq(|chunks|, i requires 0 <= i < |chunks| => chunks[i].value)
  }

  /** `total` is `active` plus all the unlocking balances, and fits a balance. */
  ghost predicate Balanced(l: LedgerState)
  {
    l.total == l.active + Sum(Values(l.unlocking)) <= U128_MAX
  }

  ghost predicate NoEmptyChunk(chunks: seq<Chunk>)
  {
    forall i :: 0 <= i < |chunks| ==> chunks[i].value > 0
  }

  /** The queue holds one chunk an era, later eras at the back. */
  ghost predicate ErasIncrease(chunks: seq<Chunk>)
  {
    forall i, j :: 0 <= i < j < |chunks| ==> chunks[i].era < chunks[j].era
  }

  // ---------- the slash targets and their order ----------

  /** The first chunk that unlocks at `start` or later; the queue's length when there is none. */
  function FirstSlashable(chunks: seq<Chunk>, start: nat): (f: nat)
    ensures f <= |chunks|
    ensures f < |chunks| ==> chunks[f].era >= start
    ensures forall i :: 0 <= i < f ==> chunks[i].era < start
  {
    if chunks == [] || chunks[0].era >= start then 0 else 1 + FirstSlashable(chunks[1..], start)
  }

  /** Where chunk `i` of `n` stands among the slash targets; target 0 is the active balance. */
  function TargetOf(f: nat, n: nat, i: nat): (k: nat)
    requires f <= n && i < n
    ensures 1 <= k <= n
  {
    if i < f then n - i else 1 + i - f
  }

  /**
   * The chunk behind target `k > 0`: from the first slashable one to the newest, then from the one
   * before it back to the oldest.
   */
  function ChunkOf(f: nat, n: nat, k: nat): (i: nat)
    requires f <= n && 1 <= k <= n
    ensures i < n && TargetOf(f, n, i) == k
  {
    if k <= n - f then f + k - 1 else n - k
  }

  function Targets(l: LedgerState, f: nat): (ts: seq<nat>)
    requires f <= |l.unlocking|
    ensures |ts| == 1 + |l.unlocking|
    ensures forall i :: 0 <= i < |l.unlocking| ==> ts[TargetOf(f, |l.unlocking|, i)] == l.unlocking[i].value
  {
    var n := |l.unlocking|;
    seq(1 + n, k requires 0 <= k <= n => if k == 0 then l.active else l.unlocking[ChunkOf(f, n, k)].value)
  }

  /** The balance a proportional slash is spread over. */
  function AffectedBalance(l: LedgerState, f: nat): nat
    requires f <= |l.unlocking|
  {
    Min(l.active + Sum(Values(l.unlocking)[f..]), U128_MAX)
  }

  /** The proportion to take from every target; `None` when no chunk is affected. */
  function SlashRatio(l: LedgerState, f: nat, amount: nat): (r: Option<nat>)
    requires f <= |l.unlocking|
    ensures r.Some? <==> f < |l.unlocking|
  {
    if f == |l.unlocking| then None else Some(RatioUp(amount, AffectedBalance(l, f)))
  }

  // ---------- one pass over the targets ----------

  /** What is wanted from a target before dust is swept. */
  function Wanted(target: nat, remaining: nat, ratio: Option<nat>): (w: nat)
    ensures w <= target && w <= remaining
  {
    var share := match ratio case Some(parts) => MulCeil(parts, target) case None => remaining;
    Min(Min(share, target), remaining)
  }

  /** What one visit takes from a target, sweeping the rest when it would be dust. */
  function Take(target: nat, remaining: nat, ratio: Option<nat>, minBalance: nat): (t: nat)
    ensures t <= target
  {
    var w := Wanted(target, remaining, ratio);
    if target - w < minBalance then target else w
  }

  /** A slash pass: its targets in order, the amount to slash, and how to split it. */
  datatype Pass = Pass(ts: seq<nat>, amount: nat, ratio: Option<nat>, minBalance: nat)

  /** What is still to be slashed when target `k` comes up. */
  function Remaining(p: Pass, k: nat): nat
    requires k <= |p.ts|
    decreases k, 0
  {
    if k == 0 then p.amount else SatSub(Remaining(p, k - 1), TakeAt(p, k - 1))
  }

  /** What the pass takes from target `k`: nothing once the slash is used up. */
  function TakeAt(p: Pass, k: nat): (t: nat)
    requires k < |p.ts|
    ensures t <= p.ts[k]
    decreases k, 1
  {
    var remaining := Remaining(p, k);
    if remaining == 0 then 0 else Take(p.ts[k], remaining, p.ratio, p.minBalance)
  }

  /** What the pass leaves in each target. */
  function Left(p: Pass): (left: seq<nat>)
    ensures |left| == |p.ts| && forall i :: 0 <= i < |p.ts| ==> left[i] == p.ts[i] - TakeAt(p, i)
  {
    seq(|p.ts|, i requires 0 <= i < |p.ts| => p.ts[i] - TakeAt(p, i))
  }

  /** Everything taken before target `k` comes up. */
  function Taken(p: Pass, k: nat): nat
    requires k <= |p.ts|
  {
    if k == 0 then 0 else Taken(p, k - 1) + TakeAt(p, k - 1)
  }

  /** The queue a pass leaves, in queue order. */
  function Remains(p: Pass, chunks: seq<Chunk>, f: nat): (r: seq<Chunk>)
    requires f <= |chunks| && |p.ts| == 1 + |chunks|
    ensures |r| == |chunks|
    ensures forall i :: 0 <= i < |r| ==> r[i] == Chunk(Left(p)[TargetOf(f, |chunks|, i)], chunks[i].era)
  {
    var n := |chunks|;
    seq(n, i requires 0 <= i < n => Chunk(Left(p)[TargetOf(f, n, i)], chunks[i].era))
  }

  // ---------- facts about the pass ----------

  lemma {:induction false} RemainingIsRest(p: Pass, k: nat)
    requires k <= |p.ts|
    ensures Remaining(p, k) == SatSub(p.amount, Taken(p, k))
  {
    if k == 0 {
    } else {
      RemainingIsRest(p, k - 1);
    }
  }

  /** The pass overshoots by less than the minimum balance, and not at all when that is 0 or 1. */
  lemma {:induction false} TakenUpperBound(p: Pass, k: nat)
    requires k <= |p.ts|
    ensures Taken(p, k) < p.amount + Max(1, p.minBalance)
  {
    if k == 0 {
    } else {
      TakenUpperBound(p, k - 1);
      RemainingIsRest(p, k - 1);
      TakeOvershoot(p.ts[k - 1], Remaining(p, k - 1), p.ratio, p.minBalance);
    }
  }

  lemma TakeOvershoot(target: nat, remaining: nat, ratio: Option<nat>, minBalance: nat)
    ensures Take(target, remaining, ratio, minBalance) < remaining + Max(1, minBalance)
  {
  }

  /** The share asked of every target: the rounded-up ratio, or the whole when not proportional. */
  function Share(ratio: Option<nat>): nat
  {
    match ratio case Some(parts) => parts case None => QUINTILL
  }

  /** Until the slash is used up, the pass takes at least the ratio of everything it has visited. */
  lemma {:induction false} TakenLowerBound(p: Pass, k: nat)
    requires k <= |p.ts| && Share(p.ratio) <= QUINTILL
    ensures Remaining(p, k) == 0 || Taken(p, k) * QUINTILL >= Share(p.ratio) * SumTo(p.ts, k)
  {
    hide TakeAt, Share, Remaining;
    if k == 0 {
    } else {
      TakenLowerBound(p, k - 1);
      if Remaining(p, k) != 0 {
        VisitInFull(p, k - 1);
        TakeAtLeastShare(p.ts[k - 1], Remaining(p, k - 1), p.ratio, p.minBalance);
        Distribute(Share(p.ratio), SumTo(p.ts, k - 1), p.ts[k - 1]);
        Distribute(QUINTILL, Taken(p, k - 1), TakeAt(p, k - 1));
      }
    }
  }

  lemma VisitInFull(p: Pass, k: nat)
    requires k < |p.ts| && Remaining(p, k + 1) != 0
    ensures TakeAt(p, k) == Take(p.ts[k], Remaining(p, k), p.ratio, p.minBalance) < Remaining(p, k)
  {
    hide Take;
  }

  lemma Distribute(c: nat, a: nat, b: nat)
    ensures c * (a + b) == c * a + c * b
  {
  }

  lemma TakeAtLeastShare(target: nat, remaining: nat, ratio: Option<nat>, minBalance: nat)
    requires Share(ratio) <= QUINTILL && Take(target, remaining, ratio, minBalance) < remaining
    ensures QUINTILL * Take(target, remaining, ratio, minBalance) >= Share(ratio) * target
  {
    var t := Take(target, remaining, ratio, minBalance);
    if t == target {
      MulOrderAny(Share(ratio), QUINTILL, target);
    } else {
      assert ratio.Some? && t == MulCeil(ratio.value, target);
    }
  }

  /** Once the slash is used up nothing more is taken. */
  lemma {:induction false} NothingAfterwards(p: Pass, j: nat, k: nat)
    requires j <= k <= |p.ts| && Remaining(p, j) == 0
    ensures Remaining(p, k) == 0 && Taken(p, k) == Taken(p, j)
    ensures k < |p.ts| ==> TakeAt(p, k) == 0
  {
    if j == k {
    } else {
      NothingAfterwards(p, j, k - 1);
    }
  }

  lemma {:induction false} TakenAndLeft(p: Pass, k: nat)
    requires k <= |p.ts|
    ensures SumTo(Left(p), k) + Taken(p, k) == SumTo(p.ts, k)
  {
    if k == 0 {
    } else {
      TakenAndLeft(p, k - 1);
    }
  }

  /** Without a proportional limit, a target is touched only after all earlier ones are emptied. */
  lemma EarlierTargetsEmptied(p: Pass, j: nat, k: nat)
    requires j < k < |p.ts| && Share(p.ratio) == QUINTILL && TakeAt(p, k) > 0
    ensures Left(p)[j] == 0
  {
    var next := Remaining(p, j + 1);
    assert next == SatSub(Remaining(p, j), TakeAt(p, j));
    if next == 0 {
      NothingAfterwards(p, j + 1, k);
    } else {
      TakeAtLeastShare(p.ts[j], Remaining(p, j), p.ratio, p.minBalance);
      MulOrder(p.ts[j], TakeAt(p, j), QUINTILL);
    }
  }

  // ---------- queue filters ----------

  /** The chunks among the first `k` that satisfy `keep`, in order. */
  function FilterTo(chunks: seq<Chunk>, keep: Chunk -> bool, k: nat): (r: seq<Chunk>)
    requires k <= |chunks|
    ensures |r| <= k
  {
    if k == 0 then []
    else FilterTo(chunks, keep, k - 1) + if keep(chunks[k - 1]) then [chunks[k - 1]] else []
  }

  /** A filter yields only what it should. */
  lemma {:induction false} FilterFrom(chunks: seq<Chunk>, keep: Chunk -> bool, k: nat)
    requires k <= |chunks|
    ensures var r := FilterTo(chunks, keep, k);
      forall i :: 0 <= i < |r| ==> keep(r[i]) && r[i] in chunks[..k]
  {
    if k == 0 {
    } else {
      FilterFrom(chunks, keep, k - 1);
      FilterStep(chunks, keep, k - 1);
    }
  }

  lemma FilterStep(chunks: seq<Chunk>, keep: Chunk -> bool, k: nat)
    requires k < |chunks|
    ensures var before, c := FilterTo(chunks, keep, k), chunks[k];
      FilterTo(chunks, keep, k + 1) == if keep(c) then before + [c] else before
    ensures chunks[..k + 1] == chunks[..k] + [chunks[k]]
  {
    assert !keep(chunks[k]) ==> FilterTo(chunks, keep, k) + [] == FilterTo(chunks, keep, k);
  }

  function Filter(chunks: seq<Chunk>, keep: Chunk -> bool): seq<Chunk>
  {
    FilterTo(chunks, keep, |chunks|)
  }

  /** The values of the chunks among the first `k` that the filter drops. */
  function DroppedTo(chunks: seq<Chunk>, keep: Chunk -> bool, k: nat): nat
    requires k <= |chunks|
  {
    if k == 0 then 0
    else DroppedTo(chunks, keep, k - 1) + if keep(chunks[k - 1]) then 0 else chunks[k - 1].value
  }

  lemma {:induction false} FilterSum(chunks: seq<Chunk>, keep: Chunk -> bool, k: nat)
    requires k <= |chunks|
    ensures Sum(Values(FilterTo(chunks, keep, k))) + DroppedTo(chunks, keep, k) == SumTo(Values(chunks), k)
  {
    if k == 0 {
    } else {
      FilterSum(chunks, keep, k - 1);
      var kept := FilterTo(chunks, keep, k - 1);
      if keep(chunks[k - 1]) {
        var c := chunks[k - 1];
        assert Values(kept + [c]) == Values(kept) + [c.value];
        SumConcat(Values(kept), [c.value]);
        assert Sum([c.value]) == SumTo([c.value], 0) + c.value;
      } else {
        assert kept + [] == kept;
      }
    }
  }

  lemma {:induction false} FilterBelow(chunks: seq<Chunk>, keep: Chunk -> bool, k: nat, bound: nat)
    requires k <= |chunks| && forall i :: 0 <= i < k ==> chunks[i].era < bound
    ensures var r := FilterTo(chunks, keep, k); forall i :: 0 <= i < |r| ==> r[i].era < bound
  {
    if k == 0 {
    } else {
      FilterBelow(chunks, keep, k - 1, bound);
      FilterStep(chunks, keep, k - 1);
      hide FilterTo;
    }
  }

  lemma {:induction false} FilterEras(chunks: seq<Chunk>, keep: Chunk -> bool, k: nat)
    requires k <= |chunks| && ErasIncrease(chunks)
    ensures ErasIncrease(FilterTo(chunks, keep, k))
  {
    if k == 0 {
    } else {
      FilterEras(chunks, keep, k - 1);
      FilterBelow(chunks, keep, k - 1, chunks[k - 1].era);
      FilterStep(chunks, keep, k - 1);
      hide FilterTo;
    }
  }

  /** A filter drops nothing it should keep. */
  lemma {:induction false} FilterKeeps(chunks: seq<Chunk>, keep: Chunk -> bool, k: nat, i: nat)
    requires i < k <= |chunks| && keep(chunks[i])
    ensures chunks[i] in FilterTo(chunks, keep, k)
  {
    if i >= k - 1 {
    } else {
      FilterKeeps(chunks, keep, k - 1, i);
    }
  }

  function NonZero(): Chunk -> bool { (c: Chunk) => c.value != 0 }

  function LockedAfter(era: nat): Chunk -> bool { (c: Chunk) => c.era > era }

  lemma {:induction false} DroppingZeros(chunks: seq<Chunk>, k: nat)
    requires k <= |chunks|
    ensures DroppedTo(chunks, NonZero(), k) == 0
  {
    if k == 0 {
    } else {
      DroppingZeros(chunks, k - 1);
    }
  }

  // ---------- slash ----------

  datatype SlashOutcome = SlashOutcome(
    ledger: LedgerState,
    slashed: nat,
    remains: seq<Chunk>)    // the queue after the pass, before empty chunks are dropped

  function PassOf(l: LedgerState, amount: nat, minBalance: nat, f: nat): (p: Pass)
    requires f <= |l.unlocking|
    ensures |p.ts| == 1 + |l.unlocking|
  {
    Pass(Targets(l, f), amount, SlashRatio(l, f, amount), minBalance)
  }

  /** The whole slash: pass over the targets, put the chunks back in queue order, drop empty ones. */
  function SlashResult(l: LedgerState, amount: nat, minBalance: nat, start: nat): (o: SlashOutcome)
    ensures |o.remains| == |l.unlocking|
  {
    if amount == 0 then SlashOutcome(l, 0, l.unlocking)
    else
      var f := FirstSlashable(l.unlocking, start);
      var p := PassOf(l, amount, minBalance, f);
      var remains := Remains(p, l.unlocking, f);
      var total := SatSub(l.total, Taken(p, |p.ts|));
      SlashOutcome(LedgerState(total, Left(p)[0], Filter(remains, NonZero())), SatSub(l.total, total), remains)
  }

  /** Listing the chunk values in slash order, behind one more value, loses nothing. */
  lemma OrderSum(vs: seq<nat>, ts: seq<nat>, f: nat)
    requires f <= |vs| && |ts| == 1 + |vs|
    requires forall i :: 0 <= i < |vs| ==> ts[TargetOf(f, |vs|, i)] == vs[i]
    ensures Sum(ts) == ts[0] + Sum(vs)
    ensures SumTo(ts, 1 + |vs| - f) == ts[0] + Sum(vs[f..])
  {
    var head, newer, older := [ts[0]], vs[f..], Reverse(vs[..f]);
    assert ts == head + (newer + older) by {
      forall k | 1 <= k < |ts| ensures ts[k] == (head + (newer + older))[k] {
        assert ts[TargetOf(f, |vs|, ChunkOf(f, |vs|, k))] == vs[ChunkOf(f, |vs|, k)];
      }
    }
    assert Sum(head) == SumTo(head, 0) + ts[0];
    SumConcat(head, newer + older);
    SumConcat(newer, older);
    SumReverse(vs[..f]);
    SumSplit(vs, f);
    SumConcatTo(head, newer + older, |newer|);
    SumToSame(newer + older, newer, |newer|);
  }

  lemma TargetsSum(l: LedgerState, f: nat)
    requires f <= |l.unlocking|
    ensures Sum(Targets(l, f)) == l.active + Sum(Values(l.unlocking))
    ensures SumTo(Targets(l, f), 1 + |l.unlocking| - f) == l.active + Sum(Values(l.unlocking)[f..])
  {
    OrderSum(Values(l.unlocking), Targets(l, f), f);
  }

  /** The slash is used up by the affected targets when they can cover it. */
  lemma AffectedCover(l: LedgerState, amount: nat, minBalance: nat, f: nat)
    requires Balanced(l) && f < |l.unlocking| && amount <= l.active + Sum(Values(l.unlocking)[f..])
    ensures Remaining(PassOf(l, amount, minBalance, f), 1 + |l.unlocking| - f) == 0
  {
    var p := PassOf(l, amount, minBalance, f);
    var k := 1 + |l.unlocking| - f;
    var affected := AffectedBalance(l, f);
    TargetsSum(l, f);
    SumSplit(Values(l.unlocking), f);
    assert affected == SumTo(p.ts, k);
    TakenLowerBound(p, k);
    RemainingIsRest(p, k);
    MulOrder(amount, Taken(p, k), QUINTILL);
  }

  /** Either the whole amount is taken or the whole ledger is. */
  lemma SlashLowerBound(l: LedgerState, amount: nat, minBalance: nat, f: nat)
    requires Balanced(l) && f <= |l.unlocking|
    ensures var p := PassOf(l, amount, minBalance, f); Taken(p, |p.ts|) >= Min(amount, l.total)
  {
    var p := PassOf(l, amount, minBalance, f);
    var n := |p.ts|;
    TargetsSum(l, f);
    SumSplit(Values(l.unlocking), f);
    RemainingIsRest(p, n);
    if p.ratio.Some? && amount <= AffectedBalance(l, f) {
      AffectedCover(l, amount, minBalance, f);
      NothingAfterwards(p, 1 + |l.unlocking| - f, n);
    } else {
      TakenLowerBound(p, n);
      if Remaining(p, n) != 0 {
        MulOrder(l.total, Taken(p, n), QUINTILL);
      }
    }
  }

  /**
   * The true bound on a slash: at least the amount asked for (or everything), never more than
   * everything, and over the amount by less than the minimum balance.
   */
  lemma SlashBound(l: LedgerState, amount: nat, minBalance: nat, start: nat)
    requires Balanced(l)
    ensures var o := SlashResult(l, amount, minBalance, start);
      && Balanced(o.ledger)
      && o.slashed == l.total - o.ledger.total
      && Min(amount, l.total) <= o.slashed <= l.total
      && o.slashed < amount + Max(1, minBalance)
      && (minBalance <= 1 ==> o.slashed == Min(amount, l.total))
  {
    if amount > 0 {
      var f := FirstSlashable(l.unlocking, start);
      var p := PassOf(l, amount, minBalance, f);
      var n := |p.ts|;
      var left := Left(p);
      var o := SlashResult(l, amount, minBalance, start);
      TargetsSum(l, f);
      SlashLowerBound(l, amount, minBalance, f);
      TakenUpperBound(p, n);
      TakenAndLeft(p, n);
      OrderSum(Values(o.remains), left, f);
      FilterSum(o.remains, NonZero(), |o.remains|);
      DroppingZeros(o.remains, |o.remains|);
    }
  }

  // ---------- when a slash takes more than it was asked for ----------

  /** The part of a target that the slash asks for when enough remains. */
  function ShareOf(target: nat, ratio: Option<nat>): (w: nat)
    ensures w <= target
  {
    match ratio case Some(parts) => Min(MulCeil(parts, target), target) case None => target
  }

  /** What a visit takes when enough remains, dust included; it does not depend on what remains. */
  function FullTake(target: nat, ratio: Option<nat>, minBalance: nat): (t: nat)
    ensures ShareOf(target, ratio) <= t <= target
  {
    if target - ShareOf(target, ratio) < minBalance then target else ShareOf(target, ratio)
  }

  function FullTo(p: Pass, k: nat): nat
    requires k <= |p.ts|
  {
    if k == 0 then 0 else FullTo(p, k - 1) + FullTake(p.ts[k - 1], p.ratio, p.minBalance)
  }

  /** The amount runs out in target `j`, and what it would leave there is dust. */
  ghost predicate OvershootsAt(p: Pass, j: nat)
    requires j < |p.ts|
  {
    && FullTo(p, j) < p.amount < FullTo(p, j) + p.ts[j]
    && p.ts[j] - Min(ShareOf(p.ts[j], p.ratio), p.amount - FullTo(p, j)) < p.minBalance
  }

  lemma TakeByShare(target: nat, remaining: nat, ratio: Option<nat>, minBalance: nat)
    ensures var w := Min(ShareOf(target, ratio), remaining);
      Take(target, remaining, ratio, minBalance) == if target - w < minBalance then target else w
  {
    hide MulCeil;
  }

  /** What remains is the amount less what the targets so far give in full. */
  lemma {:induction false} RemainingAfterFull(p: Pass, k: nat)
    requires k <= |p.ts|
    ensures Remaining(p, k) == SatSub(p.amount, FullTo(p, k))
  {
    hide Take, ShareOf;
    if k == 0 {
    } else {
      RemainingAfterFull(p, k - 1);
      TakeByShare(p.ts[k - 1], Remaining(p, k - 1), p.ratio, p.minBalance);
    }
  }

  /** One target adds an overshoot exactly when the amount runs out in it and leaves dust. */
  lemma OvershootStep(p: Pass, k: nat)
    requires k < |p.ts|
    ensures Taken(p, k + 1) > p.amount <==> Taken(p, k) > p.amount || OvershootsAt(p, k)
  {
    RemainingAfterFull(p, k);
    RemainingIsRest(p, k);
    TakeByShare(p.ts[k], Remaining(p, k), p.ratio, p.minBalance);
    assert Taken(p, k + 1) == Taken(p, k) + TakeAt(p, k);
    hide Take, ShareOf, Remaining, Taken, FullTo;
  }

  lemma {:induction false} PassOvershoots(p: Pass, k: nat)
    requires k <= |p.ts|
    ensures Taken(p, k) > p.amount <==> exists j :: 0 <= j < k && OvershootsAt(p, j)
  {
    hide OvershootsAt, TakeAt;
    if k == 0 {
    } else {
      PassOvershoots(p, k - 1);
      OvershootStep(p, k - 1);
    }
  }

  lemma SlashedIsTaken(l: LedgerState, amount: nat, minBalance: nat, start: nat)
    requires Balanced(l)
    ensures var p := PassOf(l, amount, minBalance, FirstSlashable(l.unlocking, start));
      SlashResult(l, amount, minBalance, start).slashed == Taken(p, |p.ts|)
  {
    var f := FirstSlashable(l.unlocking, start);
    var p := PassOf(l, amount, minBalance, f);
    if amount == 0 {
      NothingAfterwards(p, 0, |p.ts|);
    } else {
      TargetsSum(l, f);
      TakenAndLeft(p, |p.ts|);
    }
  }

  /** Which slashes take more than they were asked for can be told from the targets beforehand. */
  lemma SlashOvershootsExactly(l: LedgerState, amount: nat, minBalance: nat, start: nat)
    requires Balanced(l)
    ensures var p := PassOf(l, amount, minBalance, FirstSlashable(l.unlocking, start));
      SlashResult(l, amount, minBalance, start).slashed > amount <==> exists j :: 0 <= j < |p.ts| && OvershootsAt(p, j)
  {
    hide OvershootsAt, SlashResult, Taken;
    var p := PassOf(l, amount, minBalance, FirstSlashable(l.unlocking, start));
    SlashedIsTaken(l, amount, minBalance, start);
    PassOvershoots(p, |p.ts|);
  }

  /** With nothing unlocking, more is taken exactly when what would stay behind is dust. */
  lemma ActiveOvershoot(l: LedgerState, amount: nat, minBalance: nat, start: nat)
    requires Balanced(l) && l.unlocking == []
    ensures SlashResult(l, amount, minBalance, start).slashed > amount <==> 0 < amount < l.active < amount + minBalance
  {
    SlashOvershootsExactly(l, amount, minBalance, start);
    var p := PassOf(l, amount, minBalance, FirstSlashable(l.unlocking, start));
    assert p.ts[0] == l.active && p.ratio == None;
    hide SlashResult, PassOf;
    assert OvershootsAt(p, 0) <==> 0 < amount < l.active < amount + minBalance;
  }

  lemma OnlyActive(l: LedgerState)
    requires l.unlocking == [] && l.active == l.total <= U128_MAX
    ensures Balanced(l)
  {
  }

  /** "Never more than the given amount" holds of every ledger and amount exactly when there is no dust to sweep. */
  lemma NeverMoreThanAsked(minBalance: nat)
    ensures (forall l: LedgerState, amount: nat, start: nat ::
               Balanced(l) ==> SlashResult(l, amount, minBalance, start).slashed <= amount) <==> minBalance <= 1
  {
    hide SlashResult;
    if minBalance <= 1 {
      forall l: LedgerState, amount: nat, start: nat | Balanced(l)
        ensures SlashResult(l, amount, minBalance, start).slashed <= amount
      {
        SlashBound(l, amount, minBalance, start);
      }
    } else {
      var m := Min(minBalance, U128_MAX);
      var l := LedgerState(m, m, []);
      OnlyActive(l);
      ActiveOvershoot(l, 1, minBalance, 0);
    }
  }

  lemma RemainsAt(l: LedgerState, amount: nat, minBalance: nat, start: nat, i: nat)
    requires amount > 0 && i < |l.unlocking|
    ensures var f := FirstSlashable(l.unlocking, start);
      var p := PassOf(l, amount, minBalance, f);
      var k := TargetOf(f, |l.unlocking|, i);
      var remains := SlashResult(l, amount, minBalance, start).remains;
      && p.ts[k] == l.unlocking[i].value
      && remains[i].era == l.unlocking[i].era
      && remains[i].value == l.unlocking[i].value - TakeAt(p, k)
  {
  }

  /** Older chunks are left alone while the active balance and the affected chunks cover the slash. */
  lemma OlderChunksUntouched(l: LedgerState, amount: nat, minBalance: nat, start: nat, i: nat)
    requires Balanced(l) && i < FirstSlashable(l.unlocking, start)
    requires var f := FirstSlashable(l.unlocking, start);
      if f < |l.unlocking| then amount <= l.active + Sum(Values(l.unlocking)[f..]) else amount <= l.active
    ensures SlashResult(l, amount, minBalance, start).remains[i] == l.unlocking[i]
  {
    hide SlashResult, FirstSlashable, TakeAt, Remaining, Balanced, SumTo;
    if amount > 0 {
      var f, n := FirstSlashable(l.unlocking, start), |l.unlocking|;
      var p := PassOf(l, amount, minBalance, f);
      if f < n {
        AffectedCover(l, amount, minBalance, f);
      } else {
        ActiveCovers(p);
      }
      NothingAfterwards(p, 1 + n - f, TargetOf(f, n, i));
      RemainsAt(l, amount, minBalance, start, i);
    } else {
      NothingToSlash(l, minBalance, start);
    }
  }

  lemma NothingToSlash(l: LedgerState, minBalance: nat, start: nat)
    ensures SlashResult(l, 0, minBalance, start) == SlashOutcome(l, 0, l.unlocking)
  {
  }

  /** A slash without proportion that the first target covers is used up by it. */
  lemma ActiveCovers(p: Pass)
    requires p.ts != [] && p.ratio.None? && p.amount <= p.ts[0]
    ensures Remaining(p, 1) == 0
  {
    assert Remaining(p, 1) == SatSub(Remaining(p, 0), TakeAt(p, 0));
  }

  lemma OlderTouchedTakesAll(l: LedgerState, amount: nat, minBalance: nat, start: nat, i: nat)
    requires Balanced(l) && i < FirstSlashable(l.unlocking, start)
    requires SlashResult(l, amount, minBalance, start).remains[i].value < l.unlocking[i].value
    ensures amount > 0 && Share(SlashRatio(l, FirstSlashable(l.unlocking, start), amount)) == QUINTILL
  {
    var f := FirstSlashable(l.unlocking, start);
    if f < |l.unlocking| && amount <= l.active + Sum(Values(l.unlocking)[f..]) {
      OlderChunksUntouched(l, amount, minBalance, start, i);
    }
  }

  /** An older chunk loses value only after the active balance and every newer chunk are gone. */
  lemma OlderChunksLast(l: LedgerState, amount: nat, minBalance: nat, start: nat, i: nat, j: nat)
    requires Balanced(l) && i < FirstSlashable(l.unlocking, start) && i < j < |l.unlocking|
    requires SlashResult(l, amount, minBalance, start).remains[i].value < l.unlocking[i].value
    ensures var o := SlashResult(l, amount, minBalance, start);
      o.ledger.active == 0 && o.remains[j].value == 0
  {
    var f, n := FirstSlashable(l.unlocking, start), |l.unlocking|;
    var p := PassOf(l, amount, minBalance, f);
    OlderTouchedTakesAll(l, amount, minBalance, start, i);
    hide SlashRatio, Remaining;
    RemainsAt(l, amount, minBalance, start, i);
    RemainsAt(l, amount, minBalance, start, j);
    EarlierTargetsEmptied(p, 0, TargetOf(f, n, i));
    EarlierTargetsEmptied(p, TargetOf(f, n, j), TargetOf(f, n, i));
  }

  /** What a target loses: at most its rounded-up share, or everything when the share would leave dust. */
  ghost predicate WithinShare(before: nat, after: nat, parts: nat, minBalance: nat)
  {
    || before - after <= MulCeil(parts, before)
    || (after == 0 && before < MulCeil(parts, before) + minBalance)
  }

  lemma AtMostShare(p: Pass, k: nat)
    requires k < |p.ts| && p.ratio.Some?
    ensures WithinShare(p.ts[k], p.ts[k] - TakeAt(p, k), p.ratio.value, p.minBalance)
  {
    hide MulCeil, Remaining;
  }

  /** A proportional slash takes no more than the rounded-up share of a target, up to dust. */
  lemma ProportionalShare(l: LedgerState, amount: nat, minBalance: nat, start: nat, i: nat)
    requires FirstSlashable(l.unlocking, start) < |l.unlocking| && i < |l.unlocking|
    ensures var o := SlashResult(l, amount, minBalance, start);
      var parts := SlashRatio(l, FirstSlashable(l.unlocking, start), amount).value;
      && WithinShare(l.active, o.ledger.active, parts, minBalance)
      && WithinShare(l.unlocking[i].value, o.remains[i].value, parts, minBalance)
  {
    hide SlashRatio, RatioUp, MulCeil;
    if amount == 0 {
    } else {
      RemainsAt(l, amount, minBalance, start, i);
      var f := FirstSlashable(l.unlocking, start);
      var p := PassOf(l, amount, minBalance, f);
      AtMostShare(p, 0);
      AtMostShare(p, TargetOf(f, |l.unlocking|, i));
      hide TakeAt, Remaining, WithinShare;
    }
  }

  /** A slash without affected chunks empties the active balance exactly when it covers it up to dust. */
  lemma ActiveWipedExactly(l: LedgerState, amount: nat, minBalance: nat, start: nat)
    requires FirstSlashable(l.unlocking, start) == |l.unlocking|
    ensures SlashResult(l, amount, minBalance, start).ledger.active == 0 <==>
      l.active == 0 || (amount > 0 && (l.active <= amount || l.active < amount + minBalance))
  {
    if amount == 0 {
    } else {
      var p := PassOf(l, amount, minBalance, |l.unlocking|);
      assert Remaining(p, 0) == amount && p.ts[0] == l.active && p.ratio == None;
      assert Left(p)[0] == l.active - Take(l.active, amount, None, minBalance);
      hide Remains, Filter, Taken;
    }
  }

  // ---------- how far a target can fall short of its share ----------

  /** Whether a target gives less than its share can be told beforehand, and what it then gives. */
  lemma ShortExactly(p: Pass, k: nat)
    requires k < |p.ts|
    ensures var share, rest := ShareOf(p.ts[k], p.ratio), SatSub(p.amount, FullTo(p, k));
      && (TakeAt(p, k) < share <==> rest < share && (rest == 0 || p.ts[k] - rest >= p.minBalance))
      && (TakeAt(p, k) < share ==> TakeAt(p, k) == rest)
  {
    hide Take, ShareOf, FullTo, Remaining;
    RemainingAfterFull(p, k);
    TakeByShare(p.ts[k], Remaining(p, k), p.ratio, p.minBalance);
  }

  lemma FullTakeBound(target: nat, parts: nat, minBalance: nat)
    ensures QUINTILL * FullTake(target, Some(parts), minBalance) <= parts * target + QUINTILL * Max(1, minBalance)
    ensures QUINTILL * ShareOf(target, Some(parts)) <= parts * target + QUINTILL
  {
    MulCeilBound(parts, target);
    hide MulCeil;
  }

  lemma AddBounds(full: nat, take: nat, parts: nat, sum: nat, target: nat, a: nat, b: nat)
    requires QUINTILL * full <= parts * sum + a && QUINTILL * take <= parts * target + b
    ensures QUINTILL * (full + take) <= parts * (sum + target) + a + b
  {
    Distribute(parts, sum, target);
  }

  /** Dust from `k` targets, or a unit of rounding from each, in parts of 10^18. */
  function Slack(k: nat, minBalance: nat): nat { k * (QUINTILL * Max(1, minBalance)) }

  lemma OneMoreSlack(k: nat, minBalance: nat)
    ensures Slack(k + 1, minBalance) == Slack(k, minBalance) + QUINTILL * Max(1, minBalance)
  {
    hide Max;
    Distribute(QUINTILL * Max(1, minBalance), k, 1);
  }

  lemma {:induction false} FullToBound(p: Pass, k: nat)
    requires k <= |p.ts| && p.ratio.Some?
    ensures QUINTILL * FullTo(p, k) <= p.ratio.value * SumTo(p.ts, k) + Slack(k, p.minBalance)
  {
    hide FullTake, Max, Slack;
    if k == 0 {
    } else {
      var parts, unit, t := p.ratio.value, QUINTILL * Max(1, p.minBalance), p.ts[k - 1];
      FullToBound(p, k - 1);
      FullTakeBound(t, parts, p.minBalance);
      AddBounds(FullTo(p, k - 1), FullTake(t, p.ratio, p.minBalance), parts, SumTo(p.ts, k - 1), t,
                Slack(k - 1, p.minBalance), unit);
      OneMoreSlack(k - 1, p.minBalance);
    }
  }

  lemma WithinAmount(x: nat, sum: nat, slack: nat, amount: nat, affected: nat)
    requires QUINTILL * x <= RatioUp(amount, affected) * sum + slack && sum <= affected
    ensures QUINTILL * x <= QUINTILL * amount + affected + slack
  {
    RatioUpBound(amount, affected);
    hide RatioUp;
    MulOrderAny(sum, affected, RatioUp(amount, affected));
  }

  /** The shares of the affected targets ask for no more than the amount, rounding and dust. */
  lemma SharesBound(p: Pass, k: nat, affected: nat)
    requires k < |p.ts| && p.ratio == Some(RatioUp(p.amount, affected)) && SumTo(p.ts, k + 1) <= affected
    ensures QUINTILL * (FullTo(p, k) + ShareOf(p.ts[k], p.ratio))
         <= QUINTILL * p.amount + affected + Slack(k, p.minBalance) + QUINTILL
  {
    hide RatioUp, FullTo, ShareOf, FullTake, Max, Slack;
    var parts, slack, t := RatioUp(p.amount, affected), Slack(k, p.minBalance), p.ts[k];
    FullToBound(p, k);
    FullTakeBound(t, parts, p.minBalance);
    AddBounds(FullTo(p, k), ShareOf(t, p.ratio), parts, SumTo(p.ts, k), t, slack, QUINTILL);
    WithinAmount(FullTo(p, k) + ShareOf(t, p.ratio), SumTo(p.ts, k) + t, slack + QUINTILL, p.amount, affected);
  }

  lemma PassShortfall(p: Pass, k: nat, affected: nat)
    requires k < |p.ts| && p.ratio == Some(RatioUp(p.amount, affected)) && SumTo(p.ts, k + 1) <= affected
    ensures QUINTILL * ShareOf(p.ts[k], p.ratio)
         <= QUINTILL * TakeAt(p, k) + affected + Slack(k, p.minBalance) + QUINTILL
  {
    hide RatioUp, FullTo, ShareOf, TakeAt, Slack;
    ShortExactly(p, k);
    SharesBound(p, k, affected);
  }

  /**
   * How far a chunk stays below its rounded-up share: by dust for each target before it, and by what rounding
   * the ratio up has taken from them, a part in 10^18 of the affected balance.
   */
  lemma ProportionalShortfall(l: LedgerState, amount: nat, minBalance: nat, start: nat, i: nat)
    requires Balanced(l) && FirstSlashable(l.unlocking, start) <= i < |l.unlocking|
    ensures var f := FirstSlashable(l.unlocking, start);
      var share := ShareOf(l.unlocking[i].value, SlashRatio(l, f, amount));
      var lost := l.unlocking[i].value - SlashResult(l, amount, minBalance, start).remains[i].value;
      QUINTILL * share <= QUINTILL * lost + AffectedBalance(l, f) + Slack(1 + i - f, minBalance) + QUINTILL
  {
    hide SlashResult, ShareOf, TakeAt, Slack, AffectedBalance, RatioUp, SumTo, Balanced;
    var f := FirstSlashable(l.unlocking, start);
    var p, k := PassOf(l, amount, minBalance, f), 1 + i - f;
    AffectedSum(l, f, k + 1);
    PassShortfall(p, k, AffectedBalance(l, f));
    LostIsTaken(l, amount, minBalance, start, i);
  }

  /** Two equal halves of 10^24 slashed by 10^24 + 1: rounding alone takes a million from the chunk's half. */
  lemma RoundingUnderSlashes(era: nat, start: nat)
    requires era >= start
    ensures var half := 1_000_000 * QUINTILL;
      var l := LedgerState(2 * half, half, [Chunk(half, era)]);
      var o := SlashResult(l, half + 1, 1, start);
      Balanced(l) && 2 * (half - o.remains[0].value) + 1_999_998 < half + 1
  {
    var half := 1_000_000 * QUINTILL;
    var l := LedgerState(2 * half, half, [Chunk(half, era)]);
    TwoHalves(l, half);
    assert FirstSlashable(l.unlocking, start) == 0;
    var p := PassOf(l, half + 1, 1, 0);
    RemainsAt(l, half + 1, 1, start, 0);
    HalfRounded(half);
    hide RatioUp, MulCeil, SlashResult;
    assert Remaining(p, 0) == half + 1;
    assert TakeAt(p, 0) == half / 2 + 1_000_000;
    assert Remaining(p, 1) == half / 2 - 999_999;
  }

  lemma TwoHalves(l: LedgerState, half: nat)
    requires l.active == half && l.total == 2 * half <= U128_MAX && |l.unlocking| == 1 && l.unlocking[0].value == half
    ensures Balanced(l) && AffectedBalance(l, 0) == 2 * half
  {
    var vs := Values(l.unlocking);
    assert vs[0..] == vs;
    assert Sum(vs) == SumTo(vs, 0) + vs[0];
  }

  lemma HalfRounded(half: nat)
    requires half == 1_000_000 * QUINTILL
    ensures RatioUp(half + 1, 2 * half) == QUINTILL / 2 + 1
    ensures MulCeil(QUINTILL / 2 + 1, half) == half / 2 + 1_000_000
  {
  }

  lemma AffectedSum(l: LedgerState, f: nat, k: nat)
    requires Balanced(l) && f <= |l.unlocking| && k <= 1 + |l.unlocking| - f
    ensures SumTo(Targets(l, f), k) <= AffectedBalance(l, f)
  {
    TargetsSum(l, f);
    SumSplit(Values(l.unlocking), f);
    SumToMonotone(Targets(l, f), k, 1 + |l.unlocking| - f);
  }

  lemma LostIsTaken(l: LedgerState, amount: nat, minBalance: nat, start: nat, i: nat)
    requires i < |l.unlocking|
    ensures var f := FirstSlashable(l.unlocking, start);
      var p, k := PassOf(l, amount, minBalance, f), TargetOf(f, |l.unlocking|, i);
      && p.ts[k] == l.unlocking[i].value
      && SlashResult(l, amount, minBalance, start).remains[i].value == l.unlocking[i].value - TakeAt(p, k)
  {
    if amount == 0 {
      var f := FirstSlashable(l.unlocking, start);
      NothingAfterwards(PassOf(l, amount, minBalance, f), 0, TargetOf(f, |l.unlocking|, i));
    } else {
      RemainsAt(l, amount, minBalance, start, i);
    }
  }

  /** Chunk by chunk no more. */
  ghost predicate NoMore(r: seq<Chunk>, chunks: seq<Chunk>)
  {
    |r| <= |chunks| && forall i :: 0 <= i < |r| ==> r[i].era == chunks[i].era && r[i].value <= chunks[i].value
  }

  lemma SlashReduces(l: LedgerState, amount: nat, minBalance: nat, start: nat)
    ensures var o := SlashResult(l, amount, minBalance, start);
      if amount == 0 then o.ledger.unlocking == l.unlocking == o.remains
      else NoMore(o.remains, l.unlocking) && o.ledger.unlocking == FilterTo(o.remains, NonZero(), |o.remains|)
  {
    hide FilterTo, Taken, TakeAt;
  }

  /** A slash keeps the queue in order, without empty chunks, and no longer than it was. */
  lemma SlashKeepsQueue(l: LedgerState, amount: nat, minBalance: nat, start: nat)
    requires NoEmptyChunk(l.unlocking) && ErasIncrease(l.unlocking)
    ensures var q := SlashResult(l, amount, minBalance, start).ledger.unlocking;
      NoEmptyChunk(q) && ErasIncrease(q) && |q| <= |l.unlocking|
  {
    hide SlashResult, FilterTo;
    SlashReduces(l, amount, minBalance, start);
    if amount > 0 {
      var remains := SlashResult(l, amount, minBalance, start).remains;
      FilterEras(remains, NonZero(), |remains|);
      FilterFrom(remains, NonZero(), |remains|);
    }
  }

  // ---------- what the slash hook is told ----------

  /** The first target from the `k`-th on that is not visited. */
  function VisitedFrom(p: Pass, k: nat): (v: nat)
    requires k <= |p.ts|
    ensures k <= v <= |p.ts|
    ensures v < |p.ts| ==> Remaining(p, v) == 0
    decreases |p.ts| - k
  {
    if k == |p.ts| || Remaining(p, k) == 0 then k else VisitedFrom(p, k + 1)
  }

  /** Eras and new values of the chunks behind targets 1 to `k`, later ones overwriting earlier. */
  function ReportTo(p: Pass, chunks: seq<Chunk>, f: nat, k: nat): map<nat, nat>
    requires f <= |chunks| && |p.ts| == 1 + |chunks| && k <= |chunks|
  {
    if k == 0 then map[]
    else ReportTo(p, chunks, f, k - 1)[chunks[ChunkOf(f, |chunks|, k)].era := Left(p)[k]]
  }

  /** What is reported to the slash hook; it is not called for an empty slash. */
  function SlashReport(l: LedgerState, amount: nat, minBalance: nat, start: nat): Option<map<nat, nat>>
  {
    if amount == 0 then None
    else
      var f := FirstSlashable(l.unlocking, start);
      var p := PassOf(l, amount, minBalance, f);
      Some(ReportTo(p, l.unlocking, f, VisitedFrom(p, 1) - 1))
  }

  lemma {:induction false} ReportOf(p: Pass, chunks: seq<Chunk>, f: nat, k: nat, i: nat)
    requires f <= |chunks| && |p.ts| == 1 + |chunks| && k <= |chunks| && i < |chunks| && ErasIncrease(chunks)
    ensures var r := ReportTo(p, chunks, f, k);
      if TargetOf(f, |chunks|, i) <= k then chunks[i].era in r && r[chunks[i].era] == Left(p)[TargetOf(f, |chunks|, i)]
      else chunks[i].era !in r
  {
    hide Left;
    if k == 0 {
    } else {
      ReportOf(p, chunks, f, k - 1, i);
      var j := ChunkOf(f, |chunks|, k);
      assert j == i || chunks[j].era != chunks[i].era by {
        assert j < i ==> chunks[j].era < chunks[i].era;
        assert i < j ==> chunks[i].era < chunks[j].era;
      }
    }
  }

  lemma ReportOfPass(p: Pass, chunks: seq<Chunk>, f: nat, i: nat)
    requires f <= |chunks| && |p.ts| == 1 + |chunks| && i < |chunks| && ErasIncrease(chunks)
    requires p.ts[TargetOf(f, |chunks|, i)] == chunks[i].value
    ensures var r := ReportTo(p, chunks, f, VisitedFrom(p, 1) - 1);
      var now := Remains(p, chunks, f)[i];
      (now != chunks[i] ==> now.era in r) && (now.era in r ==> r[now.era] == now.value)
  {
    hide TakeAt, Remaining;
    var v, t := VisitedFrom(p, 1), TargetOf(f, |chunks|, i);
    ReportOf(p, chunks, f, v - 1, i);
    if t >= v {
      NothingAfterwards(p, v, t);
    }
  }

  /** Every chunk that lost value is reported, and what is reported of a chunk is its new value. */
  lemma ReportExact(l: LedgerState, amount: nat, minBalance: nat, start: nat, i: nat)
    requires amount > 0 && ErasIncrease(l.unlocking) && i < |l.unlocking|
    ensures var r := SlashReport(l, amount, minBalance, start);
      var now := SlashResult(l, amount, minBalance, start).remains[i];
      && r.Some?
      && (now != l.unlocking[i] ==> now.era in r.value)
      && (now.era in r.value ==> r.value[now.era] == now.value)
  {
    hide ReportTo, VisitedFrom, Remains, Left, Taken, SlashRatio, Targets, Filter, Remaining, TakeAt, Take;
    var f := FirstSlashable(l.unlocking, start);
    var p := PassOf(l, amount, minBalance, f);
    assert p.ts[TargetOf(f, |l.unlocking|, i)] == l.unlocking[i].value;
    ReportOfPass(p, l.unlocking, f, i);
  }

  // ---------- rebond ----------

  /** The queue after `value` has been taken back from its end. */
  function RebondQueue(chunks: seq<Chunk>, value: nat): (r: seq<Chunk>)
    ensures |r| <= |chunks|
  {
    if chunks == [] then []
    else
      var init, last := chunks[..|chunks| - 1], chunks[|chunks| - 1];
      if last.value < value then RebondQueue(init, value - last.value)
      else if last.value == value then init
      else init + [last.(value := last.value - value)]
  }

  lemma {:induction false} RebondSum(chunks: seq<Chunk>, value: nat)
    ensures Sum(Values(RebondQueue(chunks, value))) + Min(value, Sum(Values(chunks))) == Sum(Values(chunks))
  {
    if chunks == [] {
    } else {
      var n := |chunks|;
      var init, last := chunks[..n - 1], chunks[n - 1];
      SumToSame(Values(init), Values(chunks), n - 1);
      if last.value < value {
        RebondSum(init, value - last.value);
      } else if last.value > value {
        SumToSame(Values(init), Values(RebondQueue(chunks, value)), n - 1);
      }
    }
  }

  /** `r` is a prefix of `chunks`, its last chunk possibly reduced but not to nothing. */
  ghost predicate ReducedPrefix(r: seq<Chunk>, chunks: seq<Chunk>)
  {
    && |r| <= |chunks|
    && (forall i :: 0 <= i < |r| - 1 ==> r[i] == chunks[i])
    && (r != [] ==> r[|r| - 1].era == chunks[|r| - 1].era && 0 < r[|r| - 1].value <= chunks[|r| - 1].value)
  }

  lemma {:induction false} RebondShape(chunks: seq<Chunk>, value: nat)
    requires NoEmptyChunk(chunks)
    ensures ReducedPrefix(RebondQueue(chunks, value), chunks)
  {
    if chunks == [] || chunks[|chunks| - 1].value >= value {
    } else {
      RebondShape(chunks[..|chunks| - 1], value - chunks[|chunks| - 1].value);
    }
  }

  /** Rebonding takes exactly `min(value, everything)`, off the end of the queue. */
  lemma RebondTakesFromTheEnd(chunks: seq<Chunk>, value: nat)
    requires NoEmptyChunk(chunks)
    ensures var r := RebondQueue(chunks, value);
      && Sum(Values(r)) == Sum(Values(chunks)) - Min(value, Sum(Values(chunks)))
      && ReducedPrefix(r, chunks)
  {
    RebondSum(chunks, value);
    RebondShape(chunks, value);
  }

  lemma RebondKeepsQueue(chunks: seq<Chunk>, value: nat)
    requires NoEmptyChunk(chunks) && ErasIncrease(chunks)
    ensures var r := RebondQueue(chunks, value); NoEmptyChunk(r) && ErasIncrease(r)
  {
    RebondTakesFromTheEnd(chunks, value);
  }

  function RebondResult(l: LedgerState, value: nat): LedgerState
  {
    var moved := Min(value, Sum(Values(l.unlocking)));
    LedgerState(l.total, l.active + moved, RebondQueue(l.unlocking, value))
  }

  // ---------- consolidate ----------

  /** Drops the chunks that have unlocked by `era`. */
  function ConsolidateResult(l: LedgerState, era: nat): LedgerState
  {
    LedgerState(SatSub(l.total, DroppedTo(l.unlocking, LockedAfter(era), |l.unlocking|)),
                l.active, Filter(l.unlocking, LockedAfter(era)))
  }

  /** Consolidation drops exactly the unlocked chunks and their value, and the total never saturates. */
  lemma ConsolidateExact(l: LedgerState, era: nat)
    requires Balanced(l)
    ensures var r := ConsolidateResult(l, era);
      && Balanced(r)
      && r.total + DroppedTo(l.unlocking, LockedAfter(era), |l.unlocking|) == l.total
      && forall c :: c in r.unlocking <==> c in l.unlocking && c.era > era
  {
    var r := ConsolidateResult(l, era);
    FilterSum(l.unlocking, LockedAfter(era), |l.unlocking|);
    FilterFrom(l.unlocking, LockedAfter(era), |l.unlocking|);
    assert l.unlocking[..|l.unlocking|] == l.unlocking;
    forall c ensures c in r.unlocking <==> c in l.unlocking && c.era > era {
      if c in l.unlocking && c.era > era {
        var i :| 0 <= i < |l.unlocking| && l.unlocking[i] == c;
        FilterKeeps(l.unlocking, LockedAfter(era), |l.unlocking|, i);
      }
    }
  }

  // ---------- bond and unbond ----------

  datatype LedgerError = NoMoreChunks | InsufficientBond | NotController

  /** `bond_extra`: adds what the stash holds beyond its ledger, up to `maxAdditional`. */
  function BondExtraResult(l: LedgerState, stashBalance: nat, maxAdditional: nat, minBalance: nat)
    : Result<LedgerState, LedgerError>
  {
    if stashBalance < l.total then Ok(l)
    else
      var extra := Min(stashBalance - l.total, maxAdditional);
      if l.active + extra < minBalance then Err(InsufficientBond)
      else Ok(LedgerState(l.total + extra, l.active + extra, l.unlocking))
  }

  /** The queue with `value` more unlocking at `era`, merged into the last chunk when eras agree. */
  function PushChunk(chunks: seq<Chunk>, value: nat, era: nat): seq<Chunk>
  {
    var n := |chunks|;
    if n > 0 && chunks[n - 1].era == era
    then chunks[n - 1 := Chunk(SatAdd(chunks[n - 1].value, value), era)]
    else chunks + [Chunk(value, era)]
  }

  /** Moves funds from active to the queue, all of them when dust would stay behind. */
  function MoveToQueue(l: LedgerState, value: nat, minBalance: nat, minActiveBond: nat, era: nat, maxChunks: nat)
    : Result<LedgerState, LedgerError>
  {
    var wanted := Min(value, l.active);
    if |l.unlocking| >= maxChunks then Err(NoMoreChunks)
    else if wanted == 0 then Ok(l)
    else
      var moved := if l.active - wanted < minBalance then l.active else wanted;
      if l.active - moved < minActiveBond then Err(InsufficientBond)
      else Ok(LedgerState(l.total, l.active - moved, PushChunk(l.unlocking, moved, era)))
  }

  /**
   * `unbond`: a full queue is first rid of its unlocked chunks; when that leaves nothing to manage the
   * stash is killed and the call then fails for want of a ledger.
   */
  function UnbondResult(l: LedgerState, value: nat, minBalance: nat, minActiveBond: nat,
                        currentEra: nat, bondingDuration: nat, maxChunks: nat): Result<LedgerState, LedgerError>
  {
    var full := |l.unlocking| == maxChunks;
    var l1 := if full then ConsolidateResult(l, currentEra) else l;
    if full && l1.unlocking == [] && l1.active < minBalance then Err(NotController)
    else MoveToQueue(l1, value, minBalance, minActiveBond, currentEra + bondingDuration, maxChunks)
  }

  lemma PushChunkSum(chunks: seq<Chunk>, value: nat, era: nat)
    requires Sum(Values(chunks)) + value <= U128_MAX
    ensures Sum(Values(PushChunk(chunks, value, era))) == Sum(Values(chunks)) + value
  {
    var n := |chunks|;
    var r := PushChunk(chunks, value, era);
    if n > 0 && chunks[n - 1].era == era {
      SumToSame(Values(r), Values(chunks), n - 1);
    } else {
      SumToSame(Values(r), Values(chunks), n);
    }
  }
}
