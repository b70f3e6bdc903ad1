/**
 * The delta encoding of a stash's slashing spans: the ongoing span's start, and the lengths of the
 * spans before it, most recent first. Span `k` below is the `k`-th that iteration yields; span 0 is
 * the ongoing one.
 */
module Spans {
  import opened Numbers
  import opened Sums

  datatype Span = Span(index: nat, start: nat, length: Option<nat>)

  predicate ContainsEra(s: Span, era: nat)
  {
    s.start <= era && (s.length.Some? ==> s.start + s.length.value > era)
  }

  datatype SlashingSpans = SlashingSpans(spanIndex: nat, lastStart: nat, lastNonzeroSlash: nat, prior: seq<nat>)

  function NewSpans(windowStart: nat): SlashingSpans { SlashingSpans(0, windowStart, 0, []) }

  /** The encoding decodes without underflow, to spans of at least one era. */
  ghost predicate WellFormed(s: SlashingSpans)
  {
    && |s.prior| <= s.spanIndex
    && Sum(s.prior) <= s.lastStart
    && forall k :: 0 <= k < |s.prior| ==> s.prior[k] > 0
  }

  /** The first span index that still has a span. */
  function Earliest(s: SlashingSpans): int { s.spanIndex - |s.prior| }

  ghost predicate Live(s: SlashingSpans, i: nat) { Earliest(s) <= i <= s.spanIndex }

  lemma PriorBound(s: SlashingSpans, k: nat)
    requires WellFormed(s) && k <= |s.prior|
    ensures SumTo(s.prior, k) <= s.lastStart
  {
    SumToMonotone(s.prior, k, |s.prior|);
  }

  ghost function StartAt(s: SlashingSpans, k: nat): nat
    requires WellFormed(s) && k <= |s.prior|
  {
    PriorBound(s, k);
    s.lastStart - SumTo(s.prior, k)
  }

  ghost function SpanAt(s: SlashingSpans, k: nat): Span
    requires WellFormed(s) && k <= |s.prior|
  {
    Span(s.spanIndex - k, StartAt(s, k), if k == 0 then None else Some(s.prior[k - 1]))
  }

  /** Everything iteration yields, most recent first. */
  ghost function Decoded(s: SlashingSpans): seq<Span>
    requires WellFormed(s)
  {
    seq(1 + |s.prior|, k requires 0 <= k <= |s.prior| => SpanAt(s, k))
  }

  /** Each span ends where the next one starts, and indices are consecutive. */
  lemma Contiguous(s: SlashingSpans, k: nat)
    requires WellFormed(s) && 1 <= k <= |s.prior|
    ensures var older, newer := SpanAt(s, k), SpanAt(s, k - 1);
      && older.start + older.length.value == newer.start
      && older.length.value > 0
      && older.index + 1 == newer.index
  {
  }

  lemma {:induction false} StartsFall(s: SlashingSpans, j: nat, k: nat)
    requires WellFormed(s) && j < k <= |s.prior|
    ensures StartAt(s, k) < StartAt(s, j)
    ensures SpanAt(s, k).start + SpanAt(s, k).length.value <= StartAt(s, j)
  {
    Contiguous(s, k);
    if j >= k - 1 {
    } else {
      StartsFall(s, j, k - 1);
    }
  }

  /** No two spans share an era. */
  lemma Disjoint(s: SlashingSpans, j: nat, k: nat, era: nat)
    requires WellFormed(s) && j < k <= |s.prior|
    ensures !(ContainsEra(SpanAt(s, j), era) && ContainsEra(SpanAt(s, k), era))
  {
    StartsFall(s, j, k);
  }

  // ---------- looking an era up ----------

  /** The index of the first span from the `k`-th on that contains `era`. */
  ghost function FindFrom(s: SlashingSpans, era: nat, k: nat): Option<nat>
    requires WellFormed(s) && k <= |s.prior| + 1
    decreases |s.prior| + 1 - k
  {
    if k > |s.prior| then None
    else if ContainsEra(SpanAt(s, k), era) then Some(s.spanIndex - k)
    else FindFrom(s, era, k + 1)
  }

  ghost function Find(s: SlashingSpans, era: nat): Option<nat>
    requires WellFormed(s)
  {
    FindFrom(s, era, 0)
  }

  lemma {:induction false} FindFromSound(s: SlashingSpans, era: nat, k: nat)
    requires WellFormed(s) && k <= |s.prior| + 1
    ensures match FindFrom(s, era, k)
      case Some(i) => k <= s.spanIndex - i <= |s.prior| && ContainsEra(SpanAt(s, s.spanIndex - i), era)
      case None => forall j :: k <= j <= |s.prior| ==> !ContainsEra(SpanAt(s, j), era)
    decreases |s.prior| + 1 - k
  {
    if k > |s.prior| {
    } else {
      FindFromSound(s, era, k + 1);
    }
  }

  /** The lookup finds a span exactly when one contains the era, and then it is the only one. */
  lemma FindExact(s: SlashingSpans, era: nat, k: nat)
    requires WellFormed(s) && k <= |s.prior|
    ensures Find(s, era) == Some(s.spanIndex - k) <==> ContainsEra(SpanAt(s, k), era)
    ensures Find(s, era).Some? ==> Live(s, Find(s, era).value)
  {
    FindFromSound(s, era, 0);
    if ContainsEra(SpanAt(s, k), era) {
      var j := s.spanIndex - Find(s, era).value;
      if j < k {
        Disjoint(s, j, k, era);
      } else if k < j {
        Disjoint(s, k, j, era);
      }
    }
  }

  /** Eras are found exactly from the start of the earliest span on. */
  lemma {:induction false} FindDomain(s: SlashingSpans, era: nat, k: nat)
    requires WellFormed(s) && k <= |s.prior|
    ensures StartAt(s, k) <= era ==> Find(s, era).Some? && s.spanIndex - k <= Find(s, era).value
    ensures era < StartAt(s, |s.prior|) ==> Find(s, era).None?
    decreases k
  {
    FindExact(s, era, k);
    FindFromSound(s, era, 0);
    if k > 0 && StartAt(s, k) <= era && !ContainsEra(SpanAt(s, k), era) {
      Contiguous(s, k);
      FindDomain(s, era, k - 1);
    }
    if Find(s, era).Some? {
      var j := s.spanIndex - Find(s, era).value;
      if j < |s.prior| {
        StartsFall(s, j, |s.prior|);
      }
    }
  }

  // ---------- ending the ongoing span ----------

  /** Ends the ongoing span after era `now`; a span that starts later is left alone. */
  function EndSpan(s: SlashingSpans, now: nat): (r: (SlashingSpans, bool))
  {
    if now + 1 <= s.lastStart then (s, false)
    else (SlashingSpans(s.spanIndex + 1, now + 1, s.lastNonzeroSlash, [now + 1 - s.lastStart] + s.prior), true)
  }

  lemma EndSpanSum(s: SlashingSpans, now: nat, k: nat)
    requires EndSpan(s, now).1 && k <= |s.prior|
    ensures SumTo(EndSpan(s, now).0.prior, k + 1) == now + 1 - s.lastStart + SumTo(s.prior, k)
  {
    var d := [now + 1 - s.lastStart];
    SumConcatTo(d, s.prior, k);
    assert Sum(d) == SumTo(d, 0) + d[0];
  }

  lemma EndSpanWellFormed(s: SlashingSpans, now: nat)
    requires WellFormed(s)
    ensures WellFormed(EndSpan(s, now).0) && Earliest(EndSpan(s, now).0) == Earliest(s)
  {
    if EndSpan(s, now).1 {
      EndSpanSum(s, now, |s.prior|);
    }
  }

  lemma EndSpanDecoded(s: SlashingSpans, now: nat, k: nat)
    requires WellFormed(s) && EndSpan(s, now).1 && k <= |s.prior|
    ensures WellFormed(EndSpan(s, now).0)
    ensures var e := EndSpan(s, now).0;
      SpanAt(e, k + 1) == if k == 0 then Span(s.spanIndex, s.lastStart, Some(now + 1 - s.lastStart)) else SpanAt(s, k)
  {
    EndSpanWellFormed(s, now);
    EndSpanSum(s, now, k);
  }

  /** Ending a span moves only the eras after `now` to a new index. */
  lemma EndSpanKeepsIndices(s: SlashingSpans, now: nat, era: nat)
    requires WellFormed(s)
    ensures WellFormed(EndSpan(s, now).0)
    ensures Find(EndSpan(s, now).0, era)
         == if EndSpan(s, now).1 && era > now then Some(s.spanIndex + 1) else Find(s, era)
  {
    EndSpanWellFormed(s, now);
    var e := EndSpan(s, now).0;
    if EndSpan(s, now).1 {
      FindExact(e, era, 0);
      if era <= now {
        FindFromSound(s, era, 0);
        FindFromSound(e, era, 0);
        if Find(s, era).Some? {
          var k := s.spanIndex - Find(s, era).value;
          EndSpanDecoded(s, now, k);
          FindExact(e, era, k + 1);
        } else if Find(e, era).Some? {
          var k := e.spanIndex - Find(e, era).value - 1;
          EndSpanDecoded(s, now, k);
        }
      }
    }
  }

  // ---------- pruning ----------

  /** Does the `k`-th span end at or before the window? */
  ghost predicate Old(s: SlashingSpans, windowStart: nat, k: nat)
    requires WellFormed(s) && 1 <= k <= |s.prior|
  {
    StartAt(s, k) + s.prior[k - 1] <= windowStart
  }

  /** The number of closed spans before the first old one. */
  ghost function KeptFrom(s: SlashingSpans, windowStart: nat, k: nat): (o: nat)
    requires WellFormed(s) && k <= |s.prior|
    ensures k <= o <= |s.prior|
    ensures forall j :: k < j <= o ==> !Old(s, windowStart, j)
    ensures o < |s.prior| ==> Old(s, windowStart, o + 1)
    decreases |s.prior| - k
  {
    if k == |s.prior| || Old(s, windowStart, k + 1) then k else KeptFrom(s, windowStart, k + 1)
  }

  /** Drops the old closed spans and moves the ongoing one's start up to the window. */
  ghost function Prune(s: SlashingSpans, windowStart: nat): (r: (SlashingSpans, Option<(nat, nat)>))
    requires WellFormed(s)
  {
    var kept := KeptFrom(s, windowStart, 0);
    var pruned := if kept == |s.prior| then None else Some((s.spanIndex - |s.prior|, s.spanIndex - kept));
    (s.(prior := s.prior[..kept], lastStart := Max(s.lastStart, windowStart)), pruned)
  }

  /** Everything from the first old span back is old. */
  lemma OldOnwards(s: SlashingSpans, windowStart: nat, j: nat, k: nat)
    requires WellFormed(s) && 1 <= j <= k <= |s.prior| && Old(s, windowStart, j)
    ensures Old(s, windowStart, k)
  {
    if j < k {
      Contiguous(s, j);
      StartsFall(s, j, k);
    }
  }

  /** When the ongoing span is moved up no closed span is left. */
  lemma PruneMovesAlone(s: SlashingSpans, windowStart: nat)
    requires WellFormed(s) && s.lastStart < windowStart
    ensures Prune(s, windowStart).0.prior == []
  {
    if s.prior != [] {
      Contiguous(s, 1);
      assert Old(s, windowStart, 1);
    }
  }

  lemma PruneWellFormed(s: SlashingSpans, windowStart: nat)
    requires WellFormed(s)
    ensures WellFormed(Prune(s, windowStart).0)
    ensures Prune(s, windowStart).0.spanIndex == s.spanIndex
    ensures match Prune(s, windowStart).1
      case None => Earliest(Prune(s, windowStart).0) == Earliest(s)
      case Some((a, b)) => a == Earliest(s) < b == Earliest(Prune(s, windowStart).0)
  {
    var kept := KeptFrom(s, windowStart, 0);
    SumSplit(s.prior, kept);
  }

  /** Pruning removes exactly the closed spans that end by the window, and reports exactly their indices. */
  lemma PruneExact(s: SlashingSpans, windowStart: nat, k: nat)
    requires WellFormed(s) && 1 <= k <= |s.prior|
    ensures var (r, pruned) := Prune(s, windowStart);
      && WellFormed(r)
      && (Old(s, windowStart, k) <==> pruned.Some? && pruned.value.0 <= s.spanIndex - k < pruned.value.1)
      && (!Old(s, windowStart, k) <==> k <= |r.prior|)
      && (k <= |r.prior| ==> SpanAt(r, k) == SpanAt(s, k))
  {
    PruneWellFormed(s, windowStart);
    var r := Prune(s, windowStart).0;
    var kept := |r.prior|;
    if k > kept {
      OldOnwards(s, windowStart, kept + 1, k);
    } else {
      if s.lastStart < windowStart {
        PruneMovesAlone(s, windowStart);
      }
      SumToSame(r.prior, s.prior, k);
    }
  }

  /** Eras inside the window keep their span; of the others, those in a pruned or moved span lose it. */
  lemma PruneKeepsIndices(s: SlashingSpans, windowStart: nat, era: nat)
    requires WellFormed(s)
    ensures WellFormed(Prune(s, windowStart).0)
    ensures var (r, pruned) := Prune(s, windowStart);
      Find(r, era) == match Find(s, era)
        case None => None
        case Some(i) =>
          if pruned.Some? && pruned.value.0 <= i < pruned.value.1 then None
          else if i == s.spanIndex && era < windowStart then None
          else Some(i)
    ensures era >= windowStart ==> Find(Prune(s, windowStart).0, era) == Find(s, era)
  {
    PruneWellFormed(s, windowStart);
    var r := Prune(s, windowStart).0;
    FindFromSound(s, era, 0);
    FindFromSound(r, era, 0);
    FindExact(s, era, 0);
    FindExact(r, era, 0);
    if Find(s, era).Some? && Find(s, era).value < s.spanIndex {
      var k := s.spanIndex - Find(s, era).value;
      PruneExact(s, windowStart, k);
      if k <= |r.prior| {
        FindExact(r, era, k);
      }
    }
    if Find(r, era).Some? && Find(r, era).value < s.spanIndex {
      var k := s.spanIndex - Find(r, era).value;
      PruneExact(s, windowStart, k);
      FindExact(s, era, k);
    }
  }
}
