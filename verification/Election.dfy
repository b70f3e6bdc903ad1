/** Ranking candidates by weight, and picking a sorted council out of the ranking. */
module Election {
  import opened Numbers

  ghost predicate StrictlySorted(s: seq<AccountId>)
  {
    forall i, j :: 0 <= i < j < |s| ==> s[i] < s[j]
  }

  function Elements(s: seq<AccountId>): set<AccountId>
  {
    set x | x in s
  }

  ghost predicate Least(s: set<AccountId>, x: AccountId)
  {
    x in s && forall y :: y in s ==> x <= y
  }

  lemma {:induction false} LeastExists(s: set<AccountId>) returns (m: AccountId)
    requires s != {}
    ensures Least(s, m)
    decreases |s|
  {
    var x :| x in s;
    m := x;
    if s - {x} != {} {
      var z := LeastExists(s - {x});
      m := if x < z then x else z;
      forall y | y in s ensures m <= y {
        if y != x {
          assert y in s - {x};
        }
      }
    } else {
      assert s == {x};
    }
  }

  ghost function LeastOf(s: set<AccountId>): (x: AccountId)
    requires s != {}
    ensures Least(s, x)
  {
    LeastWitness(s);
    var x :| Least(s, x);
    x
  }

  lemma LeastWitness(s: set<AccountId>)
    requires s != {}
    ensures exists x :: Least(s, x)
  {
    var x := LeastExists(s);
  }

  /** The elements of a set in ascending order: how an ordered map yields its keys, and `sort`. */
  ghost function Ascending(s: set<AccountId>): (r: seq<AccountId>)
    ensures |r| == |s|
  {
    if s == {} then [] else [LeastOf(s)] + Ascending(s - {LeastOf(s)})
  }

  lemma {:induction false} AscendingElements(s: set<AccountId>)
    ensures forall x :: x in Ascending(s) <==> x in s
    ensures Elements(Ascending(s)) == s
    decreases |s|
  {
    if s == {} {
    } else {
      var x := LeastOf(s);
      AscendingElements(s - {x});
    }
  }

  lemma {:induction false} AscendingSorted(s: set<AccountId>)
    ensures StrictlySorted(Ascending(s))
    decreases |s|
  {
    if s == {} {
    } else {
      var x := LeastOf(s);
      var rest := Ascending(s - {x});
      AscendingSorted(s - {x});
      AscendingElements(s - {x});
      forall i | 0 <= i < |rest| ensures x < rest[i] {
        assert rest[i] in rest;
      }
    }
  }

  // ---------- ranking ----------

  /** Heavier first; ties go to the smaller account. */
  predicate Beats(w: map<AccountId, nat>, a: AccountId, b: AccountId)
    requires a in w && b in w
  {
    w[a] > w[b] || (w[a] == w[b] && a < b)
  }

  lemma BeatsOneWay(w: map<AccountId, nat>, a: AccountId, b: AccountId)
    requires a in w && b in w
    ensures !(Beats(w, a, b) && Beats(w, b, a))
  {
  }

  ghost predicate Ranked(w: map<AccountId, nat>, s: seq<AccountId>)
  {
    && (forall i :: 0 <= i < |s| ==> s[i] in w)
    && forall i, j :: 0 <= i < j < |s| ==> Beats(w, s[i], s[j])
  }

  /** Where a stable sort by falling weight puts an element that came first. */
  function Insert(w: map<AccountId, nat>, x: AccountId, s: seq<AccountId>): (r: seq<AccountId>)
    requires x in w && forall i :: 0 <= i < |s| ==> s[i] in w
    ensures |r| == |s| + 1 && forall i :: 0 <= i < |r| ==> r[i] in w
  {
    if s == [] || w[x] >= w[s[0]] then [x] + s else [s[0]] + Insert(w, x, s[1..])
  }

  /** The stable sort by falling weight. */
  function SortByWeight(w: map<AccountId, nat>, s: seq<AccountId>): (r: seq<AccountId>)
    requires forall i :: 0 <= i < |s| ==> s[i] in w
    ensures |r| == |s| && forall i :: 0 <= i < |r| ==> r[i] in w
  {
    if s == [] then []
    else Insert(w, s[0], SortByWeight(w, s[1..]))
  }

  lemma {:induction false} InsertElements(w: map<AccountId, nat>, x: AccountId, s: seq<AccountId>)
    requires x in w && forall i :: 0 <= i < |s| ==> s[i] in w
    ensures forall y :: y in Insert(w, x, s) <==> y == x || y in s
  {
    if s == [] || w[x] >= w[s[0]] {
    } else {
      InsertElements(w, x, s[1..]);
      assert s == [s[0]] + s[1..];
    }
  }

  lemma {:induction false} InsertRanked(w: map<AccountId, nat>, x: AccountId, s: seq<AccountId>)
    requires x in w && Ranked(w, s) && forall i :: 0 <= i < |s| ==> x < s[i]
    ensures Ranked(w, Insert(w, x, s))
  {
    if s == [] || w[x] >= w[s[0]] {
    } else {
      var rest := Insert(w, x, s[1..]);
      InsertRanked(w, x, s[1..]);
      InsertElements(w, x, s[1..]);
      forall i | 0 <= i < |rest| ensures Beats(w, s[0], rest[i]) {
        assert rest[i] in rest;
      }
    }
  }

  lemma {:induction false} SortElements(w: map<AccountId, nat>, s: seq<AccountId>)
    requires forall i :: 0 <= i < |s| ==> s[i] in w
    ensures forall y :: y in SortByWeight(w, s) <==> y in s
  {
    if s == [] {
    } else {
      SortElements(w, s[1..]);
      InsertElements(w, s[0], SortByWeight(w, s[1..]));
      assert s == [s[0]] + s[1..];
    }
  }

  lemma {:induction false} SortRanked(w: map<AccountId, nat>, s: seq<AccountId>)
    requires StrictlySorted(s) && forall i :: 0 <= i < |s| ==> s[i] in w
    ensures Ranked(w, SortByWeight(w, s))
  {
    if s == [] {
    } else {
      var rest := SortByWeight(w, s[1..]);
      SortRanked(w, s[1..]);
      SortElements(w, s[1..]);
      forall i | 0 <= i < |rest| ensures s[0] < rest[i] {
        assert rest[i] in rest;
      }
      InsertRanked(w, s[0], rest);
    }
  }

  // ---------- winners ----------

  /** The tallied accounts, best first. */
  ghost function Ranking(tally: map<AccountId, nat>): (r: seq<AccountId>)
    ensures |r| == |tally.Keys|
  {
    AscendingElements(tally.Keys);
    SortByWeight(tally, Ascending(tally.Keys))
  }

  lemma RankingExact(tally: map<AccountId, nat>)
    ensures Ranked(tally, Ranking(tally))
    ensures forall x :: x in Ranking(tally) <==> x in tally
  {
    AscendingElements(tally.Keys);
    AscendingSorted(tally.Keys);
    SortRanked(tally, Ascending(tally.Keys));
    SortElements(tally, Ascending(tally.Keys));
  }

  /** The `max` best of the tally. */
  ghost function Winners(tally: map<AccountId, nat>, max: nat): set<AccountId>
  {
    Elements(Ranking(tally)[..Min(max, |tally.Keys|)])
  }

  lemma PrefixBeatsRest(w: map<AccountId, nat>, s: seq<AccountId>, k: nat, a: AccountId, b: AccountId)
    requires Ranked(w, s) && k <= |s| && a in s[..k] && b in s && b !in s[..k]
    ensures a in w && b in w && Beats(w, a, b)
  {
    var i :| 0 <= i < k && s[..k][i] == a;
    var j :| 0 <= j < |s| && s[j] == b;
    assert s[i] == a;
  }

  /** As many winners as seats and candidates allow, and nobody left out beats a winner. */
  lemma WinnersAreBest(tally: map<AccountId, nat>, max: nat)
    ensures var ws := Winners(tally, max);
      && ws <= tally.Keys
      && |ws| == Min(max, |tally.Keys|)
      && forall a, b :: a in ws && b in tally.Keys - ws ==> Beats(tally, a, b)
  {
    var ranking, k := Ranking(tally), Min(max, |tally.Keys|);
    var ws := Winners(tally, max);
    RankingExact(tally);
    hide Ranking;
    RankedSize(tally, ranking[..k]);
    forall a | a in ws ensures a in tally {
      assert a in ranking;
    }
    forall a, b | a in ws && b in tally.Keys - ws ensures Beats(tally, a, b) {
      PrefixBeatsRest(tally, ranking, k, a, b);
    }
  }

  lemma {:induction false} RankedSize(w: map<AccountId, nat>, s: seq<AccountId>)
    requires Ranked(w, s)
    ensures |Elements(s)| == |s|
  {
    if s == [] {
      assert Elements(s) == {};
    } else {
      var n := |s| - 1;
      RankedSize(w, s[..n]);
      assert s[n] !in s[..n];
      assert s == s[..n] + [s[n]];
      assert Elements(s) == Elements(s[..n]) + {s[n]};
    }
  }

  /** Those properties leave no choice. */
  lemma WinnersUnique(tally: map<AccountId, nat>, max: nat, v: set<AccountId>)
    requires v <= tally.Keys && |v| == Min(max, |tally.Keys|)
    requires forall a, b :: a in v && b in tally.Keys - v ==> Beats(tally, a, b)
    ensures v == Winners(tally, max)
  {
    var ws := Winners(tally, max);
    WinnersAreBest(tally, max);
    if v != ws {
      SameSizeDifferent(v, ws);
      var a :| a in v - ws;
      var b :| b in ws - v;
      BeatsOneWay(tally, a, b);
    }
  }

  lemma SameSizeDifferent(a: set<AccountId>, b: set<AccountId>)
    requires |a| == |b| && a != b
    ensures a - b != {} && b - a != {}
  {
    assert |a| == |a - b| + |a * b| by { assert a == (a - b) + (a * b); }
    assert |b| == |b - a| + |b * a| by { assert b == (b - a) + (b * a); }
    assert a * b == b * a;
    assert a - b == {} && b - a == {} ==> a == b;
  }

  // ---------- membership by binary search ----------

  /** Does a binary search of `s[lo..hi]` find `x`? */
  predicate SearchFinds(s: seq<AccountId>, x: AccountId, lo: nat, hi: nat)
    requires lo <= hi <= |s|
    decreases hi - lo
  {
    if lo == hi then false
    else
      var mid := lo + (hi - lo) / 2;
      if s[mid] == x then true
      else if s[mid] < x then SearchFinds(s, x, mid + 1, hi)
      else SearchFinds(s, x, lo, mid)
  }

  /** On a sorted list the search is exact. */
  lemma {:induction false} SearchExact(s: seq<AccountId>, x: AccountId, lo: nat, hi: nat)
    requires StrictlySorted(s) && lo <= hi <= |s|
    ensures SearchFinds(s, x, lo, hi) <==> exists i :: lo <= i < hi && s[i] == x
    decreases hi - lo
  {
    if lo >= hi {
    } else {
      var mid := lo + (hi - lo) / 2;
      if s[mid] < x {
        SearchExact(s, x, mid + 1, hi);
      } else if s[mid] > x {
        SearchExact(s, x, lo, mid);
      }
    }
  }
}
