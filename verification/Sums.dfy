/** Finite sums over sequences and over sets. */
module Sums {

  /** The sum of the first `k` elements. */
  function SumTo(s: seq<nat>, k: nat): nat
    requires k <= |s|
  {
    if k == 0 then 0 else SumTo(s, k - 1) + s[k - 1]
  }

  function Sum(s: seq<nat>): nat { SumTo(s, |s|) }

  lemma {:induction false} SumToSame(s: seq<nat>, t: seq<nat>, k: nat)
    requires k <= |s| && k <= |t|
    requires forall i :: 0 <= i < k ==> s[i] == t[i]
    ensures SumTo(s, k) == SumTo(t, k)
  {
    if k == 0 {
    } else {
      SumToSame(s, t, k - 1);
    }
  }

  lemma {:induction false} SumConcatTo(a: seq<nat>, b: seq<nat>, k: nat)
    requires k <= |b|
    ensures SumTo(a + b, |a| + k) == Sum(a) + SumTo(b, k)
  {
    if k == 0 {
      SumToSame(a + b, a, |a|);
    } else {
      SumConcatTo(a, b, k - 1);
    }
  }

  lemma SumConcat(a: seq<nat>, b: seq<nat>)
    ensures Sum(a + b) == Sum(a) + Sum(b)
  {
    SumConcatTo(a, b, |b|);
  }

  lemma SumNone()
    ensures Sum([]) == 0
  {
  }

  lemma SumOneMore(s: seq<nat>, x: nat)
    ensures Sum(s + [x]) == Sum(s) + x
  {
    SumToSame(s + [x], s, |s|);
  }

  lemma SumSplit(s: seq<nat>, k: nat)
    requires k <= |s|
    ensures Sum(s) == Sum(s[..k]) + Sum(s[k..])
    ensures SumTo(s, k) == Sum(s[..k])
  {
    assert s == s[..k] + s[k..];
    SumConcat(s[..k], s[k..]);
    SumToSame(s, s[..k], k);
  }

  lemma {:induction false} SumToMonotone(s: seq<nat>, j: nat, k: nat)
    requires j <= k <= |s|
    ensures SumTo(s, j) <= SumTo(s, k)
  {
    if j == k {
    } else {
      SumToMonotone(s, j, k - 1);
    }
  }

  function Reverse<T>(s: seq<T>): (r: seq<T>)
    ensures |r| == |s|
    ensures forall i :: 0 <= i < |s| ==> r[i] == s[|s| - 1 - i]
  {
    seq(|s|, i requires 0 <= i < |s| => s[|s| - 1 - i])
  }

  lemma {:induction false} SumReverse(s: seq<nat>)
    ensures Sum(Reverse(s)) == Sum(s)
  {
    if s == [] {
    } else {
      var init, last := s[..|s| - 1], s[|s| - 1];
      SumReverse(init);
      assert Reverse(s) == [last] + Reverse(init);
      SumConcat([last], Reverse(init));
      SumToSame(s, init, |s| - 1);
      assert Sum([last]) == SumTo([last], 0) + last;
    }
  }

  // ---------- sums over sets ----------

  ghost function SumOver<K(!new)>(s: set<K>, f: K -> nat): nat
  {
    if s == {} then 0
    else
      var x :| x in s;
      f(x) + SumOver(s - {x}, f)
  }

  /** The order in which the elements are taken does not matter. */
  lemma {:induction false} SumOverRemove<K(!new)>(s: set<K>, f: K -> nat, x: K)
    requires x in s
    ensures SumOver(s, f) == f(x) + SumOver(s - {x}, f)
    decreases |s|
  {
    var y :| y in s && SumOver(s, f) == f(y) + SumOver(s - {y}, f);
    if y == x {
    } else {
      SumOverRemove(s - {y}, f, x);
      SumOverRemove(s - {x}, f, y);
      assert s - {y} - {x} == s - {x} - {y};
    }
  }

  lemma SumOverInsert<K(!new)>(s: set<K>, f: K -> nat, x: K)
    requires x !in s
    ensures SumOver(s + {x}, f) == f(x) + SumOver(s, f)
  {
    SumOverRemove(s + {x}, f, x);
    assert s + {x} - {x} == s;
  }

  lemma {:induction false} SumOverSame<K(!new)>(s: set<K>, f: K -> nat, g: K -> nat)
    requires forall x :: x in s ==> f(x) == g(x)
    ensures SumOver(s, f) == SumOver(s, g)
    decreases |s|
  {
    if s == {} {
    } else {
      var x :| x in s;
      SumOverRemove(s, f, x);
      SumOverRemove(s, g, x);
      SumOverSame(s - {x}, f, g);
    }
  }

  /** Changing one summand changes the sum by the difference. */
  lemma SumOverChange<K(!new)>(s: set<K>, f: K -> nat, g: K -> nat, x: K)
    requires x in s
    requires forall y :: y in s && y != x ==> f(y) == g(y)
    ensures SumOver(s, g) + f(x) == SumOver(s, f) + g(x)
  {
    SumOverRemove(s, f, x);
    SumOverRemove(s, g, x);
    SumOverSame(s - {x}, f, g);
  }

  lemma {:induction false} SumOverAt<K(!new)>(s: set<K>, f: K -> nat, x: K)
    requires x in s
    ensures f(x) <= SumOver(s, f)
  {
    SumOverRemove(s, f, x);
  }

  lemma {:induction false} SumOverScale<K(!new)>(s: set<K>, f: K -> nat, g: K -> nat, factor: nat)
    requires forall x :: x in s ==> f(x) <= factor * g(x)
    ensures SumOver(s, f) <= factor * SumOver(s, g)
    decreases |s|
  {
    if s == {} {
    } else {
      var x :| x in s;
      SumOverRemove(s, f, x);
      SumOverRemove(s, g, x);
      SumOverScale(s - {x}, f, g, factor);
      assert factor * (g(x) + SumOver(s - {x}, g)) == factor * g(x) + factor * SumOver(s - {x}, g);
    }
  }
}
