/** The runtime's accounts, fixed-width arithmetic and fixed-point ratios. */
module Numbers {

  /** Accounts are ordered, as their encodings are. */
  type AccountId = nat

  const U32_MAX: nat := 0xFFFF_FFFF
  const U128_MAX: nat := 0xFFFF_FFFF_FFFF_FFFF_FFFF_FFFF_FFFF_FFFF

  datatype Option<+T> = None | Some(value: T)

  datatype Result<+T, +E> = Ok(value: T) | Err(error: E)

  function Min(a: nat, b: nat): nat { if a <= b then a else b }

  function Max(a: nat, b: nat): nat { if a <= b then b else a }

  /** `saturating_add` on a 128-bit balance. */
  function SatAdd(a: nat, b: nat): nat { Min(a + b, U128_MAX) }

  /** `saturating_sub` on an unsigned balance. */
  function SatSub(a: nat, b: nat): nat { if a <= b then 0 else a - b }

  /** The least integer at or above `a / b`. */
  function CeilDiv(a: nat, b: nat): (q: nat)
    requires b > 0
    ensures q * b >= a
    ensures q > 0 ==> (q - 1) * b < a
  {
    if a % b == 0 then a / b else a / b + 1
  }

  lemma MulOrder(a: nat, b: nat, c: nat)
    requires c > 0
    ensures a <= b <==> a * c <= b * c
  {
    if a > b {
      assert a * c == b * c + (a - b) * c;
    } else {
      assert b * c == a * c + (b - a) * c;
    }
  }

  lemma MulOrderAny(a: nat, b: nat, c: nat)
    requires a <= b
    ensures a * c <= b * c
  {
    if c > 0 {
      MulOrder(a, b, c);
    }
  }

  lemma CeilDivAtMost(a: nat, b: nat, c: nat)
    requires b > 0 && a <= c * b
    ensures CeilDiv(a, b) <= c
  {
    if CeilDiv(a, b) > 0 {
      MulOrder(c, CeilDiv(a, b) - 1, b);
    }
  }

  // ---------- Perquintill: parts of 10^18, rounded up ----------

  const QUINTILL: nat := 1_000_000_000_000_000_000

  /** `Perquintill::from_rational_with_rounding(p, q, Up)`, or one when that is an error: the least such ratio. */
  function RatioUp(p: nat, q: nat): (parts: nat)
    ensures parts <= QUINTILL
    ensures p <= q ==> parts * q >= p * QUINTILL
    ensures p >= q ==> parts == QUINTILL
    ensures 0 < q && parts > 0 ==> (parts - 1) * q < p * QUINTILL
  {
    if q == 0 then QUINTILL
    else if p > q then
      MulOrderAny(q, p, QUINTILL);
      QUINTILL
    else
      CeilDivAtMost(p * QUINTILL, q, QUINTILL);
      var parts := CeilDiv(p * QUINTILL, q);
      assert p == q ==> parts >= QUINTILL by {
        MulOrder(QUINTILL, parts, q);
      }
      parts
  }

  /** `ratio.mul_ceil(x)`: the least whole amount that is no smaller. */
  function MulCeil(parts: nat, x: nat): (r: nat)
    ensures r * QUINTILL >= parts * x
    ensures r > 0 ==> (r - 1) * QUINTILL < parts * x
    ensures parts == QUINTILL ==> r == x
  {
    CeilDiv(parts * x, QUINTILL)
  }

  /** A whole quotient is not rounded. */
  lemma WholeIsExact(r: nat, q: nat, n: nat, whole: nat)
    requires q > 0 && r * q >= n && (r > 0 ==> (r - 1) * q < n) && n == whole * q
    ensures r == whole
  {
    MulOrder(whole, r, q);
    if r > whole {
      MulOrderAny(whole, r - 1, q);
    }
  }

  /** Rounding up adds less than a whole part. */
  lemma RatioUpBound(p: nat, q: nat)
    ensures RatioUp(p, q) * q <= p * QUINTILL + q
  {
    if q == 0 {
    } else if p > q {
      MulOrderAny(q, p, QUINTILL);
    }
  }

  lemma MulCeilBound(parts: nat, x: nat)
    ensures QUINTILL * MulCeil(parts, x) <= parts * x + QUINTILL
  {
  }

  // ---------- Perbill: parts of 10^9, nearest with ties down ----------

  const BILLION: nat := 1_000_000_000

  type Perbill = p: nat | p <= BILLION

  /** `a` parts of 10^9, to the nearest whole, ties down. */
  function Nearest(a: nat): (r: nat)
    ensures 2 * a - BILLION <= 2 * r * BILLION < 2 * a + BILLION
    ensures a == 0 ==> r == 0
  {
    if a % BILLION > BILLION / 2 then a / BILLION + 1 else a / BILLION
  }

  /** `Perbill * x`. */
  function PerbillOf(p: Perbill, x: nat): nat { Nearest(p * x) }

  lemma NearestMonotone(a: nat, b: nat)
    requires a <= b
    ensures Nearest(a) <= Nearest(b)
  {
  }

  /** A larger part of a larger amount is no smaller, rounding included. */
  lemma PerbillMonotone(p: Perbill, p': Perbill, x: nat, x': nat)
    requires p <= p' && x <= x'
    ensures PerbillOf(p, x) <= PerbillOf(p', x')
  {
    hide Nearest;
    MulOrderAny(p, p', x);
    MulOrderAny(x, x', p');
    NearestMonotone(p * x, p' * x');
  }

  lemma PerbillAtMost(p: Perbill, x: nat)
    ensures PerbillOf(p, x) <= x
  {
    PerbillMonotone(p, BILLION, x, x);
    assert Nearest(BILLION * x) == x;
  }
}
