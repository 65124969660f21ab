/** Fixed-point decimals with 18 fractional digits, held as integers in last-place units. */
module Decimals {

  type Dec = int

  const ONE: Dec := 1_000_000_000_000_000_000
  const HALF: Dec := 500_000_000_000_000_000

  /** Integer division towards zero. */
  function TruncDiv(a: int, b: int): int
    requires b != 0
  {
    if b < 0 then TruncDivPos(-a, -b) else TruncDivPos(a, b)
  }

  function TruncDivPos(a: int, b: int): int
    requires b > 0
  {
    if a >= 0 then a / b else -((-a) / b)
  }

  /** Dropping 18 digits, rounding half to even, symmetrically about zero. */
  function Round(n: int): int {
    if n < 0 then 0 - RoundNat(0 - n) else RoundNat(n)
  }

  function RoundNat(n: nat): nat {
    var q, r := n / ONE, n % ONE;
    if r < HALF || (r == HALF && q % 2 == 0) then q else q + 1
  }

  function Mul(a: Dec, b: Dec): Dec { Round(a * b) }

  function Quo(a: Dec, b: Dec): Dec
    requires b != 0
  {
    Round(TruncDiv(a * ONE * ONE, b))
  }

  function QuoInt(a: Dec, n: int): Dec
    requires n != 0
  {
    TruncDiv(a, n)
  }

  function MulInt(a: Dec, n: int): Dec { a * n }

  function FromInt(n: int): Dec { n * ONE }

  /** The whole part, towards zero. */
  function Whole(a: Dec): int { TruncDiv(a, ONE) }

  function Remainder(a: Dec): Dec { a - Whole(a) * ONE }

  // ---- rounding

  lemma RoundNatError(n: nat)
    ensures -HALF <= n - ONE * RoundNat(n) <= HALF
  {
  }

  lemma RoundError(n: int)
    ensures -HALF <= n - ONE * Round(n) <= HALF
  {
    RoundNatError(if n < 0 then -n else n);
  }

  /** It is the nearest whole number, the even one of two that are as near. */
  lemma RoundIsNearest(n: int, k: int)
    requires -HALF <= n - ONE * k <= HALF
    requires n - ONE * k == HALF || n - ONE * k == -HALF ==> k % 2 == 0
    ensures Round(n) == k
  {
    if n >= 0 { NearestNat(n, k); } else { NearestNat(-n, -k); }
  }

  lemma NearestNat(n: nat, k: int)
    requires -HALF <= n - ONE * k <= HALF
    requires n - ONE * k == HALF || n - ONE * k == -HALF ==> k % 2 == 0
    ensures RoundNat(n) == k
  {
    assert n == ONE * (n / ONE) + n % ONE;
    assert k == n / ONE || k == n / ONE + 1;
  }

  lemma RoundExact(k: int)
    ensures Round(k * ONE) == k
  {
  }

  lemma RoundNatMonotone(a: nat, b: nat)
    requires a <= b
    ensures RoundNat(a) <= RoundNat(b)
  {
    if a / ONE == b / ONE {
    } else {
      assert a / ONE + 1 <= b / ONE;
    }
  }

  lemma RoundMonotone(a: int, b: int)
    requires a <= b
    ensures Round(a) <= Round(b)
  {
    if a >= 0 { RoundNatMonotone(a, b); }
    else if b < 0 { RoundNatMonotone(-b, -a); }
  }

  // ---- truncating division

  lemma DivisionBounds(a: nat, b: nat)
    requires b > 0
    ensures (a / b) * b <= a < (a / b + 1) * b
  {
    assert a == (a / b) * b + a % b;
  }

  /** Towards zero, whatever the signs. */
  lemma TruncDivIs(a: int, b: int)
    requires b > 0
    ensures a >= 0 ==> 0 <= a - TruncDiv(a, b) * b < b
    ensures a <= 0 ==> 0 <= TruncDiv(a, b) * b - a < b
    ensures TruncDiv(-a, -b) == TruncDiv(a, b) && TruncDiv(a, -b) == -TruncDiv(a, b)
  {
    if a >= 0 { DivisionBounds(a, b); } else { DivisionBounds(-a, b); }
  }

  lemma DivAtMost(a: nat, b: nat, c: int)
    requires b > 0 && a < (c + 1) * b
    ensures a / b <= c
  {
    DivisionBounds(a, b);
    LessCancels(a / b, c + 1, b);
  }

  lemma LessCancels(x: int, y: int, b: nat)
    requires b > 0 && x * b < y * b
    ensures x < y
  {
    if x >= y { MulAtLeast(x, y, b); }
  }

  lemma MulAtLeast(x: int, y: int, b: nat)
    requires x >= y
    ensures x * b >= y * b
  {
  }

  lemma DivAntitone(a: nat, b: nat, d: nat)
    requires 0 < b <= d
    ensures a / d <= a / b
  {
    DivisionBounds(a, b);
    assert (a / b + 1) * b <= (a / b + 1) * d;
    DivAtMost(a, d, a / b);
  }

  lemma DivMonotone(a: nat, a': nat, b: nat)
    requires a <= a' && b > 0
    ensures a / b <= a' / b
  {
    DivisionBounds(a', b);
    DivAtMost(a, b, a' / b);
  }

  lemma QuoIs(a: Dec, b: Dec) returns (n: nat, q: nat)
    requires a >= 0 && b > 0
    ensures n == a * ONE * ONE && q == n / b && Quo(a, b) == Round(q)
  {
    n := a * ONE * ONE;
    q := n / b;
  }

  lemma QuoMonotone(a: Dec, a': Dec, b: Dec)
    requires 0 <= a <= a' && b > 0
    ensures 0 <= Quo(a, b) <= Quo(a', b)
  {
    var n, q := QuoIs(a, b);
    var n', q' := QuoIs(a', b);
    DivMonotone(n, n', b);
    RoundMonotone(q, q');
    RoundMonotone(0, q);
  }

  /** Dividing by more gives no more. */
  lemma QuoAntitone(a: Dec, b: Dec, d: Dec)
    requires a >= 0 && 0 < b <= d
    ensures 0 <= Quo(a, d) <= Quo(a, b)
  {
    var n, q := QuoIs(a, b);
    var _, q' := QuoIs(a, d);
    DivAntitone(n, b, d);
    RoundMonotone(q', q);
    RoundMonotone(0, q');
  }

  /** Each quotient is off by at most one last-place unit. */
  lemma QuoError(a: Dec, b: Dec)
    requires b > 0
    ensures -b <= a * ONE - Quo(a, b) * b <= b
  {
    var t := TruncDiv(a * ONE * ONE, b);
    RoundError(t);
    var q := Quo(a, b);
    TruncError(a * ONE * ONE, b);
    assert -b < a * ONE * ONE - t * b < b;
    assert -HALF * b <= (t - ONE * q) * b <= HALF * b by { Scale(t - ONE * q, b); }
    assert (t - ONE * q) * b == t * b - ONE * (q * b) by { Distribute(t, q, b); }
    assert -(HALF + 1) * b <= ONE * (a * ONE - q * b) <= (HALF + 1) * b;
    QuoErrorStep(a * ONE - q * b, b);
  }

  lemma Scale(e: int, b: int)
    requires b > 0 && -HALF <= e <= HALF
    ensures -HALF * b <= e * b <= HALF * b
  {
    MulAtLeast(e, -HALF, b);
    MulAtLeast(HALF, e, b);
  }

  lemma Distribute(t: int, q: int, b: int)
    ensures (t - ONE * q) * b == t * b - ONE * (q * b)
  {
    assert ONE * q * b == ONE * (q * b);
  }

  lemma QuoErrorStep(d: int, b: int)
    requires b > 0 && -(HALF + 1) * b <= ONE * d <= (HALF + 1) * b
    ensures -b <= d <= b
  {
  }

  lemma TruncError(n: int, b: int)
    requires b > 0
    ensures -b < n - TruncDiv(n, b) * b < b
  {
    if n >= 0 { DivisionBounds(n, b); } else { DivisionBounds(-n, b); }
  }
}
