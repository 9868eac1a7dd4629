/** Python's round on exact values, and the nearest double of an integer. */
module Rounding {

  // Round to the nearest integer, ties to the even one.
  function Round(x: real): (n: int)
    ensures -0.5 <= x - n as real <= 0.5
    ensures x - n as real in {-0.5, 0.5} ==> n % 2 == 0
  {
    var floor := x.Floor;
    var part := x - floor as real;
    if part < 0.5 then floor
    else if part > 0.5 then floor + 1
    else if floor % 2 == 0 then floor else floor + 1
  }

  lemma RoundOfInt(n: int)
    ensures Round(n as real) == n
  {}

  // The result lies between the integers that bound the value.
  lemma RoundBetween(x: real, low: int, high: int)
    requires low as real <= x <= high as real
    ensures low <= Round(x) <= high
  {}

  const MAX_EXACT: int := 0x20_0000_0000_0000 // 2 to the power 53

  // The double nearest to `m`, found at the first scale that can hold it.
  function Nearest(m: nat, unit: nat): int
    requires unit > 0
    decreases if m > unit then m - unit else 0
  {
    if m <= MAX_EXACT * unit then Round(m as real / unit as real) * unit
    else Nearest(m, 2 * unit)
  }

  function ToDouble(n: int): int {
    if n < 0 then -Nearest(-n, 1) else Nearest(n, 1)
  }

  // ---- Which integers are doubles, and that the nearest one is found ----

  function Pow2(k: nat): (p: nat)
    ensures p > 0
  {
    if k == 0 then 1 else 2 * Pow2(k - 1)
  }

  // A natural number with a significand of at most 53 bits.
  ghost predicate Fits(m: int, q: nat, k: nat) {
    q <= MAX_EXACT && m == q * Pow2(k)
  }

  function Abs(n: int): nat { if n < 0 then -n else n }

  ghost predicate IsDouble(n: int) {
    exists q, k :: Fits(Abs(n), q, k)
  }

  function Distance(a: int, b: int): nat { Abs(a - b) }

  lemma ScaleUp(x: real, y: real, u: real)
    requires x <= y && u > 0.0
    ensures x * u <= y * u
  {}

  lemma GapOf(m: nat, unit: nat, x: real, q: int)
    requires x * unit as real == m as real
    ensures (m - q * unit) as real == (x - q as real) * unit as real
  {
    assert (q * unit) as real == q as real * unit as real;
  }

  lemma WithinHalf(gap: int, part: real, unit: nat)
    requires unit > 0 && -0.5 <= part <= 0.5 && gap as real == part * unit as real
    ensures 2 * Abs(gap) <= unit
  {
    ScaleUp(-0.5, part, unit as real);
    ScaleUp(part, 0.5, unit as real);
  }

  lemma RoundIsWithin(m: nat, unit: nat, x: real, q: int)
    requires unit > 0 && x * unit as real == m as real && q == Round(x)
    ensures 2 * Distance(q * unit, m) <= unit
  {
    GapOf(m, unit, x, q);
    WithinHalf(m - q * unit, x - q as real, unit);
  }

  // A multiple of `unit` at most half a unit away is as near as any.
  lemma NoMultipleIsNearer(m: nat, unit: nat, q: int, j: int)
    requires 2 * Distance(q * unit, m) <= unit
    ensures Distance(q * unit, m) <= Distance(j * unit, m)
  {
    var near, other := q * unit, j * unit;
    if j != q {
      MultiplesAreApart(unit, j, q);
      assert Distance(near, m) + Distance(other, m) >= unit;
    }
  }

  lemma MultiplesAreApart(unit: nat, i: int, j: int)
    requires i != j
    ensures Distance(i * unit, j * unit) >= unit
  {
    assert i * unit - j * unit == (i - j) * unit;
    if i < j {
      assert (j - i) * unit >= unit by { AtLeastOnce(j - i, unit); }
    } else {
      assert (i - j) * unit >= unit by { AtLeastOnce(i - j, unit); }
    }
  }

  lemma {:induction false} Pow2Sum(j: nat, k: nat)
    ensures Pow2(j + k) == Pow2(j) * Pow2(k)
  {
    if j > 0 {
      Pow2Sum(j - 1, k);
    }
  }

  // At the first scale that can hold `m`, a double is a multiple of the unit or
  // too small to matter.
  lemma CoarseOrSmall(d: nat, q: nat, k: nat, u: nat)
    requires Fits(d, q, k)
    ensures (exists j: nat :: d == j * Pow2(u)) || (u > 0 && d <= MAX_EXACT * Pow2(u - 1))
  {
    if k >= u {
      Pow2Sum(k - u, u);
      assert d == (q * Pow2(k - u)) * Pow2(u);
    } else {
      Pow2Sum(u - 1 - k, k);
      assert Pow2(k) <= Pow2(u - 1) by { AtLeastOnce(Pow2(u - 1 - k), Pow2(k)); }
      Products(q, MAX_EXACT, Pow2(k), Pow2(u - 1));
    }
  }

  lemma AtLeastOnce(a: nat, b: nat)
    requires a > 0
    ensures b <= a * b
  {}

  lemma Products(a: nat, b: nat, c: nat, d: nat)
    requires a <= b && c <= d
    ensures a * c <= b * d
  {
    assert a * c <= b * c;
    assert b * c <= b * d;
  }

  lemma Quotient(m: nat, unit: nat)
    requires unit > 0 && m <= MAX_EXACT * unit
    ensures var x := m as real / unit as real;
            x * unit as real == m as real && 0 <= Round(x) <= MAX_EXACT
  {
    var x := m as real / unit as real;
    assert x * unit as real == m as real;
    assert (MAX_EXACT * unit) as real == MAX_EXACT as real * unit as real;
    RoundBetween(x, 0, MAX_EXACT);
  }

  lemma NearestHere(m: nat, u: nat, d: nat, q: nat, k: nat)
    requires m <= MAX_EXACT * Pow2(u) && (u > 0 ==> MAX_EXACT * Pow2(u - 1) < m) && Fits(d, q, k)
    ensures var r := Round(m as real / Pow2(u) as real);
            0 <= r <= MAX_EXACT && Distance(r * Pow2(u), m) <= Distance(d, m)
  {
    var unit := Pow2(u);
    var x := m as real / unit as real;
    Quotient(m, unit);
    RoundIsWithin(m, unit, x, Round(x));
    CoarseOrSmall(d, q, k, u);
    if j: nat :| d == j * unit {
      NoMultipleIsNearer(m, unit, Round(x), j);
    } else {
      var half := MAX_EXACT / 2;
      assert half * unit == MAX_EXACT * Pow2(u - 1);
      NoMultipleIsNearer(m, unit, Round(x), half);
    }
  }

  lemma {:induction false} NearestIsNearest(m: nat, u: nat, d: nat, q: nat, k: nat) returns (v: nat)
    requires (u > 0 ==> MAX_EXACT * Pow2(u - 1) < m) && Fits(d, q, k)
    ensures Nearest(m, Pow2(u)) >= 0 && Distance(Nearest(m, Pow2(u)), m) <= Distance(d, m)
    ensures exists p: nat :: Fits(Nearest(m, Pow2(u)), p, v)
    decreases if m > Pow2(u) then m - Pow2(u) else 0
  {
    if m <= MAX_EXACT * Pow2(u) {
      NearestHere(m, u, d, q, k);
      v := u;
      assert Fits(Nearest(m, Pow2(u)), Round(m as real / Pow2(u) as real), v);
    } else {
      assert Pow2(u + 1) == 2 * Pow2(u);
      v := NearestIsNearest(m, u + 1, d, q, k);
    }
  }

  /** The conversion yields a double, and no double is nearer. */
  lemma ToDoubleIsNearest(n: int, d: int)
    requires IsDouble(d)
    ensures IsDouble(ToDouble(n)) && Distance(ToDouble(n), n) <= Distance(d, n)
  {
    var m, e := Abs(n), Abs(d);
    var q, k :| Fits(e, q, k);
    var v := NearestIsNearest(m, 0, e, q, k);
    var p: nat :| Fits(Nearest(m, 1), p, v);
    assert Abs(ToDouble(n)) == Nearest(m, 1);
    assert Distance(ToDouble(n), n) == Distance(Nearest(m, 1), m) && Distance(e, m) <= Distance(d, n);
  }

  /** An integer survives the conversion exactly when its absolute value is a
      number of at most 53 bits times a power of two. */
  lemma ToDoubleExactIff(n: int)
    ensures ToDouble(n) == n <==> IsDouble(n)
  {
    assert Fits(Abs(0), 0, 0) && IsDouble(0);
    ToDoubleIsNearest(n, 0);
    if IsDouble(n) {
      ToDoubleIsNearest(n, n);
    }
  }

  // The tie at the first integer that is no double goes to the even neighbour.
  lemma FirstInexact()
    ensures ToDouble(MAX_EXACT + 1) == MAX_EXACT
  {
    var half := (MAX_EXACT + 1) as real / 2.0;
    assert half.Floor == MAX_EXACT / 2;
    assert Nearest(MAX_EXACT + 1, 1) == Nearest(MAX_EXACT + 1, 2) == MAX_EXACT;
  }

  lemma SmallIntegersAreExact(n: int)
    requires -MAX_EXACT <= n <= MAX_EXACT
    ensures ToDouble(n) == n
  {
    assert Fits(Abs(n), Abs(n), 0);
    ToDoubleExactIff(n);
  }
}
