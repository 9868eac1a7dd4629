/** The sRGB transfer curve on byte channels. Its power 2.4 is irrational, so a
    curve is any function within a relative error of the real one, an error far
    larger than that of floating point: y is the power 2.4 of t when the fifth
    power of y is the twelfth power of t. */
module Curve {

  const TOLERANCE: real := 0.0001

  function Sq(x: real): real { x * x }

  function Product(factors: seq<real>): real {
    if factors == [] then 1.0 else factors[0] * Product(factors[1..])
  }

  function Power(x: real, n: nat): real {
    Product(seq(n, _ => x))
  }

  function Pow5(y: real): real { Power(y, 5) }

  function Pow12(t: real): real { Power(t, 12) }

  predicate IsByte(c: int) { 0 <= c <= 255 }

  function Base(c: int): real {
    (c as real / 255.0 + 0.055) / 1.055
  }

  predicate IsLinearPart(c: int) {
    c as real / 255.0 <= 0.03928
  }

  // The power 2.4 of t lies between low and high, and so does y.
  predicate Brackets(t: real, low: real, high: real, y: real) {
    0.0 < low <= y <= high <= (1.0 + TOLERANCE) * low && Pow5(low) <= Pow12(t) <= Pow5(high)
  }

  ghost predicate IsChannel(c: int, y: real) {
    if IsLinearPart(c) then y == c as real / 255.0 / 12.92
    else (c == 255 ==> y == 1.0) && exists low, high :: Brackets(Base(c), low, high, y)
  }

  ghost predicate IsCurve(f: int -> real) {
    forall c :: IsByte(c) ==> IsChannel(c, f(c))
  }

  // ---- Powers ----

  lemma MulMono(a: real, b: real, c: real, d: real)
    requires 0.0 <= a <= b && 0.0 <= c <= d
    ensures 0.0 <= a * c <= b * d
  {
    assert a * c <= b * c && b * c <= b * d;
  }

  lemma PowerStep(x: real, n: nat)
    ensures Power(x, 0) == 1.0 && Power(x, n + 1) == x * Power(x, n)
  {
    assert seq(n + 1, _ => x)[1..] == seq(n, _ => x);
  }

  lemma PowerAdd(x: real, m: nat, n: nat)
    ensures Power(x, m + n) == Power(x, m) * Power(x, n)
  {
    PowerStep(x, 0);
    if m > 0 {
      PowerAdd(x, m - 1, n);
      PowerStep(x, m - 1);
      PowerStep(x, m - 1 + n);
    }
  }

  lemma Pow5Is(y: real)
    ensures Pow5(y) == Sq(Sq(y)) * y
  {
    PowerStep(y, 0);
    PowerAdd(y, 1, 1);
    PowerAdd(y, 2, 2);
    PowerAdd(y, 4, 1);
  }

  lemma Pow12Is(t: real)
    ensures Pow12(t) == Sq(Sq(Sq(t) * t))
  {
    PowerStep(t, 0);
    PowerAdd(t, 1, 1);
    PowerAdd(t, 2, 1);
    PowerAdd(t, 3, 3);
    PowerAdd(t, 6, 6);
  }

  lemma Pow5Mono(a: real, b: real)
    requires 0.0 <= a <= b
    ensures 0.0 <= Pow5(a) <= Pow5(b)
  {
    Pow5Is(a);
    Pow5Is(b);
    MulMono(a, b, a, b);
    MulMono(Sq(a), Sq(b), Sq(a), Sq(b));
    MulMono(Sq(Sq(a)), Sq(Sq(b)), a, b);
  }

  lemma Pow12Mono(a: real, b: real)
    requires 0.0 <= a <= b
    ensures 0.0 <= Pow12(a) <= Pow12(b)
  {
    Pow12Is(a);
    Pow12Is(b);
    MulMono(a, b, a, b);
    MulMono(Sq(a), Sq(b), a, b);
    var a3, b3 := Sq(a) * a, Sq(b) * b;
    MulMono(a3, b3, a3, b3);
    MulMono(Sq(a3), Sq(b3), Sq(a3), Sq(b3));
  }

  lemma MulScale(a: real, b: real, c: real, d: real, k: real)
    requires a >= 0.0 && c >= 0.0 && k >= 1.0 && b >= k * a && d >= k * c
    ensures b * d >= k * (a * c) && a * c >= 0.0
  {
    MulMono(1.0, k, c, c);
    MulMono(0.0, k, 0.0, a);
    MulMono(k * a, b, c, d);
    MulMono(0.0, a, 0.0, c);
    assert (k * a) * c == k * (a * c);
  }

  // Scaling the base scales the power at least as much.
  lemma Pow12Scale(t: real, u: real, k: real)
    requires t >= 0.0 && k >= 1.0 && u >= k * t
    ensures Pow12(u) >= k * Pow12(t) && Pow12(t) >= 0.0
  {
    Pow12Is(t);
    Pow12Is(u);
    MulScale(t, u, t, u, k);
    MulScale(Sq(t), Sq(u), t, u, k);
    var t3, u3 := Sq(t) * t, Sq(u) * u;
    MulScale(t3, u3, t3, u3, k);
    MulScale(Sq(t3), Sq(u3), Sq(t3), Sq(u3), k);
  }

  lemma MulUp(a: real, b: real, k: real, c: real, d: real, m: real)
    requires 0.0 <= a && 0.0 <= c && 0.0 <= b <= k * a && 0.0 <= d <= m * c
    ensures 0.0 <= b * d <= (k * m) * (a * c) && 0.0 <= a * c
  {
    MulMono(b, k * a, d, m * c);
    MulMono(0.0, a, 0.0, c);
    assert (k * a) * (m * c) == (k * m) * (a * c);
  }

  // A slightly larger number has a slightly larger fifth power.
  lemma Pow5Up(a: real, b: real)
    requires 0.0 <= a && 0.0 <= b <= 1.0003 * a
    ensures Pow5(b) <= 1.002 * Pow5(a) && 0.0 <= Pow5(a)
  {
    Pow5Is(a);
    Pow5Is(b);
    MulUp(a, b, 1.0003, a, b, 1.0003);
    var a2, b2 := Sq(a), Sq(b);
    MulUp(a2, b2, 1.0003 * 1.0003, a2, b2, 1.0003 * 1.0003);
    var a4, b4 := Sq(a2), Sq(b2);
    assert b4 <= 1.0013 * a4;
    MulUp(a4, b4, 1.0013, a, b, 1.0003);
    MulMono(0.0, a4, 0.0, a);
  }

  // ---- A curve exists: fifth roots by bisection ----

  function Bisect(x: real, low: real, high: real, steps: nat): (bracket: (real, real))
    requires 0.0 < low <= high && Pow5(low) <= x <= Pow5(high)
    ensures low <= bracket.0 <= bracket.1 <= high && Pow5(bracket.0) <= x <= Pow5(bracket.1)
    ensures bracket.1 - bracket.0 == Narrowed(high - low, steps)
    decreases steps
  {
    var middle := (low + high) / 2.0;
    if steps == 0 then (low, high)
    else if Pow5(middle) <= x then Bisect(x, middle, high, steps - 1)
    else Bisect(x, low, middle, steps - 1)
  }

  // What is left of an interval after halving it.
  function Narrowed(width: real, steps: nat): real
    decreases steps
  {
    if steps == 0 then width else Narrowed(width / 2.0, steps - 1)
  }

  lemma Narrowed4(width: real, steps: nat)
    ensures Narrowed(width, steps + 4) == Narrowed(width / 16.0, steps)
  {
    assert Narrowed(width, steps + 4) == Narrowed(width / 2.0, steps + 3);
    assert Narrowed(width / 2.0, steps + 3) == Narrowed(width / 4.0, steps + 2);
    assert Narrowed(width / 4.0, steps + 2) == Narrowed(width / 8.0, steps + 1);
  }

  lemma Narrowed24(width: real)
    ensures Narrowed(width, 24) == width / 16777216.0
  {
    Narrowed4(width, 20);
    Narrowed4(width / 16.0, 16);
    Narrowed4(width / 256.0, 12);
    Narrowed4(width / 4096.0, 8);
    Narrowed4(width / 65536.0, 4);
    Narrowed4(width / 1048576.0, 0);
  }

  // The power 2.4 of 0.093 lies above 0.00304.
  lemma SmallPowers()
    ensures 0.0 < Pow5(0.003) <= Pow5(0.00304) < Pow12(0.093)
  {
    Pow5Is(0.003);
    Pow5Is(0.00304);
    Pow12Is(0.093);
  }

  lemma PowersOfOne()
    ensures Pow5(1.0) == 1.0 && Pow12(1.0) == 1.0
  {
    Pow5Is(1.0);
    Pow12Is(1.0);
  }

  lemma BaseBounds(c: int)
    requires IsByte(c) && !IsLinearPart(c)
    ensures 11 <= c && 0.093 <= Base(c) <= 1.0 && Base(255) == 1.0
  {}

  lemma BaseRange(c: int)
    requires IsByte(c) && !IsLinearPart(c)
    ensures 0.093 <= Base(c) && 0.0 < Pow5(0.003) <= Pow12(Base(c)) <= Pow5(1.0)
    ensures Pow5(0.00304) < Pow12(Base(c))
  {
    BaseBounds(c);
    SmallPowers();
    PowersOfOne();
    Pow12Mono(0.093, Base(c));
    Pow12Mono(Base(c), 1.0);
  }

  function Approximate(c: int): real {
    if !IsByte(c) then 0.0
    else if IsLinearPart(c) then c as real / 255.0 / 12.92
    else if c == 255 then 1.0
    else
      BaseRange(c);
      Bisect(Pow12(Base(c)), 0.003, 1.0, 24).0
  }

  lemma ApproximateIsChannel(c: int)
    requires IsByte(c)
    ensures IsChannel(c, Approximate(c))
  {
    if !IsLinearPart(c) {
      if c == 255 {
        BaseBounds(c);
        PowersOfOne();
        assert Brackets(Base(c), 1.0, 1.0, 1.0);
      } else {
        BaseRange(c);
        var bracket := Bisect(Pow12(Base(c)), 0.003, 1.0, 24);
        Narrowed24(1.0 - 0.003);
        assert Brackets(Base(c), bracket.0, bracket.1, bracket.0);
      }
    }
  }

  lemma ApproximateIsCurve()
    ensures IsCurve(Approximate)
  {
    forall c | IsByte(c) ensures IsChannel(c, Approximate(c)) {
      ApproximateIsChannel(c);
    }
  }

  type Curve = f: int -> real | IsCurve(f) witness (ApproximateIsCurve(); Approximate)

  // ---- The curve rises ----

  lemma BaseStep(c: int)
    requires IsByte(c) && IsByte(c + 1) && !IsLinearPart(c)
    ensures Pow12(Base(c + 1)) >= 1.003 * Pow12(Base(c)) && Pow12(Base(c)) > 0.0
  {
    BaseRange(c);
    BaseBounds(c);
    Pow12Scale(Base(c), Base(c + 1), 1.003);
  }

  lemma ChannelStep(f: Curve, c: int)
    requires IsByte(c) && IsByte(c + 1)
    ensures f(c) < f(c + 1)
  {
    assert IsChannel(c, f(c)) && IsChannel(c + 1, f(c + 1));
    if IsLinearPart(c + 1) {
    } else if IsLinearPart(c) {
      var low, high :| Brackets(Base(c + 1), low, high, f(c + 1));
      BaseRange(c + 1);
      assert f(c) <= 0.00303609;
      if high <= 0.00304 {
        Pow5Mono(high, 0.00304);
        assert false;
      }
    } else {
      var low, high :| Brackets(Base(c), low, high, f(c));
      var low', high' :| Brackets(Base(c + 1), low', high', f(c + 1));
      BaseStep(c);
      if f(c + 1) <= f(c) {
        assert high' <= (1.0 + TOLERANCE) * high;
        assert high' <= 1.0003 * low;
        Pow5Up(low, high');
        assert false;
      }
    }
  }

  lemma {:induction false} CurveRises(f: Curve, a: int, b: int)
    requires IsByte(a) && IsByte(b) && a < b
    ensures f(a) < f(b)
    decreases b - a
  {
    if a + 1 < b { CurveRises(f, a, b - 1); }
    ChannelStep(f, b - 1);
  }

  /** Channels rise strictly from 0 for black to 1 for full intensity. */
  lemma CurveRange(f: Curve, c: int)
    requires IsByte(c)
    ensures f(0) == 0.0 && f(255) == 1.0 && 0.0 <= f(c) <= 1.0
  {
    assert IsChannel(0, f(0)) && IsChannel(255, f(255));
    if c > 0 { CurveRises(f, 0, c); }
    if c < 255 { CurveRises(f, c, 255); }
  }

  // A ten-thousandth wide bracket around the fifth root of the twelfth power of t.
  predicate IsAround(low: real, high: real, t: real, y: real) {
    && 0.0 < low <= y <= high <= 1.0001 * low
    && Sq(Sq(low)) * low <= Sq(Sq(Sq(t) * t)) <= Sq(Sq(high)) * high
  }

  /** What the curve is, in numbers: linear up to byte 10, and from there the power
      2.4 of (c / 255 + 0.055) / 1.055, up to the tolerance. */
  lemma CurveSays(f: Curve, c: int) returns (low: real, high: real)
    requires IsByte(c)
    ensures c <= 10 ==> f(c) == c as real / 255.0 / 12.92
    ensures c > 10 ==> IsAround(low, high, (c as real / 255.0 + 0.055) / 1.055, f(c))
  {
    assert IsChannel(c, f(c));
    low, high := 0.0, 0.0;
    if c > 10 {
      low, high :| Brackets(Base(c), low, high, f(c));
      Pow5Is(low);
      Pow5Is(high);
      Pow12Is(Base(c));
    }
  }
}
