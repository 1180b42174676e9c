/**
  * Turning a float into a fraction: the exact conversion of a mantissa and an exponent, and the
  * continued fraction that looks for a short fraction within a tolerance. A finite float is the
  * dyadic number it stands for, and the arithmetic on it is exact.
  */
module Rationalize {
  import opened Arithmetic
  import opened Options

  datatype Float = NaN | Infinity(negative: bool) | Finite(negative: bool, mant: nat, shift: int)

  datatype Outcome =
    | Built(numer: int, denom: int)     // the arguments of Rational.new
    | Decimal                           // the value rounded to seven decimal places
    | FloatDomainError

  /** 2^-52. */
  const DBL_EPSILON: real := 1.0 / 4503599627370496.0

  function RealAbs(x: real): (r: real)
    ensures r >= 0.0
  {
    if x < 0.0 then -x else x
  }

  lemma NatProduct(a: nat, b: nat)
    ensures a * b >= 0
  {
  }

  /** mant * 2^shift. */
  function Magnitude(mant: nat, shift: int): (r: real)
    ensures r >= 0.0
    ensures mant > 0 ==> r > 0.0
  {
    if shift >= 0 then
      NatProduct(mant, Two(shift));
      (mant * Two(shift)) as real
    else
      mant as real / Two(0 - shift) as real
  }

  function ValueOf(f: Float): real
    requires f.Finite?
  {
    if f.negative then -Magnitude(f.mant, f.shift) else Magnitude(f.mant, f.shift)
  }

  /** The mantissa is scaled by a power of two. */
  lemma MagnitudeDoubles(mant: nat, shift: int)
    ensures Magnitude(mant, 0) == mant as real
    ensures Magnitude(mant, shift + 1) == 2.0 * Magnitude(mant, shift)
  {
    if shift >= 0 {
      DoubleProduct(mant, Two(shift), Two(shift + 1));
    } else {
      DoubleQuotient(mant, Two(-1 - shift));
      assert Two(0 - shift) == 2 * Two(-1 - shift);
      if shift == -1 {
        assert Two(-1 - shift) == 1;
      }
    }
  }

  lemma DoubleProduct(m: int, d: int, twice: int)
    requires twice == 2 * d
    ensures (m * twice) as real == 2.0 * (m * d) as real
  {
    assert m * twice == 2 * (m * d);
  }

  lemma DoubleQuotient(m: int, d: int)
    requires d > 0
    ensures m as real / d as real == 2.0 * (m as real / (2 * d) as real)
  {
    var x, y := m as real / d as real, m as real / (2 * d) as real;
    assert x * d as real == m as real && y * (2 * d) as real == m as real;
    assert (2.0 * y - x) * d as real == 0.0;
  }

  // ---------------------------------------------------------------------------------------------
  // Exact conversion
  // ---------------------------------------------------------------------------------------------

  lemma HalveStep(mant: nat, shift: int)
    requires shift < 0 && mant % 2 == 0
    ensures Magnitude(mant / 2, shift + 1) == Magnitude(mant, shift)
  {
    assert Two(0 - shift) == 2 * Two(-1 - shift);
    HalveQuotient(mant / 2, Two(-1 - shift));
  }

  lemma HalveQuotient(m: int, d: int)
    requires d > 0
    ensures (2 * m) as real / (2 * d) as real == m as real / d as real
  {
    var x := m as real / d as real;
    assert x * d as real == m as real;
    assert x * (2 * d) as real == (2 * m) as real;
  }

  ghost predicate IsWordRatio(x: real, p: int, q: int) {
    Abs(p) <= INT64_MAX && 0 < q <= INT64_MAX && x * q as real == p as real
  }

  /** The number is the quotient of two integers that both fit a signed 64-bit word. */
  ghost predicate IsRatioOfWords(x: real) {
    exists p: int, q: int :: IsWordRatio(x, p, q)
  }

  lemma {:induction false} OddCoprimeToTwo(mant: nat, e: nat)
    requires mant % 2 == 1
    ensures Gcd(mant, Two(e)) == 1
  {
    if e == 0 {
      CoprimeFromCombination(mant, 1, 0, 1);
    } else {
      OddCoprimeToTwo(mant, e - 1);
      var x, y := Bezout(mant, Two(e - 1));
      OddStep(mant, Two(e - 1), x, y);
    }
  }

  lemma OddStep(mant: nat, d: nat, x: int, y: int)
    requires mant % 2 == 1 && mant * x + d * y == 1
    ensures Gcd(mant, 2 * d) == 1
  {
    var half := mant / 2;
    var p, q := x + d * y, -(half * y);
    assert mant == 2 * half + 1;
    OddExpand(mant, half, d, x, y);
    CoprimeFromCombination(mant, 2 * d, p, q);
  }

  lemma OddExpand(mant: int, half: int, d: int, x: int, y: int)
    requires mant == 2 * half + 1 && mant * x + d * y == 1
    ensures mant * (x + d * y) + 2 * d * -(half * y) == 1
  {
    var w := d * y;
    assert mant * w == 2 * half * w + w by {
      MulDistributes(w, 2 * half, 1);
    }
    assert 2 * d * -(half * y) == -(2 * half * w) by {
      MulAssociates(d, half, y);
      MulAssociates(half, d, y);
    }
    MulDistributes(mant, x, w);
  }

  lemma RatioOfWordsWhole(n: nat)
    requires IsRatioOfWords(n as real)
    ensures n <= INT64_MAX
  {
    var p, q :| IsWordRatio(n as real, p, q);
    RealProduct(n, q);
    MulMonotone(1, q, n);
  }

  lemma RatioOfWordsDyadic(mant: nat, d: nat)
    requires d > 0 && Gcd(mant, d) == 1 && IsRatioOfWords(mant as real / d as real)
    ensures d <= INT64_MAX && mant <= INT64_MAX
  {
    var p, q :| IsWordRatio(mant as real / d as real, p, q);
    QuotientTimes(mant, d, p, q);
    LowestTermsLeast(mant, d, p, q);
  }

  /** A fraction in lowest terms has the smallest parts of all fractions of its value. */
  lemma LowestTermsLeast(n: nat, d: nat, p: int, q: int)
    requires d > 0 && q > 0 && Gcd(n, d) == 1 && n * q == d * p
    ensures d <= q && n <= p
  {
    assert Divides(d, n * q);
    Gauss(d, n, q);
    DividesBound(d, q);
    LargerParts(n, d, p, q);
  }

  lemma LargerParts(n: int, d: int, p: int, q: int)
    requires n >= 0 && 0 < d <= q && n * q == d * p
    ensures n <= p
  {
    MulMonotone(d, q, n);
    MulMonotone(p + 1, n, d);
  }

  /** What the conversion of a finite float builds: the exact value in lowest terms. */
  ghost predicate IsExact(r: Outcome, x: real) {
    && r.Built?
    && Abs(r.numer) <= INT64_MAX && 0 < r.denom <= INT64_MAX
    && Gcd(Abs(r.numer), r.denom) == 1
    && x * r.denom as real == r.numer as real
  }

  /**
    * `float_to_exact_rational`: the exact value in lowest terms whenever it is a quotient of two
    * 64-bit words at all, and the decimal approximation exactly when it is not.
    */
  method ToExact(f: Float) returns (r: Outcome)
    ensures !f.Finite? ==> r == FloatDomainError
    ensures f.Finite? ==> (r == Decimal <==> !IsRatioOfWords(ValueOf(f)))
    ensures f.Finite? && r != Decimal ==> IsExact(r, ValueOf(f))
    ensures SignKept(f, r)
  {
    if !f.Finite? {
      return FloatDomainError;
    }
    if f.mant == 0 {
      ZeroExact(f);
      return Built(0, 1);
    }
    var mant, shift := f.mant, f.shift;
    while shift < 0 && mant % 2 == 0
      invariant mant > 0
      invariant Magnitude(mant, shift) == Magnitude(f.mant, f.shift)
      decreases -shift
    {
      HalveStep(mant, shift);
      mant := mant / 2;
      shift := shift + 1;
    }
    if shift >= 0 {
      WholeFits(f, mant, shift);
      if shift >= 63 || mant > INT64_MAX / Two(shift) {
        return Decimal;
      }
      var numer := mant * Two(shift);
      r := Built(if f.negative then 0 - numer else numer, 1);
    } else {
      DyadicFits(f, mant, 0 - shift);
      if -shift >= 63 || mant > INT64_MAX {
        return Decimal;
      }
      r := Built(if f.negative then 0 - mant else mant, Two(0 - shift));
    }
  }

  lemma ZeroExact(f: Float)
    requires f.Finite? && f.mant == 0
    ensures IsRatioOfWords(ValueOf(f)) && IsExact(Built(0, 1), ValueOf(f))
  {
    if f.shift < 0 {
    }
    assert ValueOf(f) == 0.0;
    assert IsWordRatio(ValueOf(f), 0, 1);
  }

  lemma SignedRatio(x: real)
    ensures IsRatioOfWords(x) <==> IsRatioOfWords(-x)
  {
    if IsRatioOfWords(x) {
      var p, q :| IsWordRatio(x, p, q);
      assert IsWordRatio(-x, -p, q);
    }
    if IsRatioOfWords(-x) {
      var p, q :| IsWordRatio(-x, p, q);
      assert IsWordRatio(x, -p, q);
    }
  }

  lemma SignedExact(negative: bool, numer: nat, denom: nat, x: real)
    requires IsExact(Built(numer, denom), x)
    ensures IsExact(Built(if negative then 0 - numer else numer, denom), if negative then -x else x)
  {
    assert (-x) * denom as real == -(x * denom as real);
  }

  /** The test against the shifted bound accepts exactly the whole numbers that fit. */
  lemma WholeFits(f: Float, mant: nat, shift: nat)
    requires f.Finite? && mant > 0 && Magnitude(mant, shift) == Magnitude(f.mant, f.shift)
    ensures mant * Two(shift) >= 0
    ensures IsRatioOfWords(ValueOf(f)) <==> !(shift >= 63 || mant > INT64_MAX / Two(shift))
    ensures IsRatioOfWords(ValueOf(f)) ==>
              IsExact(Built(if f.negative then 0 - mant * Two(shift) else mant * Two(shift), 1), ValueOf(f))
  {
    NatProduct(mant, Two(shift));
    var n: nat := mant * Two(shift);
    ShiftGuard(mant, shift);
    SignedRatio(Magnitude(mant, shift));
    if IsRatioOfWords(n as real) {
      RatioOfWordsWhole(n);
    }
    if n <= INT64_MAX {
      assert IsWordRatio(n as real, n, 1);
      CoprimeFromCombination(n, 1, 0, 1);
      SignedExact(f.negative, n, 1, n as real);
    }
  }

  lemma ShiftGuard(mant: nat, shift: nat)
    requires mant > 0
    ensures shift >= 63 || mant > INT64_MAX / Two(shift) <==> mant * Two(shift) > INT64_MAX
  {
    ExponentGuard(shift);
    if shift >= 63 {
      MulMonotone(1, mant, Two(shift));
    } else {
      DivisionBound(mant, Two(shift), INT64_MAX);
    }
  }

  lemma TwoToThe63(e: nat)
    ensures Two(e + 63) == (INT64_MAX + 1) * Two(e)
  {
    TwoEight(e);
    TwoEight(e + 8);
    TwoEight(e + 16);
    TwoEight(e + 24);
    TwoEight(e + 32);
    TwoEight(e + 40);
    TwoEight(e + 48);
    TwoFour(e + 56);
    assert Two(e + 63) == 2 * Two(e + 62) && Two(e + 62) == 2 * Two(e + 61) && Two(e + 61) == 2 * Two(e + 60);
  }

  lemma TwoEight(e: nat)
    ensures Two(e + 8) == 0x100 * Two(e)
  {
    TwoFour(e);
    TwoFour(e + 4);
  }

  lemma TwoFour(e: nat)
    ensures Two(e + 4) == 0x10 * Two(e)
  {
    assert Two(e + 4) == 2 * Two(e + 3) && Two(e + 3) == 2 * Two(e + 2) && Two(e + 2) == 2 * Two(e + 1);
  }

  lemma DivisionBound(m: nat, d: nat, bound: nat)
    requires d >= 1
    ensures m > bound / d <==> m * d > bound
  {
    MulMonotone(bound / d + 1, m, d);
    MulMonotone(m, bound / d, d);
    MulDistributes(d, bound / d, 1);
  }

  /** With an odd mantissa the fraction is in lowest terms, so only its own parts can fit. */
  lemma DyadicFits(f: Float, mant: nat, e: nat)
    requires f.Finite? && e > 0 && mant % 2 == 1 && Magnitude(mant, 0 - e) == Magnitude(f.mant, f.shift)
    ensures IsRatioOfWords(ValueOf(f)) <==> !(e >= 63 || mant > INT64_MAX)
    ensures IsRatioOfWords(ValueOf(f)) ==>
              IsExact(Built(if f.negative then 0 - mant else mant, Two(e)), ValueOf(f))
  {
    OddCoprimeToTwo(mant, e);
    ExponentGuard(e);
    SignedRatio(Magnitude(mant, 0 - e));
    LowestTermsFit(mant, Two(e), Magnitude(mant, 0 - e));
    if mant <= INT64_MAX && Two(e) <= INT64_MAX {
      SignedExact(f.negative, mant, Two(e), Magnitude(mant, 0 - e));
    }
  }

  lemma LowestTermsFit(n: nat, d: nat, x: real)
    requires d > 0 && Gcd(n, d) == 1 && x == n as real / d as real
    ensures IsRatioOfWords(x) <==> n <= INT64_MAX && d <= INT64_MAX
    ensures n <= INT64_MAX && d <= INT64_MAX ==> IsExact(Built(n, d), x)
  {
    QuotientTimes(n, d, n, d);
    if IsRatioOfWords(x) {
      RatioOfWordsDyadic(n, d);
    }
    if n <= INT64_MAX && d <= INT64_MAX {
      assert IsWordRatio(x, n, d);
    }
  }

  lemma ExponentGuard(e: nat)
    ensures e >= 63 <==> Two(e) > INT64_MAX
  {
    if e >= 63 {
      TwoToThe63(e - 63);
    } else {
      BelowTwoTo63(e);
    }
  }

  lemma BelowTwoTo63(e: nat)
    requires e < 63
    ensures Two(e) <= INT64_MAX
  {
    var least: nat := 0;
    TwoToThe63(least);
    assert Two(least) == 1;
    TwoMonotone(e, least + 62);
    assert Two(least + 63) == 2 * Two(least + 62);
  }

  // ---------------------------------------------------------------------------------------------
  // Continued fraction
  // ---------------------------------------------------------------------------------------------

  /** Two successive convergents h0/k0 and h1/k1; the denominators start at 1 and 0. */
  datatype State = State(h0: nat, k0: nat, h1: nat, k1: nat)

  ghost function Det(s: State): int {
    s.h1 * s.k0 - s.h0 * s.k1
  }

  /** The target is (x*h1 + h0) / (x*k1 + k0) and the convergents are neighbours. */
  ghost predicate Tracks(s: State, x: real, target: real) {
    && x * s.k1 as real + s.k0 as real > 0.0
    && target * (x * s.k1 as real + s.k0 as real) == x * s.h1 as real + s.h0 as real
    && (Det(s) == 1 || Det(s) == -1)
    && (s.k1 == 0 ==> s.k0 == 1) && (s.k1 > 0 ==> x > 1.0)
  }

  function Next(s: State, a: nat): State {
    NatProduct(a, s.h1);
    NatProduct(a, s.k1);
    State(s.h1, s.k1, a * s.h1 + s.h0, a * s.k1 + s.k0)
  }

  lemma NextDet(s: State, a: nat)
    ensures Det(Next(s, a)) == -Det(s)
  {
    MulDistributes(s.k1, a * s.h1, s.h0);
    MulDistributes(s.h1, a * s.k1, s.k0);
    MulAssociates(s.h1, a, s.k1);
    MulAssociates(s.k1, a, s.h1);
  }

  /** Neighbours are in lowest terms. */
  lemma NeighboursCoprime(s: State)
    ensures Det(s) == 1 || Det(s) == -1 ==> Gcd(s.h1, s.k1) == 1
  {
    if Det(s) == 1 {
      CoprimeFromCombination(s.h1, s.k1, s.k0, 0 - s.h0);
    } else if Det(s) == -1 {
      CoprimeFromCombination(s.h1, s.k1, 0 - s.k0, s.h0);
    }
  }

  lemma RealSumProduct(a: int, b: int, c: int)
    ensures (a * b + c) as real == a as real * b as real + c as real
  {
    RealProduct(a, b);
  }

  /** Replacing x by its floor and the reciprocal of the remainder keeps the target. */
  lemma TracksNext(s: State, x: real, a: nat, target: real, n: State, y: real)
    requires Tracks(s, x, target) && a as real <= x && x - a as real > 0.0 && x < a as real + 1.0
    requires (s.k1 == 0 || a >= 1) && n == Next(s, a) && y == 1.0 / (x - a as real)
    ensures Tracks(n, y, target)
  {
    EquationNext(s, x, a, target, n, y);
    TracksFrom(s, a, target, n, y) by {
      OverOne(x - a as real);
    }
  }

  lemma TracksFrom(s: State, a: nat, target: real, n: State, y: real)
    requires y * n.k1 as real + n.k0 as real > 0.0
    requires target * (y * n.k1 as real + n.k0 as real) == y * n.h1 as real + n.h0 as real
    requires (Det(s) == 1 || Det(s) == -1) && y > 1.0 && n == Next(s, a)
    requires (s.k1 == 0 && s.k0 == 1) || (s.k1 > 0 && a >= 1)
    ensures Tracks(n, y, target)
  {
    NextDet(s, a);
    DenominatorGrows(s, a);
  }

  lemma DenominatorGrows(s: State, a: nat)
    requires (s.k1 == 0 && s.k0 == 1) || (s.k1 > 0 && a >= 1)
    ensures Next(s, a).k1 > 0
  {
    if s.k1 > 0 {
      MulMonotone(1, a, s.k1);
    }
  }

  lemma EquationNext(s: State, x: real, a: nat, target: real, n: State, y: real)
    requires x * s.k1 as real + s.k0 as real > 0.0
    requires target * (x * s.k1 as real + s.k0 as real) == x * s.h1 as real + s.h0 as real
    requires x - a as real > 0.0 && n == Next(s, a) && y == 1.0 / (x - a as real)
    ensures y * n.k1 as real + n.k0 as real > 0.0
    ensures target * (y * n.k1 as real + n.k0 as real) == y * n.h1 as real + n.h0 as real
  {
    RealSumProduct(a, s.h1, s.h0);
    RealSumProduct(a, s.k1, s.k0);
    TracksNextOfReals(target, x, a as real, x - a as real, s.h0 as real, s.h1 as real, s.k0 as real, s.k1 as real,
                      n.h1 as real, n.k1 as real);
  }

  lemma TracksNextOfReals(t: real, x: real, a: real, rem: real, h0: real, h1: real, k0: real, k1: real,
                          h: real, k: real)
    requires rem > 0.0 && rem == x - a && h == a * h1 + h0 && k == a * k1 + k0
    requires x * k1 + k0 > 0.0 && t * (x * k1 + k0) == x * h1 + h0
    ensures (1.0 / rem) * k + k1 > 0.0 && t * ((1.0 / rem) * k + k1) == (1.0 / rem) * h + h1
  {
    ReciprocalStep(x, a, rem, h1, h0, h);
    ReciprocalStep(x, a, rem, k1, k0, k);
    ScaleEquation(t, x * k1 + k0, x * h1 + h0, 1.0 / rem);
    PositiveProduct(1.0 / rem, x * k1 + k0);
  }

  lemma ReciprocalStep(x: real, a: real, rem: real, p1: real, p0: real, next: real)
    requires rem > 0.0 && rem == x - a && next == a * p1 + p0
    ensures (1.0 / rem) * (x * p1 + p0) == (1.0 / rem) * next + p1
  {
    SplitFloor(x, a, p1, p0);
    Reciprocal(rem, next, p1);
  }

  lemma SplitFloor(x: real, a: real, k1: real, k0: real)
    ensures x * k1 + k0 == (a * k1 + k0) + (x - a) * k1
  {
  }

  lemma Reciprocal(rem: real, p: real, q: real)
    requires rem > 0.0
    ensures (1.0 / rem) * (p + rem * q) == (1.0 / rem) * p + q
  {
    var y := 1.0 / rem;
    assert y * rem == 1.0;
    assert y * (rem * q) == y * rem * q;
  }

  lemma ScaleEquation(t: real, bottom: real, top: real, y: real)
    requires t * bottom == top
    ensures t * (y * bottom) == y * top
  {
  }

  lemma OverOne(rem: real)
    requires 0.0 < rem < 1.0
    ensures 1.0 / rem > 1.0
  {
    var y := 1.0 / rem;
    assert y * rem == 1.0;
    assert (y - 1.0) * rem == 1.0 - rem;
    SignFromProduct(y - 1.0, rem);
  }

  lemma NonnegativeProduct(a: real, b: real)
    requires a >= 0.0 && b >= 0.0
    ensures a * b >= 0.0
  {
  }

  lemma PositiveProduct(a: real, b: real)
    requires a > 0.0 && b > 0.0
    ensures a * b > 0.0
  {
  }

  // How far a fraction is from the target, multiplied by its denominator.

  ghost function Gap(target: real, h: int, k: int): real {
    target * k as real - h as real
  }

  /** |target - h/k| * k^2. */
  ghost function Miss(target: real, h: int, k: int): real {
    RealAbs(Gap(target, h, k)) * k as real
  }

  lemma AbsScale(d: real, k: real)
    requires k > 0.0
    ensures RealAbs(d * k) == RealAbs(d) * k
  {
    if d < 0.0 {
      assert -d * k > 0.0;
    } else {
      assert d * k >= 0.0;
    }
  }

  /** x*k1 + k0, the denominator under which the target is a quotient. */
  ghost function Bottom(s: State, x: real): real {
    x * s.k1 as real + s.k0 as real
  }

  lemma DetAsReal(s: State)
    ensures Det(s) as real == s.h1 as real * s.k0 as real - s.h0 as real * s.k1 as real
  {
    RealProduct(s.h1, s.k0);
    RealProduct(s.h0, s.k1);
  }

  /** The last convergent misses the target by 1/D, on the side the determinant says. */
  lemma LastGap(s: State, x: real, target: real)
    requires Tracks(s, x, target)
    ensures Gap(target, s.h1, s.k1) * Bottom(s, x) == -(Det(s) as real)
  {
    DetAsReal(s);
    LastGapOfReals(target, x, s.h0 as real, s.h1 as real, s.k0 as real, s.k1 as real, Bottom(s, x), Det(s) as real);
  }

  /** The next one misses it by the remainder over D, on the other side. */
  lemma NextGap(s: State, x: real, a: nat, target: real)
    requires Tracks(s, x, target)
    ensures
      var n := Next(s, a);
      Gap(target, n.h1, n.k1) * Bottom(s, x) == (x - a as real) * Det(s) as real
  {
    var n := Next(s, a);
    DetAsReal(s);
    RealSumProduct(a, s.h1, s.h0);
    RealSumProduct(a, s.k1, s.k0);
    NextGapOfReals(target, x, s.h0 as real, s.h1 as real, s.k0 as real, s.k1 as real, Bottom(s, x), Det(s) as real,
                   a as real, n.h1 as real, n.k1 as real);
  }

  lemma LastGapOfReals(t: real, x: real, h0: real, h1: real, k0: real, k1: real, d: real, det: real)
    requires d == x * k1 + k0 && t * d == x * h1 + h0 && det == h1 * k0 - h0 * k1
    ensures (t * k1 - h1) * d == -det
  {
    assert (t * k1) * d == (x * h1 + h0) * k1;
    assert (x * h1 + h0) * k1 == x * h1 * k1 + h0 * k1;
    assert h1 * d == x * h1 * k1 + h1 * k0;
  }

  lemma GapBeforeOfReals(t: real, x: real, h0: real, h1: real, k0: real, k1: real, d: real, det: real)
    requires d == x * k1 + k0 && t * d == x * h1 + h0 && det == h1 * k0 - h0 * k1
    ensures (t * k0 - h0) * d == x * det
  {
    assert (t * k0) * d == (x * h1 + h0) * k0;
    assert (x * h1 + h0) * k0 == x * (h1 * k0) + h0 * k0;
    assert h0 * d == x * (h0 * k1) + h0 * k0;
    assert x * det == x * (h1 * k0) - x * (h0 * k1);
  }

  lemma NextGapOfReals(t: real, x: real, h0: real, h1: real, k0: real, k1: real, d: real, det: real,
                       a: real, h: real, k: real)
    requires d == x * k1 + k0 && t * d == x * h1 + h0 && det == h1 * k0 - h0 * k1
    requires h == a * h1 + h0 && k == a * k1 + k0
    ensures (t * k - h) * d == (x - a) * det
  {
    LastGapOfReals(t, x, h0, h1, k0, k1, d, det);
    GapBeforeOfReals(t, x, h0, h1, k0, k1, d, det);
    CombineGaps(t * k1 - h1, t * k0 - h0, a, d, x, det);
    StepOfGaps(t, a, h0, h1, k0, k1);
  }

  lemma CombineGaps(last: real, before: real, a: real, d: real, x: real, det: real)
    requires last * d == -det && before * d == x * det
    ensures (a * last + before) * d == (x - a) * det
  {
    assert (a * last) * d == a * (last * d);
  }

  lemma StepOfGaps(t: real, a: real, h0: real, h1: real, k0: real, k1: real)
    ensures t * (a * k1 + k0) - (a * h1 + h0) == a * (t * k1 - h1) + (t * k0 - h0)
  {
    assert t * (a * k1) == a * (t * k1);
  }

  lemma BottomAtLeastNext(s: State, x: real, a: nat)
    requires a as real <= x
    ensures Bottom(s, x) >= Next(s, a).k1 as real
  {
    RealSumProduct(a, s.k1, s.k0);
    SplitFloor(x, a as real, s.k1 as real, s.k0 as real);
    NonnegativeProduct(x - a as real, s.k1 as real);
  }

  /** The convergent after `s` misses the target by at most rem/k^2, hence by less than 1/k^2. */
  lemma ConvergentClose(s: State, x: real, a: nat, target: real)
    requires Tracks(s, x, target) && a as real <= x < a as real + 1.0
    ensures
      var n := Next(s, a);
      Miss(target, n.h1, n.k1) <= x - a as real
  {
    var n := Next(s, a);
    NextGap(s, x, a, target);
    BottomAtLeastNext(s, x, a);
    TinyGap(Gap(target, n.h1, n.k1), Bottom(s, x), n.k1 as real, x - a as real, Det(s) as real);
  }

  lemma TinyGap(g: real, d: real, k: real, rem: real, det: real)
    requires d >= k && d > 0.0 && rem >= 0.0 && (det == 1.0 || det == -1.0) && g * d == rem * det
    ensures RealAbs(g) * k <= rem
  {
    AbsScale(g, d);
    assert RealAbs(g) * (d - k) >= 0.0;
  }

  // ---------------------------------------------------------------------------------------------
  // Which fractions with smaller denominators are out of reach
  // ---------------------------------------------------------------------------------------------

  ghost predicate Within(target: real, eps: real, p: int, q: int)
    requires q > 0
  {
    RealAbs(target - p as real / q as real) <= eps
  }

  /** No fraction with a smaller denominator is within the tolerance. */
  ghost predicate Simplest(target: real, eps: real, k: int) {
    forall p: int, q: int :: 0 < q < k ==> !Within(target, eps, p, q)
  }

  /** A fraction beyond another one, seen from the target, is no closer. */
  lemma BeyondIsFurther(target: real, eps: real, p: int, q: int, h: int, k: int, sign: int)
    requires q > 0 && k > 0 && (sign == 1 || sign == -1)
    requires sign as real * Gap(target, h, k) >= 0.0
    requires sign * (h * q - p * k) >= 0
    ensures Within(target, eps, p, q) ==> Within(target, eps, h, k)
  {
    if Within(target, eps, p, q) {
      var a, b := p as real / q as real, h as real / k as real;
      assert a * q as real == p as real && b * k as real == h as real;
      assert Gap(target, h, k) == (target - b) * k as real;
      SignFromProduct(target - b, k as real);
      if sign == 1 {
        QuotientOrder(h, k, p, q);
      } else {
        QuotientOrder(p, q, h, k);
      }
    }
  }

  lemma QuotientOrder(h: int, k: int, p: int, q: int)
    requires q > 0 && k > 0 && h * q >= p * k
    ensures h as real / k as real >= p as real / q as real
  {
    var a, b := p as real / q as real, h as real / k as real;
    RealProduct(h, q);
    RealProduct(p, k);
    assert b * (k as real * q as real) == h as real * q as real;
    assert a * (k as real * q as real) == p as real * k as real;
    PositiveProduct(k as real, q as real);
    OrderFromProduct(b, a, k as real * q as real);
  }

  lemma OrderFromProduct(b: real, a: real, m: real)
    requires m > 0.0 && b * m >= a * m
    ensures b >= a
  {
    assert (b - a) * m == b * m - a * m;
    SignFromProduct(b - a, m);
  }

  /** A fraction strictly between two neighbours has at least the sum of their denominators. */
  lemma BetweenNeighbours(h: int, k: int, s: int, u: int, p: int, q: int, sign: int)
    requires k > 0 && u > 0 && (sign == 1 || sign == -1) && s * k - h * u == sign
    requires sign * (p * k - h * q) > 0 && sign * (s * q - p * u) > 0
    ensures q >= k + u
  {
    var a, b := sign * (p * k - h * q), sign * (s * q - p * u);
    FareyIdentity(h, k, s, u, p, q, sign);
    MulMonotone(1, a, u);
    MulMonotone(1, b, k);
  }

  lemma FareyIdentity(h: int, k: int, s: int, u: int, p: int, q: int, sign: int)
    requires (sign == 1 || sign == -1) && s * k - h * u == sign
    ensures q == sign * (p * k - h * q) * u + sign * (s * q - p * u) * k
  {
    assert (p * k - h * q) * u + (s * q - p * u) * k == q * (s * k - h * u) by {
      MulDistributes(u, p * k, -(h * q));
      MulDistributes(k, s * q, -(p * u));
      MulDistributes(q, s * k, -(h * u));
      MulAssociates(p, k, u);
      MulAssociates(h, q, u);
      MulAssociates(s, q, k);
      MulAssociates(p, u, k);
      MulAssociates(q, s, k);
      MulAssociates(q, h, u);
      MulAssociates(s, k, q);
      MulAssociates(h, u, q);
    }
    MulAssociates(sign, p * k - h * q, u);
    MulAssociates(sign, s * q - p * u, k);
  }

  /** The fraction just before h/k on its own side: one step short of the partial quotient. */
  ghost predicate NearMissIsClose(s: State, n: State, target: real, eps: real) {
    n.k1 > s.k1 && Within(target, eps, n.h1 - s.h1, n.k1 - s.k1)
  }

  /**
    * After a convergent that missed the tolerance, the next one has the smallest denominator of all
    * fractions within the tolerance unless the fraction one step before it is within it too.
    */
  lemma SimplestIff(s: State, x: real, a: nat, target: real, eps: real)
    requires Tracks(s, x, target) && a as real <= x < a as real + 1.0
    requires s.k1 > 0 ==> a >= 1 && !Within(target, eps, s.h1, s.k1)
    ensures Simplest(target, eps, Next(s, a).k1) <==> s.k1 == 0 || !NearMissIsClose(s, Next(s, a), target, eps)
  {
    var n := Next(s, a);
    if s.k1 > 0 {
      MulMonotone(1, a, s.k1);
      if NearMissIsClose(s, n, target, eps) {
        assert 0 < n.k1 - s.k1 < n.k1;
      } else {
        forall p: int, q: int | 0 < q < n.k1
          ensures !Within(target, eps, p, q)
        {
          SmallerMisses(s, x, a, target, eps, p, q);
        }
      }
    }
  }

  lemma SmallerMisses(s: State, x: real, a: nat, target: real, eps: real, p: int, q: int)
    requires Tracks(s, x, target) && a as real <= x < a as real + 1.0
    requires s.k1 > 0 && a >= 1 && !Within(target, eps, s.h1, s.k1) && 0 < q < Next(s, a).k1
    requires !NearMissIsClose(s, Next(s, a), target, eps) && Next(s, a).k1 >= s.k1
    ensures !Within(target, eps, p, q)
  {
    var n, sign := Next(s, a), -Det(s);
    var h, k := n.h1 - s.h1, n.k1 - s.k1;
    SidesOfTarget(s, x, a, target);
    if k == 0 {
      SecondRound(s, a);
    } else if sign * (p * s.k1 - s.h1 * q) <= 0 {
      BeyondIsFurther(target, eps, p, q, s.h1, s.k1, sign);
    } else if sign * (h * q - p * k) <= 0 {
      BeyondIsFurther(target, eps, p, q, h, k, -sign);
    } else {
      NearMissNeighbour(s, a);
      BetweenNeighbours(s.h1, s.k1, h, k, p, q, sign);
    }
  }

  /** Equal successive denominators happen only at 1. */
  lemma SecondRound(s: State, a: nat)
    requires s.k1 > 0 && a >= 1 && Next(s, a).k1 == s.k1 && (Det(s) == 1 || Det(s) == -1)
    ensures s.k1 == 1
  {
    MulMonotone(1, a, s.k1);
    assert s.k0 == 0;
    AbsTimes(s.h0, s.k1);
    if s.h0 == 0 {
      assert false;
    }
    MulMonotone(1, s.h0, s.k1);
  }

  lemma NearMissNeighbour(s: State, a: nat)
    ensures
      var n := Next(s, a);
      (n.h1 - s.h1) * s.k1 - s.h1 * (n.k1 - s.k1) == -Det(s)
  {
    NextDet(s, a);
    var n := Next(s, a);
    MulDistributes(s.k1, n.h1, 0 - s.h1);
    MulDistributes(s.h1, n.k1, 0 - s.k1);
  }

  /** The last convergent and the near miss lie on opposite sides of the target. */
  lemma SidesOfTarget(s: State, x: real, a: nat, target: real)
    requires Tracks(s, x, target) && a as real <= x
    ensures
      var n, sign := Next(s, a), -Det(s);
      && sign as real * Gap(target, s.h1, s.k1) >= 0.0
      && (-sign) as real * Gap(target, n.h1 - s.h1, n.k1 - s.k1) >= 0.0
  {
    var n := Next(s, a);
    LastGap(s, x, target);
    NextGap(s, x, a, target);
    GapBetween(target, s.h1, s.k1, n.h1, n.k1);
    OppositeSides(Gap(target, s.h1, s.k1), Gap(target, n.h1, n.k1), Gap(target, n.h1 - s.h1, n.k1 - s.k1),
                  Bottom(s, x), x - a as real, Det(s));
  }

  lemma GapBetween(target: real, h: int, k: int, h': int, k': int)
    ensures Gap(target, h' - h, k' - k) == Gap(target, h', k') - Gap(target, h, k)
  {
  }

  lemma OppositeSides(last: real, next: real, between: real, d: real, rem: real, det: int)
    requires d > 0.0 && rem >= 0.0 && (det == 1 || det == -1)
    requires last * d == -(det as real) && next * d == rem * det as real && between == next - last
    ensures (-det) as real * last >= 0.0 && det as real * between >= 0.0
  {
    assert between * d == next * d - last * d;
    SignFromProduct(last, d);
    SignFromProduct(between, d);
  }

  lemma SignFromProduct(g: real, d: real)
    requires d > 0.0
    ensures g * d >= 0.0 <==> g >= 0.0
    ensures g * d <= 0.0 <==> g <= 0.0
  {
    if g > 0.0 {
      assert g * d > 0.0;
    } else if g < 0.0 {
      assert -g * d > 0.0;
    }
  }

  // ---------------------------------------------------------------------------------------------
  // The loop
  // ---------------------------------------------------------------------------------------------

  /** The overflow guards before a multiplication let exactly the results through that fit. */
  lemma GuardExact(a: nat, h1: nat, h0: nat)
    requires a > 0 && h0 <= INT64_MAX
    ensures h1 > (INT64_MAX - h0) / a <==> a * h1 + h0 > INT64_MAX
  {
    DivisionBound(h1, a, INT64_MAX - h0);
  }

  /** What a convergent returned from the loop is: round `s`, with partial quotient `a`. */
  ghost predicate Accepted(target: real, eps: real, s: State, n: State) {
    && 0 < n.k1 <= INT64_MAX && n.h1 <= INT64_MAX && Gcd(n.h1, n.k1) == 1
    && Miss(target, n.h1, n.k1) < 1.0
    && (Within(target, eps, n.h1, n.k1) || Miss(target, n.h1, n.k1) < DBL_EPSILON)
    && (Simplest(target, eps, n.k1) <==> s.k1 == 0 || !NearMissIsClose(s, n, target, eps))
  }

  /**
    * The rounds of the ideal expansion: the first convergent within the tolerance, or exact up to the
    * machine epsilon, as long as convergents fit 64 bits and `rounds` last.
    */
  ghost function Search(s: State, x: real, target: real, eps: real, rounds: nat): Option<(State, State)>
    decreases rounds
  {
    if rounds == 0 || x < 0.0 then None
    else
      var n := Next(s, x.Floor);
      if n.h1 > INT64_MAX || n.k1 > INT64_MAX || n.k1 == 0 then None
      else if Within(target, eps, n.h1, n.k1) || x - x.Floor as real < DBL_EPSILON then Some((s, n))
      else Search(n, 1.0 / (x - x.Floor as real), target, eps, rounds - 1)
  }

  const START := State(0, 1, 1, 0)

  /**
    * The convergent found need not be the simplest fraction: for 3.25 within 0.1 it is 13/4, although
    * 10/3 is within 0.1 as well.
    */
  lemma FirstConvergentNotSimplest(rounds: nat)
    requires rounds >= 2
    ensures
      var t := Magnitude(13, -2);
      && Search(START, t, t, 0.1, rounds) == Some((State(1, 0, 3, 1), State(3, 1, 13, 4)))
      && Within(t, 0.1, 10, 3) && !Simplest(t, 0.1, 4)
  {
    ThreeAndAQuarter(13, -2);
    SearchStep(START, 3.25, 3, 3.25, 0.1, rounds);
    SearchStep(State(1, 0, 3, 1), 4.0, 4, 3.25, 0.1, rounds - 1);
    assert Within(3.25, 0.1, 10, 3);
  }

  lemma ThreeAndAQuarter(mant: nat, shift: int)
    requires mant == 13 && shift == -2
    ensures Magnitude(mant, shift) == 3.25
  {
    assert Two(0 - shift) == 2 * Two(-1 - shift) && Two(-1 - shift) == 2 * Two(-2 - shift);
  }

  lemma SearchStep(s: State, x: real, a: nat, target: real, eps: real, rounds: nat)
    requires rounds > 0 && a as real <= x < a as real + 1.0 && Next(s, a).k1 > 0
    requires Next(s, a).h1 <= INT64_MAX && Next(s, a).k1 <= INT64_MAX
    ensures
      var n := Next(s, a);
      Search(s, x, target, eps, rounds) ==
        if Within(target, eps, n.h1, n.k1) || x - a as real < DBL_EPSILON then Some((s, n))
        else Search(n, 1.0 / (x - a as real), target, eps, rounds - 1)
  {
    assert x.Floor == a;
  }

  /** A partial quotient beyond the 64-bit range gives a convergent beyond it. */
  lemma HugeQuotient(s: State, a: nat)
    requires a > INT64_MAX
    ensures Det(s) == 1 || Det(s) == -1 ==> Next(s, a).h1 > INT64_MAX || Next(s, a).k1 > INT64_MAX
  {
    if s.h1 > 0 {
      MulMonotone(1, s.h1, a);
    } else if Det(s) == 1 || Det(s) == -1 {
      AbsTimes(s.h0, s.k1);
      assert s.k1 > 0;
      MulMonotone(1, s.k1, a);
    }
  }

  predicate Fits(s: State) {
    s.h0 <= INT64_MAX && s.k0 <= INT64_MAX && s.h1 <= INT64_MAX && s.k1 <= INT64_MAX
  }

  /** The guards of one round, before and after the multiplications; they stop exactly what does not fit. */
  method NextConvergent(s: State, x: real, ghost target: real) returns (fits: bool, n: State, a: nat)
    requires x > 0.0 && Tracks(s, x, target) && Fits(s)
    ensures a == x.Floor && a as real <= x < a as real + 1.0
    ensures var m := Next(s, a); fits <==> m.h1 <= INT64_MAX && m.k1 <= INT64_MAX && m.k1 > 0
    ensures fits ==> n == Next(s, a) && Fits(n) && (s.k1 > 0 ==> a >= 1)
  {
    a, n := x.Floor, s;
    if a > INT64_MAX {
      HugeQuotient(s, a);
    }
    if a > INT64_MAX + 1 || s.h1 > INT64_MAX || s.k1 > INT64_MAX {
      return false, n, a;
    }
    if a != 0 {
      GuardExact(a, s.h1, s.h0);
      GuardExact(a, s.k1, s.k0);
      if s.h1 > (INT64_MAX - s.h0) / a || s.k1 > (INT64_MAX - s.k0) / a {
        return false, n, a;
      }
    }
    n := Next(s, a);
    fits := !(n.h1 > INT64_MAX || n.k1 > INT64_MAX || n.k1 == 0);
  }

  /** Where the loop stands: all convergents so far fit and missed the tolerance. */
  ghost predicate Underway(s: State, x: real, target: real, eps: real) {
    x > 0.0 && Tracks(s, x, target) && Fits(s) && (s.k1 > 0 ==> !Within(target, eps, s.h1, s.k1))
  }

  datatype Round = Blocked | Hit(n: State) | Missed(n: State, x: real)

  /** One round: the next convergent, and the two tests for it. */
  method TryRound(s: State, x: real, target: real, eps: real, ghost rounds: nat) returns (r: Round)
    requires Underway(s, x, target, eps) && rounds > 0
    ensures r.Blocked? ==> Search(s, x, target, eps, rounds) == None
    ensures r.Hit? ==> Search(s, x, target, eps, rounds) == Some((s, r.n)) && Accepted(target, eps, s, r.n)
    ensures r.Missed? ==>
              Underway(r.n, r.x, target, eps) &&
              Search(s, x, target, eps, rounds) == Search(r.n, r.x, target, eps, rounds - 1)
  {
    var fits, n, a := NextConvergent(s, x, target);
    if !fits {
      return Blocked;
    }
    SearchStep(s, x, a, target, eps, rounds);
    var approx := n.h1 as real / n.k1 as real;
    if RealAbs(target - approx) <= eps {
      Acceptable(target, eps, s, n, x, a);
      return Hit(n);
    }
    var rem := x - a as real;
    if RealAbs(rem) < DBL_EPSILON {
      Acceptable(target, eps, s, n, x, a);
      return Hit(n);
    }
    TracksNext(s, x, a, target, n, 1.0 / rem);
    OverOne(rem);
    r := Missed(n, 1.0 / rem);
  }

  lemma StartTracks(s: State, target: real, eps: real)
    requires target > 0.0 && s == START
    ensures Underway(s, target, target, eps)
  {
  }

  /** The loop, for a number of rounds. */
  method Expand(start: State, target: real, eps: real, rounds: nat) returns (found: Option<(State, State)>)
    requires Underway(start, target, target, eps)
    ensures found == Search(start, target, target, eps, rounds)
    ensures found.Some? ==> Accepted(target, eps, found.value.0, found.value.1)
  {
    var s, x, iter := start, target, 0;
    while iter < rounds
      invariant 0 <= iter <= rounds && Underway(s, x, target, eps)
      invariant Search(s, x, target, eps, rounds - iter) == Search(start, target, target, eps, rounds)
    {
      var round := TryRound(s, x, target, eps, rounds - iter);
      match round {
        case Blocked =>
          return None;
        case Hit(n) =>
          return Some((s, n));
        case Missed(n, next) =>
          s, x := n, next;
      }
      iter := iter + 1;
    }
    found := None;
  }

  /** The sign of the result is the one of the float. */
  predicate SignKept(f: Float, r: Outcome) {
    f.Finite? && r.Built? ==> if f.negative then r.numer <= 0 else r.numer >= 0
  }

  /** The result is the convergent of the last round, with the sign of the float, and as close to the float. */
  ghost predicate FromLoop(f: Float, eps: real, s: State, n: State, r: Outcome) {
    && f.Finite? && Accepted(Magnitude(f.mant, f.shift), eps, s, n)
    && r == Built(if f.negative then 0 - n.h1 else n.h1, n.k1)
    && CloseTo(ValueOf(f), eps, r.numer, r.denom)
  }

  method Convert(f: Float, ghost eps: real, ghost s: State, n: State) returns (r: Outcome)
    requires f.Finite? && Accepted(Magnitude(f.mant, f.shift), eps, s, n)
    ensures FromLoop(f, eps, s, n, r) && SignKept(f, r)
  {
    r := Built(if f.negative then 0 - n.h1 else n.h1, n.k1);
    CloseToFloat(f, eps, s, n);
  }

  /**
    * `float_rationalize`. `found` is the last round when the loop returned a convergent: it is then in
    * lowest terms, fits 64 bits, lies within 1/k^2 of the target and within the tolerance (or is
    * exact up to the machine epsilon), and has the smallest possible denominator exactly when the
    * fraction one step before it is out of tolerance. The result has the sign of the float and is as
    * close to it. Otherwise the result is the exact conversion.
    */
  method FloatRationalize(f: Float, tolerance: real) returns (r: Outcome, found: Option<(State, State)>)
    ensures !f.Finite? ==> r == FloatDomainError
    ensures f.Finite? && found.Some? ==> FromLoop(f, RealAbs(tolerance), found.value.0, found.value.1, r)
    ensures f.Finite? && found.None? ==> (r == Decimal <==> !IsRatioOfWords(ValueOf(f)))
    ensures f.Finite? && found.None? && r != Decimal ==> IsExact(r, ValueOf(f))
    ensures SignKept(f, r)
    ensures f.Finite? ==>
              var target := Magnitude(f.mant, f.shift);
              found == if f.mant == 0 || tolerance == 0.0 then None
                       else Search(START, target, target, RealAbs(tolerance), 64)
  {
    found := None;
    if !f.Finite? {
      return FloatDomainError, None;
    }
    if f.mant == 0 || tolerance == 0.0 {
      r := ToExact(f);
      return;
    }
    var eps := RealAbs(tolerance);
    StartTracks(START, Magnitude(f.mant, f.shift), eps);
    found := Expand(START, Magnitude(f.mant, f.shift), eps, 64);
    if found.Some? {
      r := Convert(f, eps, found.value.0, found.value.1);
    } else {
      r := ToExact(f);
    }
  }

  /** Within the tolerance, or exact up to the machine epsilon. */
  ghost predicate CloseTo(x: real, eps: real, p: int, q: int) {
    q > 0 && (x - eps <= p as real / q as real <= x + eps ||
              -DBL_EPSILON < (x * q as real - p as real) * q as real < DBL_EPSILON)
  }

  lemma CloseToFloat(f: Float, eps: real, s: State, n: State)
    requires f.Finite? && Accepted(Magnitude(f.mant, f.shift), eps, s, n)
    ensures CloseTo(ValueOf(f), eps, if f.negative then 0 - n.h1 else n.h1, n.k1)
  {
    MirrorImage(Magnitude(f.mant, f.shift), eps, n.h1, n.k1);
    SpelledOut(ValueOf(f), eps, if f.negative then 0 - n.h1 else n.h1, n.k1);
  }

  lemma SpelledOut(x: real, eps: real, p: int, q: int)
    requires q > 0 && (Within(x, eps, p, q) || Miss(x, p, q) < DBL_EPSILON)
    ensures CloseTo(x, eps, p, q)
  {
    var gap, k := x * q as real - p as real, q as real;
    assert Miss(x, p, q) == RealAbs(gap) * k;
    NegatedProduct(gap, k);
  }

  lemma NegatedProduct(x: real, y: real)
    ensures (-x) * y == -(x * y)
  {
  }

  lemma MirrorImage(target: real, eps: real, h: int, k: int)
    requires k > 0
    ensures Within(-target, eps, 0 - h, k) <==> Within(target, eps, h, k)
    ensures Miss(-target, 0 - h, k) == Miss(target, h, k)
  {
    var q, negated := h as real / k as real, (0 - h) as real / k as real;
    assert q * k as real == h as real && negated * k as real == -(h as real);
    MirrorQuotient(q, negated, k as real, h as real);
    assert Gap(-target, 0 - h, k) == -Gap(target, h, k);
  }

  lemma MirrorQuotient(q: real, negated: real, k: real, h: real)
    requires k > 0.0 && q * k == h && negated * k == -h
    ensures negated == -q
  {
    assert (negated + q) * k == 0.0;
  }

  /** `(-3.25).rationalize(0.1)` is -13/4. */
  method NegativeFloat() returns (r: Outcome)
    ensures r == Built(-13, 4)
  {
    FirstConvergentNotSimplest(64);
    var found;
    r, found := FloatRationalize(Finite(true, 13, -2), 0.1);
  }

  /** A convergent returned by either exit is the convergent with the promised properties. */
  lemma Acceptable(target: real, eps: real, s: State, n: State, x: real, a: nat)
    requires Tracks(s, x, target) && a as real <= x < a as real + 1.0
    requires s.k1 > 0 ==> a >= 1 && !Within(target, eps, s.h1, s.k1)
    requires n == Next(s, a) && 0 < n.k1 <= INT64_MAX && n.h1 <= INT64_MAX
    requires Within(target, eps, n.h1, n.k1) || x - a as real < DBL_EPSILON
    ensures Accepted(target, eps, s, n)
  {
    NextCoprime(s, x, a, target);
    ConvergentClose(s, x, a, target);
    SimplestIff(s, x, a, target, eps);
  }

  lemma NextCoprime(s: State, x: real, a: nat, target: real)
    requires Tracks(s, x, target)
    ensures Gcd(Next(s, a).h1, Next(s, a).k1) == 1
  {
    NextDet(s, a);
    NeighboursCoprime(Next(s, a));
  }
}
