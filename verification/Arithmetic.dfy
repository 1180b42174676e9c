/** Integer arithmetic of the interpreter: C division, Ruby division, Euclid's algorithm and modular powers. */
module Arithmetic {

  const INT64_MAX := 0x7fff_ffff_ffff_ffff
  const INT64_MIN := -0x8000_0000_0000_0000

  function Abs(n: int): nat {
    if n < 0 then -n else n
  }

  lemma MulAssociates(a: int, b: int, c: int)
    ensures a * (b * c) == a * b * c
  {
  }

  lemma MulDistributes(a: int, b: int, c: int)
    ensures a * (b + c) == a * b + a * c
  {
  }

  lemma MulMonotone(a: int, b: int, c: int)
    requires c >= 0
    ensures a <= b ==> a * c <= b * c
  {
    if a <= b {
      assert (b - a) * c >= 0;
    }
  }

  lemma RealProduct(a: int, b: int)
    ensures (a * b) as real == (a as real) * (b as real)
  {
  }

  lemma RealRegroup(x: real, y: real, z: real)
    ensures (x * y) * z == y * (x * z)
  {
  }

  /** A quotient of integers as a real, multiplied out. */
  lemma QuotientTimes(n: int, d: int, p: int, q: int)
    requires d != 0
    ensures (n as real / d as real) * q as real == p as real <==> n * q == d * p
  {
    var x, rd := n as real / d as real, d as real;
    RealProduct(n, q);
    RealProduct(d, p);
    assert x * rd == n as real;
    RealRegroup(x, rd, q as real);
    CancelReal(rd, x * q as real, p as real);
  }

  lemma CancelReal(d: real, x: real, y: real)
    requires d != 0.0
    ensures d * x == d * y <==> x == y
  {
    if d * x == d * y {
      assert d * (x - y) == 0.0;
    }
  }

  // ---------------------------------------------------------------------------------------------
  // Powers of two
  // ---------------------------------------------------------------------------------------------

  /** 2^e. */
  function Two(e: nat): (p: nat)
    ensures p >= 1
  {
    if e == 0 then 1 else 2 * Two(e - 1)
  }

  lemma {:induction false} TwoMonotone(d: nat, e: nat)
    requires d <= e
    ensures Two(d) <= Two(e)
  {
    if d == e {
    } else {
      TwoMonotone(d, e - 1);
    }
  }

  // ---------------------------------------------------------------------------------------------
  // Division: C truncates, Ruby floors
  // ---------------------------------------------------------------------------------------------

  function CDiv(a: int, b: int): int
    requires b != 0
  {
    if (a < 0) == (b < 0) then Abs(a) / Abs(b) else -(Abs(a) / Abs(b))
  }

  function CMod(a: int, b: int): int
    requires b != 0
  {
    a - b * CDiv(a, b)
  }

  lemma CModBounds(a: int, b: int)
    requires b != 0
    ensures Abs(CMod(a, b)) < Abs(b)
    ensures CMod(a, b) != 0 ==> (CMod(a, b) < 0) == (a < 0)
  {
    var q, n := Abs(a) / Abs(b), Abs(b);
    QuotientAndRest(Abs(a), n);
    NegatedProducts(n, q);
    NegatedProducts(b, q);
  }

  lemma QuotientAndRest(m: nat, n: nat)
    requires n > 0
    ensures m == n * (m / n) + m % n && 0 <= m % n < n
  {
  }

  lemma NegatedProducts(b: int, q: int)
    ensures (-b) * q == -(b * q) && b * (-q) == -(b * q)
  {
  }

  /** `/` on integers: the truncated quotient, one less when the signs differ and it is not exact. */
  function RubyDiv(a: int, b: int): int
    requires b != 0
  {
    var q, r := CDiv(a, b), CMod(a, b);
    if r != 0 && (r < 0) != (b < 0) then q - 1 else q
  }

  /** The correction makes the quotient the floor, for either sign of the divisor. */
  lemma RubyDivFloors(a: int, b: int)
    requires b != 0
    ensures b > 0 ==> RubyDiv(a, b) * b <= a < (RubyDiv(a, b) + 1) * b
    ensures b < 0 ==> RubyDiv(a, b) * b >= a > (RubyDiv(a, b) + 1) * b
    ensures RubyDiv(a, b) == if b > 0 then a / b else (-a) / (-b)
  {
    RubyDivBounds(a, b);
    var q := RubyDiv(a, b);
    if b > 0 {
      EuclidBounds(a, b);
      FloorUnique(a, b, q, a / b);
    } else {
      EuclidBounds(-a, -b);
      TimesNegative(q, b);
      TimesNegative(q + 1, b);
      FloorUnique(-a, -b, q, (-a) / (-b));
    }
  }

  lemma TimesNegative(q: int, b: int)
    ensures q * (-b) == -(q * b)
  {
  }

  lemma RubyDivBounds(a: int, b: int)
    requires b != 0
    ensures b > 0 ==> RubyDiv(a, b) * b <= a < (RubyDiv(a, b) + 1) * b
    ensures b < 0 ==> RubyDiv(a, b) * b >= a > (RubyDiv(a, b) + 1) * b
  {
    CModBounds(a, b);
    NearbyProducts(CDiv(a, b), b);
    FloorCases(a, b, CDiv(a, b), CMod(a, b), b * CDiv(a, b));
  }

  lemma NearbyProducts(q: int, b: int)
    ensures q * b == b * q && (q - 1) * b == b * q - b && (q + 1) * b == b * q + b
  {
  }

  lemma FloorCases(a: int, b: int, q: int, r: int, bq: int)
    requires b != 0 && a == bq + r && Abs(r) < Abs(b) && (r != 0 ==> (r < 0) == (a < 0))
    requires q * b == bq && (q - 1) * b == bq - b && (q + 1) * b == bq + b
    ensures
      var p := if r != 0 && (r < 0) != (b < 0) then q - 1 else q;
      && (b > 0 ==> p * b <= a < (p + 1) * b)
      && (b < 0 ==> p * b >= a > (p + 1) * b)
  {
  }

  lemma EuclidBounds(a: int, b: int)
    requires b > 0
    ensures (a / b) * b <= a < (a / b + 1) * b
  {
  }

  lemma FloorUnique(a: int, b: int, p: int, q: int)
    requires b > 0 && p * b <= a < (p + 1) * b && q * b <= a < (q + 1) * b
    ensures p == q
  {
    MulMonotone(p + 1, q, b);
    MulMonotone(q + 1, p, b);
  }

  // ---------------------------------------------------------------------------------------------
  // Greatest common divisor
  // ---------------------------------------------------------------------------------------------

  ghost predicate Divides(d: int, n: int) {
    exists k :: n == d * k
  }

  function Gcd(a: nat, b: nat): (g: nat)
    decreases b
  {
    if b == 0 then a else Gcd(b, a % b)
  }

  lemma DividesCombination(d: int, a: int, b: int, x: int, y: int)
    requires Divides(d, a) && Divides(d, b)
    ensures Divides(d, a * x + b * y)
  {
    var i :| a == d * i;
    var j :| b == d * j;
    assert d * (i * x + j * y) == (d * i) * x + (d * j) * y;
  }

  lemma {:induction false} GcdDivides(a: nat, b: nat)
    ensures Divides(Gcd(a, b), a) && Divides(Gcd(a, b), b)
    decreases b
  {
    var g := Gcd(a, b);
    if b == 0 {
      assert a == g * 1 && b == g * 0;
    } else {
      GcdDivides(b, a % b);
      DividesCombination(g, b, a % b, a / b, 1);
      assert b * (a / b) + (a % b) * 1 == a;
    }
  }

  /** Coefficients that write the greatest common divisor as a combination. */
  lemma {:induction false} Bezout(a: nat, b: nat) returns (x: int, y: int)
    ensures a * x + b * y == Gcd(a, b)
    decreases b
  {
    if b == 0 {
      x, y := 1, 0;
    } else {
      var u, v := Bezout(b, a % b);
      x, y := v, u - (a / b) * v;
      BezoutStep(a, b, a / b, a % b, u, v);
    }
  }

  lemma BezoutStep(a: int, b: int, q: int, r: int, u: int, v: int)
    requires a == b * q + r
    ensures a * v + b * (u - q * v) == b * u + r * v
  {
    MulDistributes(v, b * q, r);
    MulDistributes(b, u, -(q * v));
    MulAssociates(b, q, v);
  }

  lemma DividesGcd(d: int, a: nat, b: nat)
    requires Divides(d, a) && Divides(d, b)
    ensures Divides(d, Gcd(a, b))
  {
    var x, y := Bezout(a, b);
    DividesCombination(d, a, b, x, y);
  }

  lemma AbsTimes(a: int, b: int)
    ensures Abs(a * b) == Abs(a) * Abs(b)
    ensures a * b != 0 ==> a != 0 && b != 0
  {
  }

  lemma DividesBound(d: int, n: int)
    requires Divides(d, n) && n != 0
    ensures Abs(d) <= Abs(n) && d != 0
  {
    var k :| n == d * k;
    AbsTimes(d, k);
    MulMonotone(1, Abs(k), Abs(d));
  }

  lemma GcdPositive(a: nat, b: nat)
    requires a > 0 || b > 0
    ensures Gcd(a, b) >= 1
  {
    GcdDivides(a, b);
    if a > 0 {
      DividesBound(Gcd(a, b), a);
    } else {
      DividesBound(Gcd(a, b), b);
    }
  }

  /** If some combination is 1 the numbers are coprime. */
  lemma CoprimeFromCombination(a: nat, b: nat, x: int, y: int)
    requires a * x + b * y == 1
    ensures Gcd(a, b) == 1
  {
    GcdDivides(a, b);
    DividesCombination(Gcd(a, b), a, b, x, y);
    DividesBound(Gcd(a, b), 1);
  }

  /** A divisor of a product that is coprime to one factor divides the other. */
  lemma Gauss(d: nat, a: nat, b: int)
    requires Gcd(a, d) == 1 && Divides(d, a * b)
    ensures Divides(d, b)
  {
    var x, y := Bezout(a, d);
    var k :| a * b == d * k;
    GaussStep(a, b, d, k, x, y);
    assert b == d * (k * x + b * y);
  }

  lemma GaussStep(a: int, b: int, d: int, k: int, x: int, y: int)
    requires a * x + d * y == 1 && a * b == d * k
    ensures b == d * (k * x + b * y)
  {
    MulDistributes(b, a * x, d * y);
    MulAssociates(b, a, x);
    MulAssociates(d, k, x);
    MulAssociates(b, d, y);
    MulAssociates(d, b, y);
    MulDistributes(d, k * x, b * y);
  }

  /** `int_gcd`: the result is a common divisor that every common divisor divides. */
  method IntGcd(a: int, b: int) returns (g: nat)
    ensures g == Gcd(Abs(a), Abs(b))
    ensures Divides(g, a) && Divides(g, b)
    ensures forall d :: Divides(d, a) && Divides(d, b) ==> Divides(d, g)
  {
    var x, y := Abs(a), Abs(b);
    while y != 0
      invariant Gcd(Abs(a), Abs(b)) == Gcd(x, y)
      decreases y
    {
      var t := y;
      y := x % y;
      x := t;
    }
    g := x;
    GcdDivides(Abs(a), Abs(b));
    DividesSign(g, a);
    DividesSign(g, b);
    forall d | Divides(d, a) && Divides(d, b)
      ensures Divides(d, g)
    {
      DividesSign(d, a);
      DividesSign(d, b);
      DividesGcd(d, Abs(a), Abs(b));
    }
  }

  lemma DividesSign(d: int, n: int)
    ensures Divides(d, Abs(n)) <==> Divides(d, n)
  {
    if Divides(d, n) {
      var k :| n == d * k;
      assert -n == d * (-k);
    }
    if Divides(d, Abs(n)) {
      var k :| Abs(n) == d * k;
      assert n == d * k || n == d * (-k);
    }
  }

  // ---------------------------------------------------------------------------------------------
  // Modular powers
  // ---------------------------------------------------------------------------------------------

  function Pow(n: int, e: nat): int {
    if e == 0 then 1 else n * Pow(n, e - 1)
  }

  lemma {:induction false} PowHalves(n: int, e: nat)
    ensures Pow(n * n, e / 2) * (if e % 2 == 1 then n else 1) == Pow(n, e)
  {
    if e >= 2 {
      PowHalves(n, e - 2);
      var rest, odd := Pow(n * n, (e - 2) / 2), if e % 2 == 1 then n else 1;
      assert Pow(n * n, e / 2) == n * n * rest;
      MulAssociates(n * n, rest, odd);
      MulAssociates(n, n, rest * odd);
    }
  }

  lemma {:induction false} PowSum(n: int, d: nat, e: nat)
    ensures Pow(n, d + e) == Pow(n, d) * Pow(n, e)
    ensures Pow(n, 0) == 1 && Pow(n, 1) == n
  {
    if d == 0 {
    } else {
      PowSum(n, d - 1, e);
      MulAssociates(n, Pow(n, d - 1), Pow(n, e));
    }
  }

  lemma {:induction false} TwoIsPower(e: nat)
    ensures Two(e) == Pow(2, e)
  {
    if e == 0 {
    } else {
      TwoIsPower(e - 1);
    }
  }

  ghost predicate Congruent(a: int, b: int, m: int) {
    Divides(m, a - b)
  }

  lemma CongruentMod(a: int, m: int)
    requires m != 0
    ensures Congruent(CMod(a, m), a, m)
  {
    assert CMod(a, m) - a == m * (-CDiv(a, m));
  }

  lemma CongruentTimes(a: int, b: int, c: int, d: int, m: int)
    requires Congruent(a, b, m) && Congruent(c, d, m)
    ensures Congruent(a * c, b * d, m)
  {
    assert a * c - b * d == (a - b) * c + (c - d) * b;
    DividesCombination(m, a - b, c - d, c, b);
  }

  lemma CongruentTrans(a: int, b: int, c: int, m: int)
    requires Congruent(a, b, m) && Congruent(b, c, m)
    ensures Congruent(a, c, m)
  {
    DividesCombination(m, a - b, b - c, 1, 1);
    assert (a - b) * 1 + (b - c) * 1 == a - c;
  }

  lemma {:induction false} CongruentPow(a: int, b: int, e: nat, m: int)
    requires Congruent(a, b, m)
    ensures Congruent(Pow(a, e), Pow(b, e), m)
  {
    if e == 0 {
      assert Pow(a, 0) - Pow(b, 0) == m * 0;
    } else {
      CongruentPow(a, b, e - 1, m);
      CongruentTimes(a, b, Pow(a, e - 1), Pow(b, e - 1), m);
    }
  }

  /** Between the two values a non-negative number below `m` is the only one of its class. */
  lemma CongruentUnique(a: int, b: int, m: int)
    requires Congruent(a, b, m) && 0 <= a < m && 0 <= b < m
    ensures a == b
  {
    if a != b {
      DividesBound(m, a - b);
    }
  }

  lemma ModIsCongruent(a: int, m: int)
    requires m > 0
    ensures Congruent(a % m, a, m)
  {
    assert a % m - a == m * (-(a / m));
  }

  lemma CongruentItself(a: int, m: int)
    ensures Congruent(a, a, m)
  {
    assert a - a == m * 0;
  }

  /** A factor may be replaced by its residue, on both sides of a product. */
  lemma ReduceFactors(a: int, a': int, b: int, b': int, goal: int, m: int)
    requires Congruent(a', a, m) && Congruent(b', b, m) && Congruent(a * b, goal, m)
    ensures Congruent(a' * b', goal, m)
  {
    CongruentTimes(a', a, b', b, m);
    CongruentTrans(a' * b', a * b, goal, m);
  }

  /** One round of the loop: what is left to multiply stays congruent to the whole power. */
  lemma SquareStep(goal: int, result: int, base: int, e: nat, m: int)
    requires m != 0 && e > 0 && Congruent(result * Pow(base, e), goal, m)
    ensures
      var result' := if e % 2 == 1 then CMod(result * base, m) else result;
      Congruent(result' * Pow(CMod(base * base, m), e / 2), goal, m)
  {
    var odd, square, half := if e % 2 == 1 then base else 1, CMod(base * base, m), Pow(base * base, e / 2);
    PowHalves(base, e);
    MulAssociates(result, odd, half);
    assert result * odd * half == result * Pow(base, e);
    CongruentMod(base * base, m);
    CongruentPow(square, base * base, e / 2, m);
    if e % 2 == 1 {
      CongruentMod(result * base, m);
      ReduceFactors(result * base, CMod(result * base, m), half, Pow(square, e / 2), goal, m);
    } else {
      CongruentItself(result, m);
      ReduceFactors(result, result, half, Pow(square, e / 2), goal, m);
    }
  }

  /**
    * `Integer#pow(exp, mod)` by repeated squaring. Ruby's residue has the sign of the modulus; for a
    * negative one the code keeps to that for odd powers and for powers the modulus divides. `peak` is
    * the largest product the loop forms, in absolute value.
    */
  method ModPow(n: int, exp: int, mod: int) returns (result: int, ghost peak: nat)
    requires mod != 0
    ensures exp >= 0 ==> Congruent(result, Pow(n, exp), mod)
    ensures mod > 0 && exp >= 0 ==> (result == Pow(n, exp) % mod <==> mod > 1 || exp > 0)
    ensures mod < 0 && exp >= 0 ==>
              (mod < result <= 0 <==> exp % 2 == 1 || (exp > 0 && Congruent(Pow(n, exp), 0, mod)))
    ensures exp < 0 ==> result == 1
    ensures 0 < mod <= 3037000500 ==> peak <= INT64_MAX
  {
    result, peak := 1, 0;
    var base := CMod(CMod(n, mod) + mod, mod);
    BaseCongruent(n, mod);
    ghost var goal := if exp >= 0 then Pow(n, exp) else 0;
    var e := exp;
    if exp >= 0 {
      CongruentPow(base, n, exp, mod);
    }
    while e > 0
      invariant e <= exp && (exp >= 0 ==> e >= 0) && (exp < 0 ==> e == exp && result == 1)
      invariant exp >= 0 ==> Congruent(result * Pow(base, e), goal, mod)
      invariant mod > 0 ==> Above(result, base, e, exp, mod)
      invariant mod < 0 ==> Below(result, base, e, exp, mod)
      invariant 0 < mod <= 3037000500 ==> peak <= INT64_MAX
      decreases e
    {
      SquareStep(goal, result, base, e, mod);
      StepBounds(result, base, mod);
      StepBounds(base, base, mod);
      StepSigns(result, base, e, exp, mod);
      if e % 2 == 1 {
        peak := if Abs(result * base) > peak then Abs(result * base) else peak;
        result := CMod(result * base, mod);
      }
      peak := if Abs(base * base) > peak then Abs(base * base) else peak;
      base := CMod(base * base, mod);
      e := e / 2;
    }
    if exp >= 0 {
      if mod > 0 {
        ModIsCongruent(goal, mod);
        Canonical(result, goal, mod);
      } else {
        NegativeResidue(result, goal, exp, mod);
      }
    }
  }

  /** The loop's bounds for a positive modulus. */
  ghost predicate Above(result: int, base: int, e: int, exp: int, m: int) {
    && 0 <= base < m && (e == exp ==> result == 1) && (e < exp && e == 0 ==> 0 <= result < m)
    && (m > 1 ==> 0 <= result < m) && (m == 1 ==> 0 <= result <= 1)
  }

  /** For a negative one: the first base is not positive, all squares are not negative. */
  ghost predicate Below(result: int, base: int, e: int, exp: int, m: int) {
    if e == exp then result == 1 && m < base <= 0
    else
      && 0 <= base < -m
      && (if exp % 2 == 1 then m < result <= 0 else 0 <= result && (result == 1 || result < -m))
      && (e == 0 ==> result < -m)
  }

  lemma StepSigns(result: int, base: int, e: int, exp: int, m: int)
    requires m < 0 && 0 < e <= exp ==> Below(result, base, e, exp, m)
    ensures m < 0 && 0 < e <= exp ==>
              var result' := if e % 2 == 1 then CMod(result * base, m) else result;
              Below(result', CMod(base * base, m), e / 2, exp, m)
  {
    if m < 0 && 0 < e <= exp {
      ProductResidue(base, base, m);
      ProductResidue(result, base, m);
      SignsKept(result, base, e, exp, m, CMod(result * base, m), CMod(base * base, m));
    }
  }

  lemma SignsKept(result: int, base: int, e: int, exp: int, m: int, product: int, square: int)
    requires m < 0 && 0 < e <= exp && Below(result, base, e, exp, m)
    requires 0 - Abs(m) < product < Abs(m) && 0 <= square < Abs(m)
    requires SameSign(result, base) ==> product >= 0
    requires SameSign(result, -base) ==> product <= 0
    ensures Below(if e % 2 == 1 then product else result, square, e / 2, exp, m)
  {
  }

  predicate SameSign(a: int, b: int) {
    (a <= 0 && b <= 0) || (a >= 0 && b >= 0)
  }

  lemma ProductSign(a: int, b: int)
    ensures SameSign(a, b) ==> a * b >= 0
    ensures SameSign(a, -b) ==> a * b <= 0
  {
  }

  /** The C remainder of a product has the sign of the product. */
  lemma ProductResidue(a: int, b: int, m: int)
    requires m != 0
    ensures 0 - Abs(m) < CMod(a * b, m) < Abs(m)
    ensures SameSign(a, b) ==> CMod(a * b, m) >= 0
    ensures SameSign(a, -b) ==> CMod(a * b, m) <= 0
  {
    ProductSign(a, b);
    CModBounds(a * b, m);
  }

  lemma NegativeResidue(result: int, goal: int, exp: nat, m: int)
    requires m < 0 && Congruent(result * 1, goal, m)
    requires if exp == 0 then result == 1 else if exp % 2 == 1 then m < result <= 0 else 0 <= result < -m
    ensures m < result <= 0 <==> exp % 2 == 1 || (exp > 0 && Congruent(goal, 0, m))
  {
    if exp % 2 == 0 && exp > 0 {
      CongruentSymmetric(result, goal, m);
      if Congruent(goal, 0, m) {
        CongruentTrans(result, goal, 0, m);
        if result != 0 {
          DividesBound(m, result - 0);
        }
      } else if result == 0 {
        assert false;
      }
    }
  }

  lemma BaseCongruent(n: int, m: int)
    requires m != 0
    ensures Congruent(CMod(CMod(n, m) + m, m), n, m)
    ensures m > 0 ==> 0 <= CMod(CMod(n, m) + m, m) < m
    ensures m < 0 ==> m < CMod(CMod(n, m) + m, m) <= 0
  {
    var r := CMod(n, m);
    CModBounds(n, m);
    CModBounds(r + m, m);
    CongruentMod(n, m);
    CongruentMod(r + m, m);
    assert m == m * 1;
    DividesCombination(m, r - n, m, 1, 1);
    CongruentTrans(CMod(r + m, m), r + m, n, m);
  }

  lemma StepBounds(a: int, b: int, m: int)
    requires m != 0
    ensures m > 0 && 0 <= a <= m && 0 <= b < m ==> 0 <= a * b && 0 <= CMod(a * b, m) < m
    ensures 0 < m <= 3037000500 && 0 <= a < m && 0 <= b < m ==> Abs(a * b) <= INT64_MAX
    ensures m == 1 && 0 <= a <= 1 && 0 <= b < 1 ==> Abs(a * b) <= INT64_MAX
  {
    CModBounds(a * b, m);
    if 0 <= a && 0 <= b {
      assert a * b >= 0;
      if a < m <= 3037000500 && b < m {
        MulMonotone(a, 3037000499, b);
        MulMonotone(b, 3037000499, 3037000499);
      }
    }
  }

  lemma Canonical(result: int, goal: int, m: int)
    requires m > 0 && Congruent(result * 1, goal, m)
    ensures 0 <= result < m ==> result == goal % m
    ensures !(0 <= result < m) ==> result != goal % m
  {
    ModIsCongruent(goal, m);
    if 0 <= result < m {
      CongruentSymmetric(goal % m, goal, m);
      CongruentTrans(result, goal, goal % m, m);
      CongruentUnique(result, goal % m, m);
    }
  }

  lemma CongruentSymmetric(a: int, b: int, m: int)
    requires Congruent(a, b, m)
    ensures Congruent(b, a, m)
  {
    var k :| a - b == m * k;
    assert b - a == m * (-k);
  }
}
