/** The prelude class `Rational`: fractions in lowest terms over mathematical integers. */
module Rationals {
  import opened Arithmetic
  import opened Options

  datatype Rational = Rational(num: int, den: int)

  datatype Outcome<+T> = Returned(value: T) | ZeroDivisionError | TypeError

  /** The right operand of an operator, by the branch of its `case`. */
  datatype Operand = RationalArg(r: Rational) | IntegerArg(n: int) | OtherArg

  ghost predicate Canonical(r: Rational) {
    r.den > 0 && Gcd(Abs(r.num), r.den) == 1
  }

  ghost predicate Usable(x: Operand) {
    x.RationalArg? ==> Canonical(x.r)
  }

  /** The number a fraction stands for. */
  ghost function Denotes(r: Rational): real
    requires r.den != 0
  {
    r.num as real / r.den as real
  }

  ghost function OperandValue(x: Operand): real
    requires Usable(x) && !x.OtherArg?
  {
    if x.RationalArg? then Denotes(x.r) else x.n as real
  }

  // ---------------------------------------------------------------------------------------------
  // Quotients of integers as reals
  // ---------------------------------------------------------------------------------------------

  lemma ProductNonzero(a: int, b: int)
    requires a != 0 && b != 0
    ensures a * b != 0
  {
  }

  /** A real is a given quotient when it solves the multiplied-out equation. */
  lemma QuotientFrom(x: real, n: int, d: int)
    requires d != 0 && x * d as real == n as real
    ensures n as real / d as real == x
  {
  }

  lemma CrossMultiply(n: int, d: int, m: int, e: int)
    requires d != 0 && e != 0
    ensures n as real / d as real == m as real / e as real <==> n * e == m * d
  {
    var x, y, rd, re := n as real / d as real, m as real / e as real, d as real, e as real;
    RealProduct(n, e);
    RealProduct(m, d);
    assert x * rd * re == n as real * re;
    assert y * re * rd == m as real * rd;
    if n * e == m * d {
      assert (x - y) * (rd * re) == 0.0;
      assert rd * re != 0.0;
    }
  }

  lemma QuotientSum(n: int, d: int, m: int, e: int)
    requires d != 0 && e != 0
    ensures d * e != 0
    ensures (n * e + m * d) as real / (d * e) as real == n as real / d as real + m as real / e as real
    ensures (n * e - m * d) as real / (d * e) as real == n as real / d as real - m as real / e as real
  {
    var x, y, rd, re := n as real / d as real, m as real / e as real, d as real, e as real;
    ProductNonzero(d, e);
    RealProduct(n, e);
    RealProduct(m, d);
    RealProduct(d, e);
    assert x * (rd * re) == n as real * re;
    assert y * (rd * re) == m as real * rd;
    RealDistributes(x, y, rd * re);
    QuotientFrom(x + y, n * e + m * d, d * e);
    QuotientFrom(x - y, n * e - m * d, d * e);
  }

  lemma RealDistributes(x: real, y: real, z: real)
    ensures (x + y) * z == x * z + y * z
    ensures (x - y) * z == x * z - y * z
  {
  }

  lemma RealInterchange(x: real, y: real, a: real, b: real)
    ensures (x * y) * (a * b) == (x * a) * (y * b)
  {
  }

  lemma QuotientProduct(n: int, d: int, m: int, e: int)
    requires d != 0 && e != 0
    ensures d * e != 0
    ensures (n * m) as real / (d * e) as real == (n as real / d as real) * (m as real / e as real)
  {
    var x, y, rd, re := n as real / d as real, m as real / e as real, d as real, e as real;
    ProductNonzero(d, e);
    RealProduct(n, m);
    RealProduct(d, e);
    RealInterchange(x, y, rd, re);
    QuotientFrom(x * y, n * m, d * e);
  }

  lemma QuotientQuotient(n: int, d: int, m: int, e: int)
    requires d != 0 && e != 0 && m != 0
    ensures d * m != 0 && m as real / e as real != 0.0
    ensures (n * e) as real / (d * m) as real == (n as real / d as real) / (m as real / e as real)
  {
    var x, y, z := n as real / d as real, m as real / e as real, e as real / m as real;
    assert y * e as real == m as real;
    QuotientProduct(n, d, e, m);
    assert z == 1.0 / y by {
      QuotientFrom(1.0 / y, e, m) by {
        assert (1.0 / y) * (y * e as real) == e as real;
      }
    }
    assert x * z == x / y;
  }

  // ---------------------------------------------------------------------------------------------
  // Construction
  // ---------------------------------------------------------------------------------------------

  lemma ExactQuotient(a: int, g: int)
    requires g > 0 && Divides(g, a)
    ensures RubyDiv(a, g) * g == a
  {
    RubyDivFloors(a, g);
    var k :| a == g * k;
    MulMonotone(k + 1, RubyDiv(a, g), g);
    MulMonotone(RubyDiv(a, g) + 1, k, g);
  }

  lemma ReducedIsCoprime(n: int, d: int, a: int, b: int, g: int)
    requires d > 0 && g == Gcd(Abs(n), d) && g > 0 && a * g == n && b * g == d
    ensures b > 0 && Gcd(Abs(a), b) == 1
  {
    if b <= 0 {
      MulMonotone(b, 0, g);
      assert false;
    }
    AbsTimes(a, g);
    var x, y := Bezout(Abs(n), d);
    MulAssociates(g, Abs(a), x);
    MulAssociates(g, b, y);
    MulDistributes(g, Abs(a) * x, b * y);
    assert g * (Abs(a) * x + b * y) == g * 1;
    CancelFactor(g, Abs(a) * x + b * y, 1);
    CoprimeFromCombination(Abs(a), b, x, y);
  }

  lemma CancelFactor(g: int, a: int, b: int)
    requires g != 0 && g * a == g * b
    ensures a == b
  {
    MulDistributes(g, a, -b);
    if a != b {
      ProductNonzero(g, a - b);
    }
  }

  /** `Rational.new(num, den)`: the fraction in lowest terms with the same value, its denominator positive. */
  function New(num: int, den: int): (r: Outcome<Rational>)
    ensures r.ZeroDivisionError? <==> den == 0
    ensures r.Returned? <==> den != 0
    ensures r.Returned? ==> Canonical(r.value) && Denotes(r.value) == num as real / den as real
  {
    if den == 0 then
      ZeroDivisionError
    else
      var n, d := if den < 0 then -num else num, if den < 0 then -den else den;
      var g := Gcd(Abs(n), d);
      GcdPositive(Abs(n), d);
      ReduceProof(num, den, n, d, g);
      Returned(Rational(RubyDiv(n, g), RubyDiv(d, g)))
  }

  lemma ReduceProof(num: int, den: int, n: int, d: int, g: int)
    requires den != 0 && g > 0 && d > 0 && g == Gcd(Abs(n), d)
    requires (n == num && d == den) || (n == -num && d == -den)
    ensures
      var r := Rational(RubyDiv(n, g), RubyDiv(d, g));
      Canonical(r) && Denotes(r) == num as real / den as real
  {
    GcdDivides(Abs(n), d);
    DividesSign(g, n);
    ExactQuotient(n, g);
    ExactQuotient(d, g);
    ReducedMeaning(num, den, n, d, g, RubyDiv(n, g), RubyDiv(d, g));
  }

  lemma ReducedMeaning(num: int, den: int, n: int, d: int, g: int, a: int, b: int)
    requires den != 0 && d > 0 && g > 0 && g == Gcd(Abs(n), d) && a * g == n && b * g == d
    requires (n == num && d == den) || (n == -num && d == -den)
    ensures Canonical(Rational(a, b)) && Denotes(Rational(a, b)) == num as real / den as real
  {
    ReducedIsCoprime(n, d, a, b, g);
    SameQuotient(a, b, g, n, d);
    if n != num {
      NegatedQuotient(num, den);
    }
  }

  lemma SameQuotient(a: int, b: int, g: int, n: int, d: int)
    requires b != 0 && d != 0 && a * g == n && b * g == d
    ensures a as real / b as real == n as real / d as real
  {
    MulAssociates(a, b, g);
    MulAssociates(a, g, b);
    CrossMultiply(a, b, n, d);
  }

  lemma NegatedQuotient(n: int, d: int)
    requires d != 0
    ensures (-n) as real / (-d) as real == n as real / d as real
  {
    CrossMultiply(-n, -d, n, d);
  }

  /** Fractions in lowest terms are unique: equal values are the same numerator and denominator. */
  lemma CanonicalUnique(a: Rational, b: Rational)
    requires Canonical(a) && Canonical(b)
    ensures a == b <==> Denotes(a) == Denotes(b)
  {
    if Denotes(a) == Denotes(b) {
      CrossMultiply(a.num, a.den, b.num, b.den);
      DenominatorDivides(a, b);
      DenominatorDivides(b, a);
      DividesBound(a.den, b.den);
      DividesBound(b.den, a.den);
      CancelFactor(a.den, a.num, b.num);
    }
  }

  lemma DenominatorDivides(a: Rational, b: Rational)
    requires Canonical(a) && Canonical(b) && a.num * b.den == b.num * a.den
    ensures Divides(a.den, b.den)
  {
    assert a.num * b.den == a.den * b.num;
    assert Divides(a.den, a.num * b.den);
    DividesSign(a.den, a.num * b.den);
    AbsTimes(a.num, b.den);
    Gauss(a.den, Abs(a.num), b.den);
  }

  // ---------------------------------------------------------------------------------------------
  // Operators
  // ---------------------------------------------------------------------------------------------

  /** The result is the fraction in lowest terms for the real number `x`. */
  ghost predicate Means(r: Outcome<Rational>, x: real) {
    r.Returned? && Canonical(r.value) && Denotes(r.value) == x
  }

  lemma WholeQuotient(n: int)
    ensures n as real / 1 as real == n as real
  {
  }

  function Plus(a: Rational, x: Operand): (r: Outcome<Rational>)
    requires Canonical(a) && Usable(x)
    ensures x.OtherArg? ==> r == TypeError
    ensures !x.OtherArg? ==> Means(r, Denotes(a) + OperandValue(x))
  {
    match x
    case RationalArg(b) =>
      QuotientSum(a.num, a.den, b.num, b.den);
      New(a.num * b.den + b.num * a.den, a.den * b.den)
    case IntegerArg(n) =>
      QuotientSum(a.num, a.den, n, 1);
      New(a.num + n * a.den, a.den)
    case OtherArg =>
      TypeError
  }

  function Minus(a: Rational, x: Operand): (r: Outcome<Rational>)
    requires Canonical(a) && Usable(x)
    ensures x.OtherArg? ==> r == TypeError
    ensures !x.OtherArg? ==> Means(r, Denotes(a) - OperandValue(x))
  {
    match x
    case RationalArg(b) =>
      QuotientSum(a.num, a.den, b.num, b.den);
      New(a.num * b.den - b.num * a.den, a.den * b.den)
    case IntegerArg(n) =>
      QuotientSum(a.num, a.den, n, 1);
      New(a.num - n * a.den, a.den)
    case OtherArg =>
      TypeError
  }

  function Times(a: Rational, x: Operand): (r: Outcome<Rational>)
    requires Canonical(a) && Usable(x)
    ensures x.OtherArg? ==> r == TypeError
    ensures !x.OtherArg? ==> Means(r, Denotes(a) * OperandValue(x))
  {
    match x
    case RationalArg(b) =>
      QuotientProduct(a.num, a.den, b.num, b.den);
      New(a.num * b.num, a.den * b.den)
    case IntegerArg(n) =>
      QuotientProduct(a.num, a.den, n, 1);
      New(a.num * n, a.den)
    case OtherArg =>
      TypeError
  }

  lemma ZeroValue(x: Operand)
    requires Usable(x) && !x.OtherArg?
    ensures OperandValue(x) == 0.0 <==> (if x.RationalArg? then x.r.num else x.n) == 0
  {
  }

  function Over(a: Rational, x: Operand): (r: Outcome<Rational>)
    requires Canonical(a) && Usable(x)
    ensures x.OtherArg? ==> r == TypeError
    ensures !x.OtherArg? ==> (r == ZeroDivisionError <==> OperandValue(x) == 0.0)
    ensures !x.OtherArg? && OperandValue(x) != 0.0 ==> Means(r, Denotes(a) / OperandValue(x))
  {
    match x
    case RationalArg(b) =>
      ZeroValue(x);
      if b.num == 0 then ZeroDivisionError else
        QuotientQuotient(a.num, a.den, b.num, b.den);
        New(a.num * b.den, a.den * b.num)
    case IntegerArg(n) =>
      if n == 0 then ZeroDivisionError else
        QuotientQuotient(a.num, a.den, n, 1);
        WholeQuotient(n);
        New(a.num, a.den * n)
    case OtherArg =>
      TypeError
  }

  function Negate(a: Rational): (r: Outcome<Rational>)
    requires Canonical(a)
    ensures Means(r, -Denotes(a))
  {
    QuotientFrom(-Denotes(a), -a.num, a.den);
    New(-a.num, a.den)
  }

  function AbsoluteValue(a: Rational): (r: Outcome<Rational>)
    requires Canonical(a)
    ensures Means(r, if Denotes(a) < 0.0 then -Denotes(a) else Denotes(a))
  {
    SignOf(a.num, a.den);
    QuotientFrom(-Denotes(a), -a.num, a.den);
    New(Abs(a.num), a.den)
  }

  lemma SignOf(n: int, d: int)
    requires d > 0
    ensures n as real / d as real < 0.0 <==> n < 0
    ensures n as real / d as real == 0.0 <==> n == 0
  {
    var x := n as real / d as real;
    assert x * d as real == n as real;
  }

  lemma SameMeaning(p: Outcome<Rational>, q: Outcome<Rational>, x: real)
    requires Means(p, x) && Means(q, x)
    ensures p == q
  {
    CanonicalUnique(p.value, q.value);
  }

  /**
    * Because equal values are the same object, laws of real arithmetic become laws of the class:
    * sums commute and regroup to the very same object.
    */
  lemma SumsCommute(a: Rational, b: Rational)
    requires Canonical(a) && Canonical(b)
    ensures Plus(a, RationalArg(b)) == Plus(b, RationalArg(a))
  {
    SameMeaning(Plus(a, RationalArg(b)), Plus(b, RationalArg(a)), Denotes(a) + Denotes(b));
  }

  lemma SumsRegroup(a: Rational, b: Rational, c: Rational, ab: Rational, bc: Rational)
    requires Canonical(a) && Canonical(b) && Canonical(c)
    requires Plus(a, RationalArg(b)) == Returned(ab) && Plus(b, RationalArg(c)) == Returned(bc)
    ensures Plus(ab, RationalArg(c)) == Plus(a, RationalArg(bc))
  {
    SameMeaning(Plus(ab, RationalArg(c)), Plus(a, RationalArg(bc)), Denotes(a) + Denotes(b) + Denotes(c));
  }

  lemma RealCancels(x: real, y: real)
    requires y != 0.0
    ensures x / y * y == x
  {
  }

  /** Subtracting and adding back gives the same object again. */
  lemma MinusUndone(a: Rational, x: Operand, diff: Rational)
    requires Canonical(a) && Usable(x) && Minus(a, x) == Returned(diff)
    ensures Plus(diff, x) == Returned(a)
  {
    SameMeaning(Plus(diff, x), Returned(a), Denotes(a));
  }

  lemma QuotientCancels(q: real, v: real, y: real)
    requires y != 0.0 && q == v / y
    ensures q * y == v
  {
    RealCancels(v, y);
  }

  lemma QuotientDenotes(a: Rational, x: Operand, quotient: Rational)
    requires Canonical(a) && Usable(x) && Over(a, x) == Returned(quotient)
    ensures !x.OtherArg? && OperandValue(x) != 0.0 && Canonical(quotient)
    ensures Denotes(quotient) == Denotes(a) / OperandValue(x)
  {
    assert Means(Over(a, x), Denotes(a) / OperandValue(x));
  }

  lemma TimesMeans(a: Rational, x: Operand, v: real)
    requires Canonical(a) && Usable(x) && !x.OtherArg? && Denotes(a) * OperandValue(x) == v
    ensures Means(Times(a, x), v)
  {
  }

  /** Dividing and multiplying back gives the same object again. */
  lemma OverUndone(a: Rational, x: Operand, quotient: Rational)
    requires Canonical(a) && Usable(x) && Over(a, x) == Returned(quotient)
    ensures Times(quotient, x) == Returned(a)
  {
    QuotientDenotes(a, x, quotient);
    QuotientCancels(Denotes(quotient), Denotes(a), OperandValue(x));
    TimesMeans(quotient, x, Denotes(a));
    SameMeaning(Times(quotient, x), Returned(a), Denotes(a));
  }

  // ---------------------------------------------------------------------------------------------
  // Comparison
  // ---------------------------------------------------------------------------------------------

  function Sign(n: int): int {
    if n < 0 then -1 else if n > 0 then 1 else 0
  }

  /** `==`: true exactly when the operand is a number of the same value. */
  predicate Equal(a: Rational, x: Operand)
    requires Canonical(a) && Usable(x)
    ensures Equal(a, x) <==> !x.OtherArg? && Denotes(a) == OperandValue(x)
  {
    match x
    case RationalArg(b) =>
      CanonicalUnique(a, b);
      a.num == b.num && a.den == b.den
    case IntegerArg(n) =>
      WholeUnique(a, n);
      a.den == 1 && a.num == n
    case OtherArg =>
      false
  }

  lemma WholeUnique(a: Rational, n: int)
    requires Canonical(a)
    ensures Denotes(a) == n as real <==> a.den == 1 && a.num == n
  {
    CoprimeFromCombination(Abs(n), 1, 0, 1);
    CanonicalUnique(a, Rational(n, 1));
    WholeQuotient(n);
  }

  /** `<=>`: the sign of the difference of the values, nil for a non-number. */
  function Compare(a: Rational, x: Operand): (c: Option<int>)
    requires Canonical(a) && Usable(x)
    ensures c.Some? <==> !x.OtherArg?
    ensures c.Some? ==> (c.value == -1 <==> Denotes(a) < OperandValue(x))
    ensures c.Some? ==> (c.value == 0 <==> Denotes(a) == OperandValue(x))
    ensures c.Some? ==> (c.value == 1 <==> Denotes(a) > OperandValue(x))
  {
    match x
    case RationalArg(b) =>
      OrderByProducts(a.num, a.den, b.num, b.den);
      Some(Sign(a.num * b.den - b.num * a.den))
    case IntegerArg(n) =>
      OrderByProducts(a.num, a.den, n, 1);
      WholeQuotient(n);
      Some(Sign(a.num - n * a.den))
    case OtherArg =>
      None
  }

  lemma OrderByProducts(n: int, d: int, m: int, e: int)
    requires d > 0 && e > 0
    ensures n as real / d as real < m as real / e as real <==> n * e < m * d
    ensures n as real / d as real == m as real / e as real <==> n * e == m * d
  {
    QuotientSum(n, d, m, e);
    assert d * e > 0;
    SignOf(n * e - m * d, d * e);
  }

  // ---------------------------------------------------------------------------------------------
  // Rounding without digits
  // ---------------------------------------------------------------------------------------------

  lemma QuotientBelow(q: int, n: int, d: int)
    requires d > 0
    ensures q as real <= n as real / d as real <==> q * d <= n
    ensures q as real < n as real / d as real <==> q * d < n
  {
    OrderByProducts(q, 1, n, d);
    WholeQuotient(q);
  }

  /** `floor`: the greatest integer that is at most the value. */
  function Floor(a: Rational): (q: int)
    requires Canonical(a)
    ensures q as real <= Denotes(a) < q as real + 1.0
  {
    RubyDivFloors(a.num, a.den);
    QuotientBelow(RubyDiv(a.num, a.den), a.num, a.den);
    QuotientBelow(RubyDiv(a.num, a.den) + 1, a.num, a.den);
    RubyDiv(a.num, a.den)
  }

  /** `ceil`, by way of `divmod`. */
  function Ceil(a: Rational): (q: int)
    requires Canonical(a)
    ensures q as real - 1.0 < Denotes(a) <= q as real
  {
    RubyDivFloors(a.num, a.den);
    var q := RubyDiv(a.num, a.den);
    var r := a.num - q * a.den;
    QuotientBelow(q, a.num, a.den);
    QuotientBelow(q + 1, a.num, a.den);
    if r > 0 then q + 1 else q
  }

  ghost predicate Truncates(x: real, q: int) {
    if x < 0.0 then q as real - 1.0 < x <= q as real else q as real <= x < q as real + 1.0
  }

  /** `truncate`: the integer part, towards zero. */
  function Truncate(a: Rational): (q: int)
    requires Canonical(a)
    ensures Truncates(Denotes(a), q)
  {
    SignOf(a.num, a.den);
    if a.num < 0 then
      RubyDivFloors(-a.num, a.den);
      QuotientFrom(-Denotes(a), -a.num, a.den);
      QuotientBelow(RubyDiv(-a.num, a.den), -a.num, a.den);
      QuotientBelow(RubyDiv(-a.num, a.den) + 1, -a.num, a.den);
      -RubyDiv(-a.num, a.den)
    else
      RubyDivFloors(a.num, a.den);
      QuotientBelow(RubyDiv(a.num, a.den), a.num, a.den);
      QuotientBelow(RubyDiv(a.num, a.den) + 1, a.num, a.den);
      RubyDiv(a.num, a.den)
  }

  function ToI(a: Rational): int
    requires Canonical(a)
  {
    RubyDiv(a.num, a.den)
  }

  /** `to_i` floors, so it is the integer part only of whole and of non-negative fractions. */
  lemma ToITruncatesIff(a: Rational)
    requires Canonical(a)
    ensures Truncates(Denotes(a), ToI(a)) <==> a.num >= 0 || a.den == 1
    ensures ToI(a) == Truncate(a) <==> a.num >= 0 || a.den == 1
  {
    var q, t := Floor(a), Truncate(a);
    SignOf(a.num, a.den);
    if a.num < 0 {
      WholeUnique(a, q);
      if a.den == 1 {
        WholeUnique(a, a.num);
      }
    }
  }

  /** `round`: the floor of the value plus one half. */
  function Round(a: Rational): (q: int)
    requires Canonical(a)
    ensures q as real - 0.5 <= Denotes(a) < q as real + 0.5
  {
    RubyDivFloors(a.num * 2 + a.den, a.den * 2);
    var q := RubyDiv(a.num * 2 + a.den, a.den * 2);
    HalfUp(a, q);
    q
  }

  lemma HalfUp(a: Rational, q: int)
    requires Canonical(a) && q * (a.den * 2) <= a.num * 2 + a.den < (q + 1) * (a.den * 2)
    ensures q as real - 0.5 <= Denotes(a) < q as real + 0.5
  {
    assert (2 * q - 1) * a.den <= a.num * 2 < (2 * q + 1) * a.den;
    TwiceValue(a);
    QuotientBelow(2 * q - 1, a.num * 2, a.den);
    QuotientBelow(2 * q + 1, a.num * 2, a.den);
  }

  /** Ruby rounds halves away from zero: the nearest integer, and of two the one further from zero. */
  ghost predicate RoundsHalfAway(x: real, q: int) {
    if x < 0.0 then q as real - 0.5 < x <= q as real + 0.5 else q as real - 0.5 <= x < q as real + 0.5
  }

  /** `round` agrees with that rule except on the negative fractions with denominator 2. */
  lemma RoundIsHalfAwayIff(a: Rational)
    requires Canonical(a)
    ensures RoundsHalfAway(Denotes(a), Round(a)) <==> !(a.num < 0 && a.den == 2)
  {
    SignOf(a.num, a.den);
    LowerTieIff(a, Round(a));
  }

  /** The value lies half-way below an integer it rounds to exactly when its denominator is 2. */
  lemma LowerTieIff(a: Rational, q: int)
    requires Canonical(a) && q as real - 0.5 <= Denotes(a) < q as real + 0.5
    ensures Denotes(a) == q as real - 0.5 <==> a.den == 2
  {
    var odd := 2 * q - 1;
    assert odd as real == 2.0 * (q as real - 0.5);
    TwiceValue(a);
    CrossMultiply(odd, 1, a.num * 2, a.den);
    WholeQuotient(odd);
    if a.den == 2 {
      HalfIsTie(a, q);
    }
    if odd * a.den == a.num * 2 {
      TieHasDenominatorTwo(a, odd);
    }
  }

  lemma TwiceValue(a: Rational)
    requires a.den != 0
    ensures (a.num * 2) as real / a.den as real == 2.0 * Denotes(a)
  {
    QuotientFrom(2.0 * Denotes(a), a.num * 2, a.den);
  }

  lemma TieHasDenominatorTwo(a: Rational, odd: int)
    requires Canonical(a) && odd * a.den == a.num * 2 && odd % 2 == 1
    ensures a.den == 2
  {
    DividesTwo(a.num, a.den, odd);
    DividesBound(a.den, 2);
  }

  lemma DividesTwo(n: int, d: nat, odd: int)
    requires Gcd(Abs(n), d) == 1 && odd * d == n * 2
    ensures Divides(d, 2)
  {
    assert n * 2 == d * odd;
    DividesSign(d, n * 2);
    assert Abs(n * 2) == Abs(n) * 2;
    Gauss(d, Abs(n), 2);
  }

  lemma HalfIsTie(a: Rational, q: int)
    requires Canonical(a) && a.den == 2 && q as real - 0.5 <= Denotes(a) < q as real + 0.5
    ensures (2 * q - 1) * a.den == a.num * 2
  {
    assert Gcd(Abs(a.num), 2) == Gcd(2, Abs(a.num) % 2);
    assert Abs(a.num) % 2 == 1;
    TwiceValue(a);
    CrossMultiply(a.num * 2, a.den, a.num, 1);
    WholeQuotient(a.num);
    assert (2 * q - 1) as real <= a.num as real < (2 * q + 1) as real;
    assert a.num == 2 * q - 1;
  }
}
