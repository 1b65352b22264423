/** Exact rational arithmetic: reduced fractions updated in place, and a
    comparison that expands both operands into continued fractions. */
module Rationals {
  import opened Numbers

  datatype Outcome = Done | BadRational

  /** The class invariant: lowest terms, with a positive denominator. */
  predicate Reduced(n: int, d: int) {
    d > 0 && Coprime(n, d)
  }

  /** a/b and c/d are the same number (for non-zero b and d). */
  predicate SameValue(a: int, b: int, c: int, d: int) {
    a * d == c * b
  }

  // ----- the constexpr helpers

  /** Euclid's algorithm with C++'s truncating remainder; the result may be negative. */
  function InnerGcd(a: int, b: int): int
    decreases Abs(b)
  {
    if b == 0 then a
    else
      TruncDivMod(a, b);
      InnerGcd(b, TruncMod(a, b))
  }

  predicate IsNormalized(n: int, d: int) {
    d > 0 && (n != 0 || d == 1) && Abs(InnerGcd(n, d)) == 1
  }

  lemma {:induction false} InnerGcdIsGcd(a: int, b: int)
    ensures Abs(InnerGcd(a, b)) == Gcd(a, b)
    decreases Abs(b)
  {
    if b != 0 {
      TruncDivMod(a, b);
      var r := TruncMod(a, b);
      InnerGcdIsGcd(b, r);
      GcdOfRemainder(a, b, TruncDiv(a, b), r);
    }
  }

  lemma GcdOfRemainder(a: int, b: int, q: int, r: int)
    requires a == b * q + r
    ensures Gcd(b, r) == Gcd(a, b)
  {
    var g := Gcd(b, r);
    var p, s := GcdDivides(b, r);
    var x, y := Bezout(b, r);
    CollectFactor(p, q, s, 1, g);
    BezoutStep(a, b, q, r, x, y);
    GcdCertificate(a, b, g, p * q + s, p, y, x - q * y);
  }

  /** The compile-time check is exactly the run-time class invariant. */
  lemma IsNormalizedIffReduced(n: int, d: int)
    ensures IsNormalized(n, d) <==> Reduced(n, d)
  {
    InnerGcdIsGcd(n, d);
    if n == 0 && d > 0 {
      GcdSymmetric(0, d);
    }
  }

  /** A number has one reduced form only. */
  lemma ReducedFormUnique(a: int, b: int, c: int, d: int)
    requires Reduced(a, b) && Reduced(c, d)
    requires SameValue(a, b, c, d)
    ensures a == c && b == d
  {
    var x, y := Bezout(a, b);
    var u, v := Bezout(c, d);
    DenominatorDivides(a, b, c, d, x, y);
    DenominatorDivides(c, d, a, b, u, v);
    MutuallyDividing(d, b, c * x + d * y, a * u + b * v);
    CancelFactor(a, c, d);
  }

  lemma DenominatorDivides(a: int, b: int, c: int, d: int, x: int, y: int)
    requires a * d == c * b && a * x + b * y == 1
    ensures d == (c * x + d * y) * b
  {
    assert (a * x + b * y) * d == (a * d) * x + (b * d) * y;
    assert (c * x + d * y) * b == (c * b) * x + (d * b) * y;
  }

  // ----- why the short cuts of the operators keep fractions reduced

  /** a/b + c/d over the least common multiple of b and d needs only one more
      division, by the gcd of its numerator with gcd(b, d). */
  lemma SumIsReduced(a: int, b1: int, c: int, d1: int, g: int, n1: int, g1: int, h: int)
    requires g > 0 && h > 0 && b1 > 0 && d1 > 0
    requires Coprime(a, b1 * g) && Coprime(c, d1 * g) && Coprime(b1, d1)
    requires h == Gcd(a * d1 + c * b1, g)
    requires a * d1 + c * b1 == n1 * h && g == g1 * h
    ensures Reduced(n1, b1 * (d1 * g1))
    ensures SameValue(n1, b1 * (d1 * g1), a * (d1 * g) + c * (b1 * g), (b1 * g) * (d1 * g))
  {
    PartCoprime(a, b1, g, c, d1);
    CoprimeFactor(n1, h, b1);
    CoprimeSymmetric(b1, d1);
    PartCoprime(c, d1, g, a, b1);
    assert c * b1 + a * d1 == n1 * h;
    CoprimeFactor(n1, h, d1);
    CofactorsCoprime(a * d1 + c * b1, g, n1, g1);
    CoprimeProduct(n1, d1, g1);
    CoprimeProduct(n1, b1, d1 * g1);
    PositiveCofactor(g1, h);
    assert d1 * g1 > 0;
    assert b1 * (d1 * g1) > 0;
    SumValue(a, b1, c, d1, g, n1, g1, h);
  }

  /** The same over the values the operators compute. */
  lemma SumLowestTerms(a: int, b: int, c: int, d: int)
    requires Reduced(a, b) && Reduced(c, d)
    ensures var g := Gcd(b, d);
            g > 0 &&
            var b1 := TruncDiv(b, g);
            var n := a * TruncDiv(d, g) + c * b1;
            var h := Gcd(n, g);
            h > 0 &&
            Reduced(TruncDiv(n, h), b1 * TruncDiv(d, h)) &&
            SameValue(TruncDiv(n, h), b1 * TruncDiv(d, h), a * d + c * b, b * d)
  {
    var g := Gcd(b, d);
    GcdPositive(b, d);
    var b1, d1 := GcdDivides(b, d);
    CofactorsCoprime(b, d, b1, d1);
    ExactTruncDiv(b1, g);
    ExactTruncDiv(d1, g);
    PositiveCofactor(b1, g);
    PositiveCofactor(d1, g);
    var n := a * d1 + c * b1;
    var h := Gcd(n, g);
    GcdPositive(n, g);
    var n1, g1 := GcdDivides(n, g);
    ExactTruncDiv(n1, h);
    Associate(d1, g1, h);
    ExactTruncDiv(d1 * g1, h);
    SumIsReduced(a, b1, c, d1, g, n1, g1, h);
  }

  lemma Associate(a: int, b: int, c: int)
    ensures a * (b * c) == (a * b) * c
  {}

  /** What normalize() leaves after dividing by the gcd, with either choice of sign. */
  lemma LowestTerms(n: int, d: int) returns (p: int, q: int)
    requires d != 0
    ensures Gcd(n, d) > 0
    ensures p == TruncDiv(n, Gcd(n, d)) && q == TruncDiv(d, Gcd(n, d))
    ensures q != 0 && Coprime(p, q) && Coprime(-p, -q)
    ensures SameValue(p, q, n, d) && SameValue(-p, -q, n, d)
  {
    var g := Gcd(n, d);
    GcdPositive(n, d);
    p, q := GcdDivides(n, d);
    CofactorsCoprime(n, d, p, q);
    ExactTruncDiv(p, g);
    ExactTruncDiv(q, g);
    QuotientFields(n, d, p, q, g);
  }

  lemma QuotientFields(n: int, d: int, p: int, q: int, g: int)
    requires n == p * g && d == q * g && d != 0
    ensures q != 0
    ensures SameValue(p, q, n, d) && SameValue(-p, -q, n, d)
    ensures Gcd(-p, -q) == Gcd(p, q)
  {
    SharedFactor(p, q, g);
    QuotientSigns(p, q, n, d);
  }

  lemma SharedFactor(p: int, q: int, g: int)
    ensures SameValue(p, q, p * g, q * g)
  {}

  lemma DifferenceLowestTerms(a: int, b: int, c: int, d: int)
    requires Reduced(a, b) && Reduced(c, d)
    ensures var g := Gcd(b, d);
            g > 0 &&
            var b1 := TruncDiv(b, g);
            var n := a * TruncDiv(d, g) - c * b1;
            var h := Gcd(n, g);
            h > 0 &&
            Reduced(TruncDiv(n, h), b1 * TruncDiv(d, h)) &&
            SameValue(TruncDiv(n, h), b1 * TruncDiv(d, h), a * d - c * b, b * d)
  {
    GcdSigns(c, d);
    SumLowestTerms(a, b, -c, d);
    NegatedProduct(c, TruncDiv(b, Gcd(b, d)));
    NegatedProduct(c, b);
  }

  lemma NegatedProduct(a: int, b: int)
    ensures (-a) * b == -(a * b)
  {}

  lemma PositiveCofactor(m: int, h: int)
    requires h > 0 && m * h > 0
    ensures m > 0
  {}

  lemma SumValue(a: int, b1: int, c: int, d1: int, g: int, n1: int, g1: int, h: int)
    requires a * d1 + c * b1 == n1 * h && g == g1 * h
    ensures n1 * ((b1 * g) * (d1 * g)) == (a * (d1 * g) + c * (b1 * g)) * (b1 * (d1 * g1))
  {
    assert a * (d1 * g) + c * (b1 * g) == (n1 * h) * g by {
      assert a * (d1 * g) == (a * d1) * g && c * (b1 * g) == (c * b1) * g;
    }
    var k := b1 * d1;
    assert (b1 * g) * (d1 * g) == k * (g * g);
    assert b1 * (d1 * g1) == k * g1;
    assert ((n1 * h) * g) * (k * g1) == n1 * (k * (g * (g1 * h))) by {
      MoveFactors(n1, h, g, k, g1);
    }
  }

  lemma MoveFactors(n: int, h: int, g: int, k: int, m: int)
    ensures ((n * h) * g) * (k * m) == n * (k * (g * (m * h)))
  {}

  /** The numerator over b1*d1 is coprime to the part b1 that only b has. */
  lemma PartCoprime(a: int, b1: int, g: int, c: int, d1: int)
    requires Coprime(a, b1 * g) && Coprime(b1, d1)
    ensures Coprime(a * d1 + c * b1, b1)
  {
    CoprimeSymmetric(a, b1 * g);
    CoprimeFactor(b1, g, a);
    CoprimeProduct(b1, a, d1);
    CoprimeSymmetric(b1, a * d1);
    CoprimeShift(a * d1, c, b1);
  }

  /** Cross-cancelling two reduced fractions leaves nothing more to cancel. */
  lemma ProductIsCoprime(a1: int, b1: int, c1: int, d1: int, g: int, h: int)
    requires Coprime(a1 * g, b1 * h) && Coprime(c1 * h, d1 * g)
    requires Coprime(a1, d1) && Coprime(c1, b1)
    ensures Coprime(a1 * c1, b1 * d1)
  {
    CoprimeFactor(a1, g, b1 * h);
    CoprimeSymmetric(a1, b1 * h);
    CoprimeFactor(b1, h, a1);
    CoprimeFactor(c1, h, d1 * g);
    CoprimeSymmetric(c1, d1 * g);
    CoprimeFactor(d1, g, c1);
    CoprimeSymmetric(c1, b1);
    CoprimeProduct(b1, a1, c1);
    CoprimeSymmetric(a1, d1);
    CoprimeProduct(d1, a1, c1);
    CoprimeSymmetric(b1, a1 * c1);
    CoprimeSymmetric(d1, a1 * c1);
    CoprimeProduct(a1 * c1, b1, d1);
  }

  lemma ProductValue(a1: int, b1: int, c1: int, d1: int, g: int, h: int)
    ensures SameValue(a1 * c1, b1 * d1, (a1 * g) * (c1 * h), (b1 * h) * (d1 * g))
  {
    var m, n := a1 * c1, b1 * d1;
    assert (a1 * g) * (c1 * h) == m * (g * h);
    assert (b1 * h) * (d1 * g) == n * (g * h);
    assert m * (n * (g * h)) == (m * (g * h)) * n;
  }

  // ----- the class

  /** The pair `/` and `%` where the dividend is not negative: no repair is needed. */
  method DivMod(n: int, d: int) returns (q: int, r: int)
    requires n >= 0 && d > 0
    ensures n == d * q + r && 0 <= r < d
  {
    q, r := TruncDiv(n, d), TruncMod(n, d);
    TruncDivMod(n, d);
  }

  /** Truncating division repaired to a floor: the loop that opens each comparison. */
  method FloorDivMod(n: int, d: int) returns (q: int, r: int)
    requires d > 0
    ensures n == d * q + r && 0 <= r < d
  {
    q, r := TruncDiv(n, d), TruncMod(n, d);
    TruncDivMod(n, d);
    while r < 0
      invariant n == d * q + r && r < d
      decreases -r
    {
      LowerQuotient(d, q);
      r := r + d;
      q := q - 1;
    }
  }

  class Rational {
    var num: int
    var den: int

    ghost predicate Valid()
      reads this
    {
      Reduced(num, den)
    }

    /** The member initializers of rational(n, d), before normalize() runs. */
    constructor Unnormalized(n: int, d: int)
      ensures num == n && den == d
    {
      num, den := n, d;
    }

    /** rational(n) */
    constructor FromInt(n: int)
      ensures Valid() && num == n && den == 1
    {
      num, den := n, 1;
      new;
      GcdSigns(n, 1);
      CoprimeFromCombination(n, 1, 0, 1);
    }

    method Normalize() returns (outcome: Outcome)
      modifies this
      ensures outcome.BadRational? <==> old(den) == 0
      ensures outcome.BadRational? ==> num == old(num) && den == old(den)
      ensures outcome.Done? ==> Valid() && SameValue(num, den, old(num), old(den))
    {
      if den == 0 {
        return BadRational;
      }
      if num == 0 {
        den := 1;
        CoprimeFromCombination(0, 1, 0, 1);
        return Done;
      }
      ghost var p, q := LowestTerms(num, den);
      var g := Gcd(num, den);
      num := TruncDiv(num, g);
      den := TruncDiv(den, g);
      if den < 0 {
        num := -num;
        den := -den;
      }
      if den < 0 {
        return BadRational;
      }
      return Done;
    }

    /** assign(n, d): goes through a temporary, so a failure leaves this alone. */
    method Assign(n: int, d: int) returns (outcome: Outcome)
      modifies this
      ensures outcome.BadRational? <==> d == 0
      ensures outcome.BadRational? ==> num == old(num) && den == old(den)
      ensures outcome.Done? ==> Valid() && SameValue(num, den, n, d)
    {
      var temporary := new Rational.Unnormalized(n, d);
      outcome := temporary.Normalize();
      if outcome.Done? {
        num, den := temporary.num, temporary.den;
      }
    }

    method AddAssign(r: Rational)
      requires Valid() && r.Valid()
      modifies this
      ensures Valid()
      ensures SameValue(num, den,
                        old(num) * old(r.den) + old(r.num) * old(den), old(den) * old(r.den))
    {
      SumLowestTerms(num, den, r.num, r.den);
      var rNum, rDen := r.num, r.den;
      var g := Gcd(den, rDen);
      den := TruncDiv(den, g);
      num := num * TruncDiv(rDen, g) + rNum * den;
      g := Gcd(num, g);
      num := TruncDiv(num, g);
      den := den * TruncDiv(rDen, g);
    }

    method SubAssign(r: Rational)
      requires Valid() && r.Valid()
      modifies this
      ensures Valid()
      ensures SameValue(num, den,
                        old(num) * old(r.den) - old(r.num) * old(den), old(den) * old(r.den))
    {
      DifferenceLowestTerms(num, den, r.num, r.den);
      var rNum, rDen := r.num, r.den;
      var g := Gcd(den, rDen);
      den := TruncDiv(den, g);
      num := num * TruncDiv(rDen, g) - rNum * den;
      g := Gcd(num, g);
      num := TruncDiv(num, g);
      den := den * TruncDiv(rDen, g);
    }

    method MulAssign(r: Rational)
      requires Valid() && r.Valid()
      modifies this
      ensures Valid()
      ensures SameValue(num, den, old(num) * old(r.num), old(den) * old(r.den))
    {
      var rNum, rDen := r.num, r.den;
      var gcd1 := Gcd(num, rDen);
      var gcd2 := Gcd(rNum, den);
      GcdPositive(num, rDen);
      GcdPositive(rNum, den);
      ghost var a1, d1 := GcdDivides(num, rDen);
      ghost var c1, b1 := GcdDivides(rNum, den);
      CofactorsCoprime(num, rDen, a1, d1);
      CofactorsCoprime(rNum, den, c1, b1);
      ExactTruncDiv(a1, gcd1);
      ExactTruncDiv(d1, gcd1);
      ExactTruncDiv(c1, gcd2);
      ExactTruncDiv(b1, gcd2);
      PositiveCofactor(b1, gcd2);
      PositiveCofactor(d1, gcd1);
      num := TruncDiv(num, gcd1) * TruncDiv(rNum, gcd2);
      den := TruncDiv(den, gcd2) * TruncDiv(rDen, gcd1);
      ProductIsCoprime(a1, b1, c1, d1, gcd1, gcd2);
      ProductValue(a1, b1, c1, d1, gcd1, gcd2);
    }

    method DivAssign(r: Rational) returns (outcome: Outcome)
      requires Valid() && r.Valid()
      modifies this
      ensures Valid()
      ensures outcome.BadRational? <==> old(r.num) == 0
      ensures outcome.BadRational? ==> num == old(num) && den == old(den)
      ensures outcome.Done? ==>
                SameValue(num, den, old(num) * old(r.den), old(den) * old(r.num))
    {
      var rNum, rDen := r.num, r.den;
      if rNum == 0 {
        return BadRational;
      }
      if num == 0 {
        return Done;
      }
      var gcd1 := Gcd(num, rNum);
      var gcd2 := Gcd(rDen, den);
      GcdPositive(num, rNum);
      GcdPositive(rDen, den);
      ghost var a1, c1 := GcdDivides(num, rNum);
      ghost var d1, b1 := GcdDivides(rDen, den);
      CofactorsCoprime(num, rNum, a1, c1);
      CofactorsCoprime(rDen, den, d1, b1);
      ExactTruncDiv(a1, gcd1);
      ExactTruncDiv(c1, gcd1);
      ExactTruncDiv(d1, gcd2);
      ExactTruncDiv(b1, gcd2);
      PositiveCofactor(b1, gcd2);
      num := TruncDiv(num, gcd1) * TruncDiv(rDen, gcd2);
      den := TruncDiv(den, gcd2) * TruncDiv(rNum, gcd1);
      CoprimeSymmetric(rNum, rDen);
      ProductIsCoprime(a1, b1, d1, c1, gcd1, gcd2);
      ProductValue(a1, b1, d1, c1, gcd1, gcd2);
      NonZeroProduct(b1, c1);
      if den < 0 {
        num := -num;
        den := -den;
        QuotientSigns(a1 * d1, b1 * c1, (a1 * gcd1) * (d1 * gcd2), (b1 * gcd2) * (c1 * gcd1));
      }
      return Done;
    }

    /** *= with an integer operand */
    method MulAssignInt(i: int)
      requires Valid()
      modifies this
      ensures Valid()
      ensures SameValue(num, den, old(num) * i, old(den))
    {
      var gcd := Gcd(i, den);
      GcdPositive(i, den);
      ghost var c1, b1 := GcdDivides(i, den);
      CofactorsCoprime(i, den, c1, b1);
      ExactTruncDiv(c1, gcd);
      ExactTruncDiv(b1, gcd);
      PositiveCofactor(b1, gcd);
      ghost var a := num;
      num := num * TruncDiv(i, gcd);
      den := TruncDiv(den, gcd);
      CoprimeFromCombination(a, 1, 0, 1);
      CoprimeFromCombination(c1 * gcd, 1, 0, 1);
      ProductIsCoprime(a, b1, c1, 1, 1, gcd);
      ProductValue(a, b1, c1, 1, 1, gcd);
    }

    /** /= with an integer operand */
    method DivAssignInt(i: int) returns (outcome: Outcome)
      requires Valid()
      modifies this
      ensures Valid()
      ensures outcome.BadRational? <==> i == 0
      ensures outcome.BadRational? ==> num == old(num) && den == old(den)
      ensures outcome.Done? ==> SameValue(num, den, old(num), old(den) * i)
    {
      if i == 0 {
        return BadRational;
      }
      if num == 0 {
        return Done;
      }
      var gcd := Gcd(num, i);
      GcdPositive(num, i);
      ghost var a1, c1 := GcdDivides(num, i);
      CofactorsCoprime(num, i, a1, c1);
      ExactTruncDiv(a1, gcd);
      ExactTruncDiv(c1, gcd);
      ghost var b := den;
      num := TruncDiv(num, gcd);
      den := den * TruncDiv(i, gcd);
      CoprimeFromCombination(1, c1 * gcd, 1, 0);
      CoprimeFromCombination(1, b, 1, 0);
      ProductIsCoprime(a1, b, 1, c1, gcd, 1);
      ProductValue(a1, b, 1, c1, gcd, 1);
      NonZeroProduct(b, c1);
      if den < 0 {
        num := -num;
        den := -den;
        QuotientSigns(a1, b * c1, a1 * gcd, b * i);
      }
      return Done;
    }

    /** == compares the two fields; on reduced fractions that compares values. */
    method Equals(r: Rational) returns (same: bool)
      requires Valid() && r.Valid()
      ensures same <==> SameValue(num, den, r.num, r.den)
    {
      same := num == r.num && den == r.den;
      if SameValue(num, den, r.num, r.den) {
        ReducedFormUnique(num, den, r.num, r.den);
      }
    }

    /** < by simple continued fractions. Both loops work on copies; only positive
        denominators are asked for, as in the source's own assertions. */
    method Less(r: Rational) returns (less: bool)
      requires den > 0 && r.den > 0
      ensures less <==> num * r.den < r.num * den
    {
      var tn, td, rn, rd := num, den, r.num, r.den;
      var tq, tr := FloorDivMod(tn, td);
      var rq, rr := FloorDivMod(rn, rd);
      var reverse := false;
      ghost var cross := tn * rd - rn * td;
      ghost var difference := cross;
      while true
        invariant td > 0 && tn == td * tq + tr && 0 <= tr < td
        invariant rd > 0 && rn == rd * rq + rr && 0 <= rr < rd
        invariant cross == tn * rd - rn * td
        invariant difference == if reverse then -cross else cross
        decreases td
      {
        QuotientsDecide(tn, td, tq, tr, rn, rd, rq, rr);
        if tq != rq {
          return if reverse then tq > rq else tq < rq;
        }
        RemaindersDecide(tn, td, tq, tr, rn, rd, rr);
        reverse := !reverse;
        if tr == 0 || rr == 0 {
          break;
        }
        cross := -cross;
        tn, td := td, tr;
        rn, rd := rd, rr;
        tq, tr := DivMod(tn, td);
        rq, rr := DivMod(rn, rd);
      }
      EndedExpansions(tr, rd, rr, td);
      if tr == rr {
        return false;
      } else {
        return (tr != 0) != reverse;
      }
    }

    /** < with an integer operand: compares the floor only. */
    method LessInt(i: int) returns (less: bool)
      requires den > 0
      ensures less <==> num < i * den
    {
      var q, r := FloorDivMod(num, den);
      if q == i {
        NonNegativeProduct(r, 1);
      } else {
        QuotientsDecide(num, den, q, r, i, 1, i, 0);
      }
      return q < i;
    }

    /** > with an integer operand is derived from == and <. */
    method GreaterInt(i: int) returns (greater: bool)
      requires Valid()
      ensures greater <==> num > i * den
    {
      if den == 1 && num == i {
        return false;
      }
      var less := LessInt(i);
      if num == i * den {
        CoprimeFromCombination(i, 1, 0, 1);
        ReducedFormUnique(num, den, i, 1);
      }
      return !less;
    }
  }

  // ----- arithmetic of one continued-fraction step

  lemma LowerQuotient(d: int, q: int)
    ensures d * q == d * (q - 1) + d
  {}

  lemma NonZeroProduct(m: int, n: int)
    requires m != 0 && n != 0
    ensures m * n != 0
  {}

  lemma QuotientSigns(a: int, b: int, c: int, d: int)
    requires SameValue(a, b, c, d)
    ensures SameValue(-a, -b, c, d)
    ensures Gcd(-a, -b) == Gcd(a, b)
  {
    GcdSigns(a, b);
    GcdSigns(-a, b);
    assert (-a) * d == -(a * d) && c * (-b) == -(c * b);
  }

  /** Different floors order the two numbers. */
  lemma QuotientsDecide(tn: int, td: int, tq: int, tr: int, rn: int, rd: int, rq: int, rr: int)
    requires tn == td * tq + tr && 0 <= tr < td
    requires rn == rd * rq + rr && 0 <= rr < rd
    ensures tq < rq ==> tn * rd - rn * td < 0
    ensures tq > rq ==> tn * rd - rn * td > 0
  {
    if tq < rq {
      FloorBelow(tn, td, tq, tr, rn, rd, rq, rr);
    } else if tq > rq {
      FloorBelow(rn, rd, rq, rr, tn, td, tq, tr);
    }
  }

  lemma FloorBelow(tn: int, td: int, tq: int, tr: int, rn: int, rd: int, rq: int, rr: int)
    requires tn == td * tq + tr && 0 <= tr < td
    requires rn == rd * rq + rr && 0 <= rr < rd
    requires tq < rq
    ensures tn * rd < rn * td
  {
    var k := td * rd;
    CrossProduct(tn, td, tq, tr, rd);
    CrossProduct(rn, rd, rq, rr, td);
    Monotone(tr, td, rd);
    Monotone(tq + 1, rq, k);
    NonNegativeProduct(rr, td);
  }

  lemma CrossProduct(n: int, d: int, q: int, r: int, e: int)
    requires n == d * q + r
    ensures n * e == q * (d * e) + r * e
  {
    assert (d * q + r) * e == (d * q) * e + r * e;
    assert (d * q) * e == q * (d * e);
  }

  lemma Monotone(a: int, b: int, k: int)
    requires k > 0
    ensures a < b ==> a * k < b * k
    ensures a <= b ==> a * k <= b * k
  {}

  lemma NonNegativeProduct(a: int, b: int)
    requires a >= 0 && b >= 0
    ensures a * b >= 0
  {}

  /** Equal floors leave the comparison to the remainders. */
  lemma RemaindersDecide(tn: int, td: int, q: int, tr: int, rn: int, rd: int, rr: int)
    requires tn == td * q + tr && rn == rd * q + rr
    ensures tn * rd - rn * td == tr * rd - rr * td
  {
    CrossProduct(tn, td, q, tr, rd);
    CrossProduct(rn, rd, q, rr, td);
  }

  lemma EndedExpansions(tr: int, rd: int, rr: int, td: int)
    requires 0 <= tr && 0 <= rr && td > 0 && rd > 0 && (tr == 0 || rr == 0)
    ensures tr * rd - rr * td < 0 <==> tr < rr
    ensures tr * rd - rr * td > 0 <==> tr > rr
  {}

  // ----- what callers can conclude from the contracts alone

  /** Adding and then subtracting the same number restores both fields. */
  method AddThenSubtract(x: Rational, r: Rational)
    requires x != r && x.Valid() && r.Valid()
    modifies x
    ensures x.num == old(x.num) && x.den == old(x.den)
  {
    x.AddAssign(r);
    ghost var s, t := x.num, x.den;
    x.SubAssign(r);
    ghost var a, b, c, d := old(x.num), old(x.den), r.num, r.den;
    UndoSum(a, b, c, d, s, t, x.num, x.den);
    ReducedFormUnique(x.num, x.den, a, b);
  }

  lemma UndoSum(a: int, b: int, c: int, d: int, s: int, t: int, m: int, n: int)
    requires b > 0 && d > 0 && t > 0 && n > 0
    requires SameValue(s, t, a * d + c * b, b * d)
    requires SameValue(m, n, s * d - c * t, t * d)
    ensures SameValue(m, n, a, b)
  {
    // m*(t*d) == (s*d - c*t)*n; scale by b*d and use s*(b*d) == (a*d + c*b)*t
    var k := b * d;
    assert (s * d - c * t) * k == (a * d) * (d * t) by {
      assert (s * d) * k == (s * k) * d;
      assert (s * k) * d == ((a * d + c * b) * t) * d;
      assert ((a * d + c * b) * t) * d == (a * d) * (d * t) + (c * t) * k by {
        assert ((a * d + c * b) * t) * d == (a * d + c * b) * (d * t);
        assert (c * b) * (d * t) == (c * t) * (b * d);
      }
      assert (s * d - c * t) * k == (s * d) * k - (c * t) * k;
    }
    var z := d * (d * t);
    assert (m * b) * z == (a * n) * z by {
      assert (m * b) * z == (m * (t * d)) * k by { ShuffleFour(m, b, d, t); }
      assert (m * (t * d)) * k == ((s * d - c * t) * n) * k;
      assert ((s * d - c * t) * n) * k == ((s * d - c * t) * k) * n;
      assert ((a * d) * (d * t)) * n == (a * n) * z by { ShuffleFive(a, d, t, n); }
    }
    NonZeroProduct(d, t);
    NonZeroProduct(d, d * t);
    CancelFactor(m * b, a * n, z);
  }

  lemma ShuffleFour(m: int, b: int, d: int, t: int)
    ensures (m * b) * (d * (d * t)) == (m * (t * d)) * (b * d)
  {}

  lemma ShuffleFive(a: int, d: int, t: int, n: int)
    ensures ((a * d) * (d * t)) * n == (a * n) * (d * (d * t))
  {}

  /** Multiplying and then dividing by the same non-zero number restores both fields. */
  method MultiplyThenDivide(x: Rational, r: Rational) returns (outcome: Outcome)
    requires x != r && x.Valid() && r.Valid() && r.num != 0
    modifies x
    ensures outcome.Done? && x.num == old(x.num) && x.den == old(x.den)
  {
    x.MulAssign(r);
    ghost var s, t := x.num, x.den;
    outcome := x.DivAssign(r);
    ghost var a, b := old(x.num), old(x.den);
    UndoProduct(a, b, r.num, r.den, s, t, x.num, x.den);
    ReducedFormUnique(x.num, x.den, a, b);
  }

  lemma UndoProduct(a: int, b: int, c: int, d: int, s: int, t: int, m: int, n: int)
    requires b > 0 && d > 0 && t > 0 && n > 0 && c != 0
    requires SameValue(s, t, a * c, b * d)
    requires SameValue(m, n, s * d, t * c)
    ensures SameValue(m, n, a, b)
  {
    var z := t * (c * d);
    assert (m * b) * z == (m * (t * c)) * (b * d);
    assert (m * (t * c)) * (b * d) == ((s * d) * n) * (b * d);
    assert ((s * d) * n) * (b * d) == (s * (b * d)) * (d * n);
    assert ((a * c) * t) * (d * n) == (a * n) * z;
    NonZeroProduct(c, d);
    NonZeroProduct(t, c * d);
    CancelFactor(m * b, a * n, z);
  }
}
