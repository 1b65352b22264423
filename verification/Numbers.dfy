/** The number theory under the exact rationals: C++ truncating division, the
    non-negative gcd, and coprimality argued through Bezout certificates. */
module Numbers {

  function Abs(x: int): (r: nat) {
    if x < 0 then -x else x
  }

  /** C++ `/`: the quotient rounded toward zero. */
  function TruncDiv(a: int, b: int): int
    requires b != 0
  {
    if a >= 0 then a / b else -((-a) / b)
  }

  /** C++ `%`: the remainder that goes with `TruncDiv`; it takes the sign of `a`. */
  function TruncMod(a: int, b: int): int
    requires b != 0
  {
    a - b * TruncDiv(a, b)
  }

  /** What C++ promises about the pair of operators. */
  lemma TruncDivMod(a: int, b: int)
    requires b != 0
    ensures a == b * TruncDiv(a, b) + TruncMod(a, b)
    ensures Abs(TruncMod(a, b)) < Abs(b)
    ensures a >= 0 ==> TruncMod(a, b) >= 0
    ensures a <= 0 ==> TruncMod(a, b) <= 0
  {
    var q := (-a) / b;
    assert -a == b * q + (-a) % b;
    assert b * (-q) == -(b * q);
  }

  lemma ExactTruncDiv(k: int, g: int)
    requires g > 0
    ensures TruncDiv(k * g, g) == k
  {
    MultipleDiv(k, g);
    MultipleDiv(-k, g);
    assert (-k) * g == -(k * g);
    if k >= 0 {
      assert k * g >= 0;
    } else {
      assert k * g < 0;
    }
  }

  lemma MultipleDiv(k: int, g: int)
    requires g > 0
    ensures (k * g) / g == k
  {
    var q, r := (k * g) / g, (k * g) % g;
    assert (k - q) * g == r;
    SmallMultiple(k - q, g);
  }

  lemma SmallMultiple(m: int, g: int)
    ensures -g < m * g < g ==> m == 0
  {}

  lemma PositiveMultiple(m: int, g: int)
    ensures g > 0 && m * g > 0 ==> m * g >= g
  {}

  lemma ZeroProduct(m: int, g: int)
    ensures m * g == 0 ==> m == 0 || g == 0
  {}

  /** The one polynomial identity all the certificates share. */
  lemma CollectFactor(p: int, x: int, q: int, y: int, h: int)
    ensures (p * h) * x + (q * h) * y == (p * x + q * y) * h
  {}

  /** The greatest common divisor, never negative; Gcd(0, 0) == 0. */
  function Gcd(a: int, b: int): (g: nat)
    decreases Abs(b)
  {
    if b == 0 then Abs(a) else Gcd(b, a % b)
  }

  /** The gcd divides both arguments; the quotients are returned. */
  lemma {:induction false} GcdDivides(a: int, b: int) returns (p: int, q: int)
    ensures a == p * Gcd(a, b) && b == q * Gcd(a, b)
    decreases Abs(b)
  {
    if b == 0 {
      p, q := if a < 0 then -1 else 1, 0;
    } else {
      var p', q' := GcdDivides(b, a % b);
      var g := Gcd(b, a % b);
      p, q := p' * (a / b) + q', p';
      DividendFactor(a, b, a / b, a % b, p', q', g);
    }
  }

  lemma DividendFactor(a: int, b: int, q: int, r: int, m: int, n: int, g: int)
    requires a == b * q + r && b == m * g && r == n * g
    ensures a == (m * q + n) * g
  {}

  /** The gcd is an integer combination of its arguments. */
  lemma {:induction false} Bezout(a: int, b: int) returns (x: int, y: int)
    ensures a * x + b * y == Gcd(a, b)
    decreases Abs(b)
  {
    if b == 0 {
      x, y := if a < 0 then -1 else 1, 0;
    } else {
      var x', y' := Bezout(b, a % b);
      x, y := y', x' - (a / b) * y';
      BezoutStep(a, b, a / b, a % b, x', y');
    }
  }

  lemma BezoutStep(a: int, b: int, q: int, r: int, x: int, y: int)
    requires a == b * q + r
    ensures a * y + b * (x - q * y) == b * x + r * y
  {
    assert (b * q + r) * y == (b * q) * y + r * y;
    assert b * (x - q * y) == b * x - (b * q) * y;
  }

  /** A common divisor that is a combination of the arguments is the gcd. */
  lemma GcdCertificate(a: int, b: int, g: nat, p: int, q: int, x: int, y: int)
    requires a == p * g && b == q * g
    requires a * x + b * y == g
    ensures Gcd(a, b) == g
  {
    var h := Gcd(a, b);
    var p', q' := GcdDivides(a, b);
    var x', y' := Bezout(a, b);
    CollectFactor(p', x, q', y, h);
    CollectFactor(p, x', q, y', g);
    MutuallyDividing(g, h, p' * x + q' * y, p * x' + q * y');
  }

  lemma MutuallyDividing(g: nat, h: nat, m: int, n: int)
    requires g == m * h && h == n * g
    ensures g == h
  {
    PositiveMultiple(m, h);
    PositiveMultiple(n, g);
  }

  lemma GcdPositive(a: int, b: int)
    requires a != 0 || b != 0
    ensures Gcd(a, b) > 0
  {
    var p, q := GcdDivides(a, b);
  }

  lemma GcdSymmetric(a: int, b: int)
    ensures Gcd(a, b) == Gcd(b, a)
  {
    var p, q := GcdDivides(a, b);
    var x, y := Bezout(a, b);
    GcdCertificate(b, a, Gcd(a, b), q, p, y, x);
  }

  /** Changing the sign of either argument leaves the gcd as it is. */
  lemma GcdSigns(a: int, b: int)
    ensures Gcd(-a, b) == Gcd(a, b)
    ensures Gcd(a, -b) == Gcd(a, b)
  {
    var g := Gcd(a, b);
    var p, q := GcdDivides(a, b);
    var x, y := Bezout(a, b);
    assert (-p) * g == -(p * g) && (-q) * g == -(q * g);
    assert (-a) * (-x) == a * x && (-b) * (-y) == b * y;
    GcdCertificate(-a, b, g, -p, q, -x, y);
    GcdCertificate(a, -b, g, p, -q, x, -y);
  }

  // ----- coprime numbers

  predicate Coprime(a: int, b: int) {
    Gcd(a, b) == 1
  }

  lemma CoprimeFromCombination(a: int, b: int, x: int, y: int)
    requires a * x + b * y == 1
    ensures Coprime(a, b)
  {
    GcdCertificate(a, b, 1, a, b, x, y);
  }

  lemma CoprimeSymmetric(a: int, b: int)
    requires Coprime(a, b)
    ensures Coprime(b, a)
  {
    GcdSymmetric(a, b);
  }

  /** Coprime to two numbers, hence to their product. */
  lemma CoprimeProduct(a: int, b: int, c: int)
    requires Coprime(a, b) && Coprime(a, c)
    ensures Coprime(a, b * c)
  {
    var x, y := Bezout(a, b);
    var u, v := Bezout(a, c);
    ProductCombination(a, b, c, x, y, u, v);
    CoprimeFromCombination(a, b * c, x * (a * u) + x * (c * v) + (b * y) * u, y * v);
  }

  lemma ProductCombination(a: int, b: int, c: int, x: int, y: int, u: int, v: int)
    requires a * x + b * y == 1 && a * u + c * v == 1
    ensures a * (x * (a * u) + x * (c * v) + (b * y) * u) + (b * c) * (y * v) == 1
  {
    var m, n, k, l := a * x, b * y, a * u, c * v;
    assert (m + n) * (k + l) == m * (k + l) + n * k + n * l;
    assert a * (x * k + x * l + n * u) == m * (k + l) + n * k by {
      assert a * (x * (k + l)) == m * (k + l);
      assert a * (n * u) == n * k;
    }
    assert (b * c) * (y * v) == n * l;
  }

  /** A factor of a number coprime to b is coprime to b. */
  lemma CoprimeFactor(a: int, k: int, b: int)
    requires Coprime(a * k, b)
    ensures Coprime(a, b)
  {
    var x, y := Bezout(a * k, b);
    assert (a * k) * x == a * (k * x);
    CoprimeFromCombination(a, b, k * x, y);
  }

  /** Adding a multiple of b does not change coprimality to b. */
  lemma CoprimeShift(a: int, k: int, b: int)
    requires Coprime(a, b)
    ensures Coprime(a + k * b, b)
  {
    var x, y := Bezout(a, b);
    assert (a + k * b) * x == a * x + (k * b) * x;
    assert b * (y - k * x) == b * y - (k * b) * x;
    CoprimeFromCombination(a + k * b, b, x, y - k * x);
  }

  /** The cofactors of a non-zero gcd are coprime. */
  lemma CofactorsCoprime(a: int, b: int, p: int, q: int)
    requires Gcd(a, b) > 0
    requires a == p * Gcd(a, b) && b == q * Gcd(a, b)
    ensures Coprime(p, q)
  {
    var g := Gcd(a, b);
    var x, y := Bezout(a, b);
    CollectFactor(p, x, q, y, g);
    CancelFactor(p * x + q * y, 1, g);
    CoprimeFromCombination(p, q, x, y);
  }

  lemma CancelFactor(m: int, n: int, g: int)
    requires g != 0 && m * g == n * g
    ensures m == n
  {
    assert (m - n) * g == m * g - n * g;
    ZeroProduct(m - n, g);
  }
}
