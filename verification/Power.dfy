/** Exponentiation by squaring, for any associative operation with an identity. */
module Power {

  /** x combined with itself n times. */
  function Product<T>(op: (T, T) -> T, identity: T, x: T, n: nat): T {
    if n == 0 then identity else op(x, Product(op, identity, x, n - 1))
  }

  ghost predicate IsMonoid<T(!new)>(op: (T, T) -> T, identity: T) {
    (forall x, y, z :: op(op(x, y), z) == op(x, op(y, z))) &&
    (forall x :: op(identity, x) == x && op(x, identity) == x)
  }

  /** Powers of one element add their exponents; this is all the commuting there is. */
  lemma {:induction false} ProductAdds<T(!new)>(op: (T, T) -> T, identity: T, x: T, m: nat, n: nat)
    requires IsMonoid(op, identity)
    ensures Product(op, identity, x, m + n)
         == op(Product(op, identity, x, m), Product(op, identity, x, n))
    decreases m
  {
    if m > 0 {
      ProductAdds(op, identity, x, m - 1, n);
    }
  }

  lemma ProductOne<T(!new)>(op: (T, T) -> T, identity: T, x: T)
    requires IsMonoid(op, identity)
    ensures Product(op, identity, x, 0) == identity && Product(op, identity, x, 1) == x
  {
    assert Product(op, identity, x, 1) == op(x, Product(op, identity, x, 0));
  }

  lemma {:induction false} ProductOfSquare<T(!new)>(op: (T, T) -> T, identity: T, x: T, k: nat)
    requires IsMonoid(op, identity)
    ensures Product(op, identity, op(x, x), k) == Product(op, identity, x, 2 * k)
  {
    if k > 0 {
      ProductOfSquare(op, identity, x, k - 1);
      assert Product(op, identity, x, 2 * k) == op(x, op(x, Product(op, identity, x, 2 * k - 2)));
    }
  }

  /** One turn of the loop: what is owed, before and after halving n and squaring x. */
  lemma Halve<T(!new)>(op: (T, T) -> T, identity: T, x: T, y: T, n: nat)
    requires IsMonoid(op, identity)
    ensures op(Product(op, identity, x, n), y)
         == op(Product(op, identity, op(x, x), n / 2), if n % 2 == 1 then op(x, y) else y)
  {
    var k := n / 2;
    ProductOfSquare(op, identity, x, k);
    if n % 2 == 1 {
      var p := Product(op, identity, x, 2 * k);
      ProductAdds(op, identity, x, 2 * k, 1);
      assert Product(op, identity, x, 1) == op(x, Product(op, identity, x, 0));
      assert n == 2 * k + 1;
      assert op(op(p, x), y) == op(p, op(x, y));
    } else {
      assert n == 2 * k;
    }
  }

  method Power<T(!new)>(x: T, n: nat, op: (T, T) -> T, identity: T) returns (y: T)
    requires IsMonoid(op, identity)
    ensures y == Product(op, identity, x, n)
  {
    y := identity;
    if n == 0 {
      return y;
    }
    var base, m := x, n;
    while true
      invariant m > 0
      invariant op(Product(op, identity, base, m), y) == Product(op, identity, x, n)
      decreases m
    {
      Halve(op, identity, base, y, m);
      if m % 2 == 1 {
        y := op(base, y);
        if m == 1 {
          return y;
        }
      }
      m := m / 2;
      base := op(base, base);
    }
  }
}
