/** Words as polynomials over the two-element field, bit i the coefficient of x^i. The
    bit-serial CRC of any width is the remainder of a polynomial division. */
module Polynomials {
  import opened Words
  import opened CrcTheory

  /** Multiplication: a copy of g for every set bit of q, moved up by that bit's power. */
  function Times(q: Word, g: Word): (r: Word)
    ensures |r| == |q| + |g|
  {
    if q == [] then Zero(|g|)
    else Xor((if q[0] then g else Zero(|g|)) + Zero(|q|), [false] + Times(q[1..], g))
  }

  /** What is divided: the starting remainder in front of the message, the first bit of the
      message being its highest power, with as many zeros behind as the CRC is wide. */
  function Dividend(init: Word, bits: seq<bool>): (r: Word)
    ensures |r| == |bits| + |init| + 1
  {
    Xor(Zero(|bits|) + init + [false], Zero(|init|) + Reverse(bits) + [false])
  }

  /** dividend == q * (x^n + poly) + f, with f of degree below n. */
  predicate Divides(poly: Word, init: Word, bits: seq<bool>, q: Word, f: Word)
    requires |poly| == |init|
  {
    |q| == |bits| && |f| == |poly| &&
    Dividend(init, bits) == Xor(Times(q, poly + [true]), f + Zero(|q| + 1))
  }

  /** Exactly the remainder of that division: `Feed` is it, and nothing else is. */
  lemma FeedIsRemainder(poly: Word, init: Word, bits: seq<bool>, f: Word)
    requires |poly| == |init| > 0
    ensures f == Feed(poly, init, bits) <==> exists q :: Divides(poly, init, bits, q, f)
  {
    var r := Feed(poly, init, bits);
    var p := Quotient(poly, init, bits);
    if exists q :: Divides(poly, init, bits, q, f) {
      var q :| Divides(poly, init, bits, q, f);
      RemainderUnique(poly + [true], p, r, q, f);
    }
  }

  lemma {:induction false} Quotient(poly: Word, init: Word, bits: seq<bool>) returns (q: Word)
    requires |poly| == |init| > 0
    ensures Divides(poly, init, bits, q, Feed(poly, init, bits))
    decreases |bits|
  {
    if bits == [] {
      q := [];
      NothingDivided(poly, init);
    } else {
      var k := |bits| - 1;
      var p := Quotient(poly, init, bits[..k]);
      var f := Feed(poly, init, bits[..k]);
      q := [f[|poly| - 1] != bits[k]] + p;
      OneMoreBit(poly, init, bits[..k], bits[k], p, f);
      assert bits[..k] + [bits[k]] == bits;
    }
  }

  lemma NothingDivided(poly: Word, init: Word)
    requires |poly| == |init|
    ensures Divides(poly, init, [], [], init)
  {}

  lemma OneMoreBit(poly: Word, init: Word, bits: seq<bool>, x: bool, q: Word, f: Word)
    requires |poly| == |init| > 0 && Divides(poly, init, bits, q, f)
    ensures Divides(poly, init, bits + [x], [f[|poly| - 1] != x] + q, Step(poly, f, x))
  {
    var n, k := |poly|, |bits|;
    var g, c := poly + [true], f[n - 1] != x;
    var t := Times(q, g);
    var l, r := Dividend(init, bits + [x]), Xor(Times([c] + q, g), Step(poly, f, x) + Zero(k + 2));
    forall i | 0 <= i < k + n + 2
      ensures l[i] == r[i]
    {
      DividendGrows(init, bits, x, i);
      TimesAt([c] + q, g, i);
      assert ([c] + q)[1..] == q;
      hide Times, Dividend;
      if i > 0 {
        assert Dividend(init, bits)[i - 1] == (t[i - 1] != (i - 1 < n && f[i - 1]));
      }
    }
  }

  /** One coefficient of a product, by the lowest coefficient of the first factor. */
  lemma TimesAt(q: Word, g: Word, i: nat)
    requires q != [] && i < |q| + |g|
    ensures Times(q, g)[i] == ((q[0] && i < |g| && g[i]) != (i > 0 && Times(q[1..], g)[i - 1]))
  {}

  lemma DividendGrows(init: Word, bits: seq<bool>, x: bool, i: nat)
    requires i < |bits| + |init| + 2
    ensures Dividend(init, bits + [x])[i]
         == ((i > 0 && Dividend(init, bits)[i - 1]) != (i == |init| && x))
  {}

  lemma RemainderUnique(g: Word, p: Word, f: Word, q: Word, h: Word)
    requires |p| == |q| && |f| == |h| == |g| - 1 && g[|g| - 1]
    requires Xor(Times(p, g), f + Zero(|p| + 1)) == Xor(Times(q, g), h + Zero(|q| + 1))
    ensures p == q && f == h
  {
    hide Times, Xor, Zero;
    TimesLinear(p, q, g);
    Difference(Times(p, g), f, Times(q, g), h, |p| + 1);
    NoSmallMultiple(Xor(p, q), g);
    XorIsZero(p, q);
  }

  lemma Difference(a: Word, f: Word, b: Word, h: Word, k: nat)
    requires |f| == |h| && |a| == |b| == |f| + k
    requires Xor(a, f + Zero(k)) == Xor(b, h + Zero(k))
    ensures Clean(Xor(a, b), |f|)
    ensures a == b ==> f == h
  {
    var l, r := Xor(a, f + Zero(k)), Xor(b, h + Zero(k));
    forall i | |f| <= i < |a|
      ensures !Xor(a, b)[i]
    {
      assert l[i] == r[i];
    }
    if a == b {
      forall i | 0 <= i < |f|
        ensures f[i] == h[i]
      {
        assert l[i] == r[i];
      }
    }
  }

  lemma {:induction false} TimesLinear(p: Word, q: Word, g: Word)
    requires |p| == |q|
    ensures Times(Xor(p, q), g) == Xor(Times(p, g), Times(q, g))
    decreases |p|
  {
    if p != [] {
      TimesLinear(p[1..], q[1..], g);
      assert Xor(p, q)[1..] == Xor(p[1..], q[1..]);
      var l, r := Times(Xor(p, q), g), Xor(Times(p, g), Times(q, g));
      forall i | 0 <= i < |l|
        ensures l[i] == r[i]
      {
        TimesAt(Xor(p, q), g, i);
        TimesAt(p, g, i);
        TimesAt(q, g, i);
        hide Times;
      }
    }
  }

  /** The only multiple of a polynomial that has a lower degree is zero. */
  lemma {:induction false} NoSmallMultiple(q: Word, g: Word)
    requires g != [] && g[|g| - 1] && Clean(Times(q, g), |g| - 1)
    ensures q == Zero(|q|)
    decreases |q|
  {
    if q != [] {
      var n := |g| - 1;
      var t, rest := Times(q, g), Times(q[1..], g);
      forall j | n <= j < |rest|
        ensures !rest[j]
      {
        assert t[j + 1] == rest[j];
      }
      NoSmallMultiple(q[1..], g);
      TimesZero(|q| - 1, g);
      assert !t[n] && t[n] == q[0];
    }
  }

  lemma {:induction false} TimesZero(k: nat, g: Word)
    ensures Times(Zero(k), g) == Zero(k + |g|)
  {
    if k > 0 {
      TimesZero(k - 1, g);
      assert Zero(k)[1..] == Zero(k - 1);
    }
  }

  // ----- whole checksums

  /** The bits of a message in the order they are divided: each byte from its lowest bit if
      the input is reflected, from its highest otherwise. */
  predicate InOrder(reflectIn: bool, msg: seq<Byte>, bits: seq<bool>) {
    |bits| == 8 * |msg| &&
    forall i :: 0 <= i < |bits| ==> bits[i] == msg[i / 8][if reflectIn then i % 8 else 7 - i % 8]
  }

  lemma {:induction false} MessageInOrder(reflectIn: bool, msg: seq<Byte>)
    ensures InOrder(reflectIn, msg, MessageBits(reflectIn, msg))
  {
    if msg != [] {
      var n := |msg| - 1;
      var bits := MessageBits(reflectIn, msg);
      MessageInOrder(reflectIn, msg[..n]);
      forall i | 0 <= i < |bits|
        ensures bits[i] == msg[i / 8][if reflectIn then i % 8 else 7 - i % 8]
      {
        if i < 8 * n {
          assert bits[i] == MessageBits(reflectIn, msg[..n])[i];
        } else {
          assert i / 8 == n && bits[i] == InputBits(reflectIn, msg[n])[i - 8 * n];
        }
      }
    }
  }

  lemma OneOrder(reflectIn: bool, msg: seq<Byte>, a: seq<bool>, b: seq<bool>)
    requires InOrder(reflectIn, msg, a) && InOrder(reflectIn, msg, b)
    ensures a == b
  {
    forall i | 0 <= i < |a|
      ensures a[i] == b[i]
    {
    }
  }

  /** The specified checksum, for every width and every setting: the remainder of the
      division, turned round if asked for, with the final value added. */
  lemma ChecksumExact(poly: Word, init: Word, finalXor: Word, reflectIn: bool, reflectRem: bool,
                      msg: seq<Byte>, bits: seq<bool>, c: Word, f: Word)
    requires |poly| == |init| == |finalXor| == |c| == |f| > 0
    requires InOrder(reflectIn, msg, bits)
    requires forall i :: 0 <= i < |c| ==>
               c[i] == (f[if reflectRem then |c| - 1 - i else i] != finalXor[i])
    ensures c == Checksum(poly, init, finalXor, reflectIn, reflectRem, msg)
       <==> exists q :: Divides(poly, init, bits, q, f)
  {
    MessageInOrder(reflectIn, msg);
    OneOrder(reflectIn, msg, bits, MessageBits(reflectIn, msg));
    FeedIsRemainder(poly, init, bits, f);
    FinishInjective(Feed(poly, init, bits), f, finalXor, reflectRem, c);
  }

  lemma FinishInjective(r: Word, f: Word, finalXor: Word, reflectRem: bool, c: Word)
    requires |r| == |f| == |finalXor| == |c|
    requires forall i :: 0 <= i < |c| ==>
               c[i] == (f[if reflectRem then |c| - 1 - i else i] != finalXor[i])
    ensures c == Xor(ReverseIf(reflectRem, r), finalXor) <==> r == f
  {
    var n := |c|;
    if c == Xor(ReverseIf(reflectRem, r), finalXor) {
      forall i | 0 <= i < n
        ensures r[i] == f[i]
      {
        var j := if reflectRem then n - 1 - i else i;
        assert c[j] == Xor(ReverseIf(reflectRem, r), finalXor)[j];
      }
    }
  }
}
