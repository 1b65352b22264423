/** Machine words as bit sequences, bit 0 (the least significant) first. */
module Words {

  type Word = seq<bool>

  type Byte = w: Word | |w| == 8 witness [false, false, false, false, false, false, false, false]

  function Zero(n: nat): (r: Word)
    ensures |r| == n
  {
    seq(n, i => false)
  }

  function Xor(a: Word, b: Word): (r: Word)
    requires |a| == |b|
    ensures |r| == |a|
  {
    seq(|a|, i requires 0 <= i < |a| => a[i] != b[i])
  }

  /** `x << k`, dropping what leaves the word at the top. */
  function Shl(x: Word, k: nat): (r: Word)
    ensures |r| == |x|
  {
    seq(|x|, i requires 0 <= i < |x| => i >= k && x[i - k])
  }

  /** `x >> k` */
  function Shr(x: Word, k: nat): (r: Word)
    ensures |r| == |x|
  {
    seq(|x|, i requires 0 <= i < |x| => i + k < |x| && x[i + k])
  }

  /** The low n bits, reading zeros above the top: a conversion between widths. */
  function Resize(x: Word, n: nat): (r: Word)
    ensures |r| == n
  {
    seq(n, i requires 0 <= i < n => i < |x| && x[i])
  }

  function Reverse(x: Word): (r: Word)
    ensures |r| == |x|
  {
    seq(|x|, i requires 0 <= i < |x| => x[|x| - 1 - i])
  }

  function ReverseIf(flag: bool, x: Word): (r: Word)
    ensures |r| == |x|
  {
    if flag then Reverse(x) else x
  }

  /** Nothing is set at or above bit n. */
  predicate Clean(x: Word, n: nat) {
    forall i :: n <= i < |x| ==> !x[i]
  }

  lemma ReverseTwice(x: Word)
    ensures Reverse(Reverse(x)) == x
  {}

  lemma ReverseXor(a: Word, b: Word)
    requires |a| == |b|
    ensures Reverse(Xor(a, b)) == Xor(Reverse(a), Reverse(b))
  {}

  /** Shifting a reversed word right is shifting the word left. */
  lemma ReverseShl(x: Word, k: nat)
    ensures Reverse(Shl(x, k)) == Shr(Reverse(x), k)
  {}

  lemma XorZero(a: Word)
    ensures Xor(a, Zero(|a|)) == a && Xor(Zero(|a|), a) == a
  {}

  lemma XorIsZero(a: Word, b: Word)
    requires |a| == |b|
    ensures Xor(a, b) == Zero(|a|) <==> a == b
  {
    if Xor(a, b) == Zero(|a|) {
      forall i | 0 <= i < |a|
        ensures a[i] == b[i]
      {
        assert Xor(a, b)[i] == Zero(|a|)[i];
      }
    }
  }

  // ----- bytes as table indices

  function Pow2(k: nat): (p: nat)
    ensures p > 0
  {
    if k == 0 then 1 else 2 * Pow2(k - 1)
  }

  function ToNat(w: Word): nat {
    if w == [] then 0 else (if w[0] then 1 else 0) + 2 * ToNat(w[1..])
  }

  function FromNat(n: nat, k: nat): (w: Word)
    ensures |w| == k
  {
    if k == 0 then [] else [n % 2 == 1] + FromNat(n / 2, k - 1)
  }

  lemma {:induction false} ToNatBound(w: Word)
    ensures ToNat(w) < Pow2(|w|)
  {
    if w != [] {
      ToNatBound(w[1..]);
    }
  }

  lemma {:induction false} FromToNat(w: Word)
    ensures FromNat(ToNat(w), |w|) == w
  {
    if w != [] {
      FromToNat(w[1..]);
      assert ToNat(w) / 2 == ToNat(w[1..]);
    }
  }

  lemma {:induction false} ToFromNat(n: nat, k: nat)
    requires n < Pow2(k)
    ensures ToNat(FromNat(n, k)) == n
  {
    if k > 0 {
      ToFromNat(n / 2, k - 1);
      assert FromNat(n, k)[1..] == FromNat(n / 2, k - 1);
    }
  }

  lemma PowerOfEight()
    ensures Pow2(8) == 256
  {
    assert Pow2(4) == 16;
  }

  lemma ByteIndex(b: Byte)
    ensures ToNat(b) < 256
  {
    ToNatBound(b);
    PowerOfEight();
  }
}
