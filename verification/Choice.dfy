/** Choosing one of several weighted items by a random number below the total weight. */
module Choice {

  const UINT32 := 0x1_0000_0000

  type Weight = x: int | 0 <= x < 0x1_0000_0000

  /** The weight of the first n items. */
  function Prefix(weights: seq<Weight>, n: nat): (sum: nat)
    requires n <= |weights|
  {
    if n == 0 then 0 else Prefix(weights, n - 1) + weights[n - 1]
  }

  function Total(weights: seq<Weight>): nat {
    Prefix(weights, |weights|)
  }

  /** Item i owns the numbers from its prefix sum up to the next. */
  predicate Owns(weights: seq<Weight>, i: nat, r: nat)
    requires i < |weights|
  {
    Prefix(weights, i) <= r < Prefix(weights, i + 1)
  }

  lemma {:induction false} PrefixMonotone(weights: seq<Weight>, m: nat, n: nat)
    requires m <= n <= |weights|
    ensures Prefix(weights, m) <= Prefix(weights, n)
    decreases n
  {
    if m < n {
      PrefixMonotone(weights, m, n - 1);
    }
  }

  /** arandom_shuffle_generator: the random number reduced modulo the total. */
  method Draw(random: nat, total: nat) returns (r: nat)
    requires total > 0
    ensures r == random % total < total
  {
    r := random % total;
  }

  /** The two loops, in 32-bit sums. `random` is the non-negative random number, which the
      generator reduces modulo the total. */
  method ProbNChooseOne(weights: seq<Weight>, random: nat) returns (i: int)
    requires 0 < Total(weights) < 0x8000_0000
    ensures 0 <= i < |weights| && Owns(weights, i, random % Total(weights))
  {
    var sum := 0;
    var k := 0;
    while k < |weights|
      invariant 0 <= k <= |weights| && sum == Prefix(weights, k)
    {
      PrefixMonotone(weights, k + 1, |weights|);
      sum := (sum + weights[k]) % UINT32;
      k := k + 1;
    }
    var c := 0;
    var r := Draw(random, sum);
    i := 0;
    while i < |weights|
      invariant 0 <= i <= |weights| && c == Prefix(weights, i) && c <= r
    {
      PrefixMonotone(weights, i + 1, |weights|);
      c := (c + weights[i]) % UINT32;
      if c > r {
        return i;
      }
      i := i + 1;
    }
    return |weights| - 1;
  }

  /** Every number below the total is owned by exactly one item, so the choice is a
      function of the number. */
  lemma OneOwner(weights: seq<Weight>, i: nat, j: nat, r: nat)
    requires i < |weights| && j < |weights| && Owns(weights, i, r) && Owns(weights, j, r)
    ensures i == j
  {
    if i < j {
      PrefixMonotone(weights, i + 1, j);
    } else if j < i {
      PrefixMonotone(weights, j + 1, i);
    }
  }

  function Interval(from: nat, end: nat): (s: set<nat>)
    requires from <= end
    ensures forall x :: x in s <==> from <= x < end
    ensures |s| == end - from
    decreases end
  {
    if from == end then {} else Interval(from, end - 1) + {end - 1}
  }

  /** Fairness: exactly weight(i) of the numbers 0 .. total-1 choose item i; in particular
      an item of weight zero is never chosen. */
  lemma Fair(weights: seq<Weight>, i: nat)
    requires i < |weights|
    ensures |set r | r in Interval(0, Total(weights)) && Owns(weights, i, r)| == weights[i]
  {
    PrefixMonotone(weights, i + 1, |weights|);
    var chosen := set r | r in Interval(0, Total(weights)) && Owns(weights, i, r);
    assert chosen == Interval(Prefix(weights, i), Prefix(weights, i + 1));
  }
}
