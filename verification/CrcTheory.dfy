/** Polynomial division one bit at a time, and the algebra that lets the
    table-driven and augmented forms replace it. A remainder is a word with as
    many bits as the CRC is wide. */
module CrcTheory {
  import opened Words

  /** One division step: the incoming bit is compared with the remainder's top bit,
      and the truncated polynomial is subtracted when they differ. */
  function Step(poly: Word, r: Word, bit: bool): (r': Word)
    requires |poly| == |r| > 0
    ensures |r'| == |r|
  {
    if r[|r| - 1] != bit then Xor(Shl(r, 1), poly) else Shl(r, 1)
  }

  /** The bit-serial CRC: all bits of a message, in the order they are fed. */
  function Feed(poly: Word, r: Word, bits: seq<bool>): (r': Word)
    requires |poly| == |r| > 0
    ensures |r'| == |r|
  {
    if bits == [] then r
    else Step(poly, Feed(poly, r, bits[..|bits| - 1]), bits[|bits| - 1])
  }

  /** The order in which the bits of one byte are fed. */
  function InputBits(reflectIn: bool, b: Byte): (bits: seq<bool>)
    ensures |bits| == 8
  {
    ReverseIf(!reflectIn, b)
  }

  function MessageBits(reflectIn: bool, msg: seq<Byte>): (bits: seq<bool>)
    ensures |bits| == 8 * |msg|
  {
    if msg == [] then []
    else MessageBits(reflectIn, msg[..|msg| - 1]) + InputBits(reflectIn, msg[|msg| - 1])
  }

  /** The value every CRC computer in the file is meant to return. */
  function Checksum(poly: Word, init: Word, finalXor: Word, reflectIn: bool, reflectRem: bool,
                    msg: seq<Byte>): (c: Word)
    requires |poly| == |init| == |finalXor| > 0
    ensures |c| == |poly|
  {
    Xor(ReverseIf(reflectRem, Feed(poly, init, MessageBits(reflectIn, msg))), finalXor)
  }

  // ----- feeding in pieces

  lemma {:induction false} FeedAppend(poly: Word, r: Word, a: seq<bool>, b: seq<bool>)
    requires |poly| == |r| > 0
    ensures Feed(poly, r, a + b) == Feed(poly, Feed(poly, r, a), b)
    decreases |b|
  {
    if b == [] {
      assert a + b == a;
    } else {
      var c := b[..|b| - 1];
      assert (a + b)[..|a + b| - 1] == a + c;
      FeedAppend(poly, r, a, c);
    }
  }

  lemma FeedOne(poly: Word, r: Word, bits: seq<bool>, x: bool)
    requires |poly| == |r| > 0
    ensures Feed(poly, r, bits + [x]) == Step(poly, Feed(poly, r, bits), x)
  {
    assert (bits + [x])[..|bits + [x]| - 1] == bits;
  }

  lemma {:induction false} MessageAppend(reflectIn: bool, a: seq<Byte>, b: seq<Byte>)
    ensures MessageBits(reflectIn, a + b) == MessageBits(reflectIn, a) + MessageBits(reflectIn, b)
    decreases |b|
  {
    if b == [] {
      assert a + b == a;
    } else {
      var c := b[..|b| - 1];
      assert (a + b)[..|a + b| - 1] == a + c;
      MessageAppend(reflectIn, a, c);
    }
  }

  // ----- linearity

  lemma StepLinear(poly: Word, u: Word, v: Word, x: bool, y: bool)
    requires |poly| == |u| == |v| > 0
    ensures Step(poly, Xor(u, v), x != y) == Xor(Step(poly, u, x), Step(poly, v, y))
  {
    var n := |u|;
    var l, r := Step(poly, Xor(u, v), x != y), Xor(Step(poly, u, x), Step(poly, v, y));
    forall i | 0 <= i < n
      ensures l[i] == r[i]
    {
    }
  }

  lemma {:induction false} FeedLinear(poly: Word, u: Word, v: Word, a: seq<bool>, b: seq<bool>)
    requires |poly| == |u| == |v| > 0 && |a| == |b|
    ensures Feed(poly, Xor(u, v), Xor(a, b)) == Xor(Feed(poly, u, a), Feed(poly, v, b))
    decreases |a|
  {
    if a != [] {
      var k := |a| - 1;
      FeedLinear(poly, u, v, a[..k], b[..k]);
      assert Xor(a, b)[..k] == Xor(a[..k], b[..k]);
      StepLinear(poly, Feed(poly, u, a[..k]), Feed(poly, v, b[..k]), a[k], b[k]);
    }
  }

  /** The first n bits that leave r at the top; zeros once r is used up. */
  function Top(r: Word, n: nat): (bits: seq<bool>)
    ensures |bits| == n
  {
    seq(n, k requires 0 <= k < n => k < |r| && r[|r| - 1 - k])
  }

  /** Why a table works: n steps from any remainder are a shift by n, plus n steps from
      zero fed with the message bits compared with the bits shifted out. It holds for
      every width, also when n bits shift the whole remainder out. */
  lemma {:induction false} FeedByTable(poly: Word, r: Word, bits: seq<bool>)
    requires |poly| == |r| > 0
    ensures Feed(poly, r, bits)
         == Xor(Shl(r, |bits|), Feed(poly, Zero(|r|), Xor(bits, Top(r, |bits|))))
    decreases |bits|
  {
    var n := |bits|;
    if n == 0 {
      assert Shl(r, 0) == r;
      XorZero(r);
    } else {
      var init, x := bits[..n - 1], bits[n - 1];
      var f := Feed(poly, Zero(|r|), Xor(init, Top(r, n - 1)));
      FeedByTable(poly, r, init);
      ShiftedStep(poly, r, n, f, x);
      ComparedBits(r, init, x);
      assert init + [x] == bits;
      FeedOne(poly, Zero(|r|), Xor(init, Top(r, n - 1)), x != Top(r, n)[n - 1]);
    }
  }

  lemma ShiftedStep(poly: Word, r: Word, n: nat, f: Word, x: bool)
    requires |poly| == |r| == |f| > 0 && n > 0
    ensures Step(poly, Xor(Shl(r, n - 1), f), x)
         == Xor(Shl(r, n), Step(poly, f, x != Top(r, n)[n - 1]))
  {
    var shifted := Shl(r, n - 1);
    var t := shifted[|r| - 1];
    StepLinear(poly, shifted, f, t, x != t);
    TopBitDropped(poly, r, n);
    assert (t != (x != t)) == x;
  }

  lemma TopBitDropped(poly: Word, r: Word, n: nat)
    requires |poly| == |r| > 0 && n > 0
    ensures var t := Shl(r, n - 1)[|r| - 1];
            t == Top(r, n)[n - 1] && Step(poly, Shl(r, n - 1), t) == Shl(r, n)
  {}

  lemma ComparedBits(r: Word, init: seq<bool>, x: bool)
    ensures var n := |init| + 1;
            Xor(init + [x], Top(r, n)) == Xor(init, Top(r, n - 1)) + [x != Top(r, n)[n - 1]]
  {}

  // ----- augmented messages

  /** Division of the message itself: the bit enters at the bottom. */
  function AugStep(poly: Word, r: Word, bit: bool): (r': Word)
    requires |poly| == |r| > 0
    ensures |r'| == |r|
  {
    var s := Shl(r, 1)[0 := bit];
    if r[|r| - 1] then Xor(s, poly) else s
  }

  function AugFeed(poly: Word, r: Word, bits: seq<bool>): (r': Word)
    requires |poly| == |r| > 0
    ensures |r'| == |r|
  {
    if bits == [] then r
    else AugStep(poly, AugFeed(poly, r, bits[..|bits| - 1]), bits[|bits| - 1])
  }

  lemma {:induction false} AugFeedAppend(poly: Word, r: Word, a: seq<bool>, b: seq<bool>)
    requires |poly| == |r| > 0
    ensures AugFeed(poly, r, a + b) == AugFeed(poly, AugFeed(poly, r, a), b)
    decreases |b|
  {
    if b == [] {
      assert a + b == a;
    } else {
      var c := b[..|b| - 1];
      assert (a + b)[..|a + b| - 1] == a + c;
      AugFeedAppend(poly, r, a, c);
    }
  }

  /** The word whose only set bit may be bit 0. */
  function Unit(n: nat, bit: bool): (r: Word)
    requires n > 0
    ensures |r| == n
  {
    Zero(n)[0 := bit]
  }

  lemma AugStepSplits(poly: Word, r: Word, bit: bool)
    requires |poly| == |r| > 0
    ensures AugStep(poly, r, bit) == Xor(Step(poly, r, false), Unit(|r|, bit))
  {
  }

  /** On zero bits the two divisions are the same. */
  lemma {:induction false} ZeroBitsAgree(poly: Word, r: Word, n: nat)
    requires |poly| == |r| > 0
    ensures AugFeed(poly, r, Zero(n)) == Feed(poly, r, Zero(n))
  {
    if n > 0 {
      ZeroBitsAgree(poly, r, n - 1);
      assert Zero(n)[..n - 1] == Zero(n - 1);
      var f := Feed(poly, r, Zero(n - 1));
      assert Shl(f, 1)[0 := false] == Shl(f, 1);
    }
  }

  /** Multiplying by x^width: what `width` appended zero bits do to a remainder. */
  function Augment(poly: Word, r: Word): (r': Word)
    requires |poly| == |r| > 0
    ensures |r'| == |r|
  {
    Feed(poly, r, Zero(|r|))
  }

  lemma AugmentLinear(poly: Word, u: Word, v: Word)
    requires |poly| == |u| == |v| > 0
    ensures Augment(poly, Xor(u, v)) == Xor(Augment(poly, u), Augment(poly, v))
  {
    var z := Zero(|u|);
    assert Xor(z, z) == z;
    FeedLinear(poly, u, v, z, z);
  }

  /** A bit at the bottom, moved up through the whole word, acts as an input bit. */
  lemma AugmentUnit(poly: Word, bit: bool)
    requires |poly| > 0
    ensures Augment(poly, Unit(|poly|, bit)) == Step(poly, Zero(|poly|), bit)
  {
    var n := |poly|;
    LowBitsShift(poly, Unit(n, bit), 1, n - 1);
    var high := Shl(Unit(n, bit), n - 1);
    assert Zero(n)[..n - 1] == Zero(n - 1);
    assert high[n - 1] == bit;
    assert Shl(high, 1) == Zero(n) == Shl(Zero(n), 1);
  }

  /** A word with only its low k bits in use can be shifted n places without a division. */
  lemma {:induction false} LowBitsShift(poly: Word, r: Word, k: nat, n: nat)
    requires |poly| == |r| > 0 && k + n <= |r| && Clean(r, k)
    ensures Feed(poly, r, Zero(n)) == Shl(r, n)
    decreases n
  {
    if n == 0 {
      assert Shl(r, 0) == r;
    } else {
      LowBitsShift(poly, r, k, n - 1);
      assert Zero(n)[..n - 1] == Zero(n - 1);
      assert !Shl(r, n - 1)[|r| - 1];
      assert Shl(Shl(r, n - 1), 1) == Shl(r, n);
    }
  }

  /** Augmenting commutes with the message: the augmented division of a message, then
      `width` zero bits, is the plain division started from the augmented remainder. */
  lemma {:induction false} AugmentedIsPlain(poly: Word, r: Word, bits: seq<bool>)
    requires |poly| == |r| > 0
    ensures Augment(poly, AugFeed(poly, r, bits)) == Feed(poly, Augment(poly, r), bits)
    decreases |bits|
  {
    if bits != [] {
      var n, k := |r|, |bits| - 1;
      var a, x := AugFeed(poly, r, bits[..k]), bits[k];
      AugmentedIsPlain(poly, r, bits[..k]);
      AugStepSplits(poly, a, x);
      AugmentLinear(poly, Step(poly, a, false), Unit(n, x));
      AugmentUnit(poly, x);
      AugmentStep(poly, a);
      var f := Augment(poly, a);
      StepLinear(poly, f, Zero(n), false, x);
      XorZero(f);
    }
  }

  lemma AugmentStep(poly: Word, r: Word)
    requires |poly| == |r| > 0
    ensures Augment(poly, Step(poly, r, false)) == Step(poly, Augment(poly, r), false)
  {
    var z := Zero(|r|);
    assert Feed(poly, r, [false]) == Step(poly, r, false) by {
      assert [false][..0] == [];
    }
    FeedAppend(poly, r, [false], z);
    assert [false] + z == z + [false];
    FeedOne(poly, r, z, false);
  }

  /** The bits of a word, top bit first: the order in which a CRC is appended. */
  function TopFirst(r: Word): (bits: seq<bool>)
    ensures |bits| == |r|
  {
    Top(r, |r|)
  }

  /** Shifting a check field of exactly the CRC's width into a zero remainder stores it. */
  lemma {:induction false} AugFeedStores(poly: Word, c: Word, k: nat)
    requires |poly| == |c| > 0 && k <= |c|
    ensures AugFeed(poly, Zero(|c|), Top(c, k)) == Shr(c, |c| - k)
    decreases k
  {
    if k == 0 {
      assert Shr(c, |c|) == Zero(|c|);
    } else {
      AugFeedStores(poly, c, k - 1);
      assert Top(c, k)[..k - 1] == Top(c, k - 1);
      var r := Shr(c, |c| - (k - 1));
      assert !r[|c| - 1];
      assert Shl(r, 1)[0 := c[|c| - k]] == Shr(c, |c| - k);
    }
  }

  lemma {:induction false} AugFeedLinear(poly: Word, u: Word, v: Word, a: seq<bool>, b: seq<bool>)
    requires |poly| == |u| == |v| > 0 && |a| == |b|
    ensures AugFeed(poly, Xor(u, v), Xor(a, b)) == Xor(AugFeed(poly, u, a), AugFeed(poly, v, b))
    decreases |a|
  {
    if a != [] {
      var k := |a| - 1;
      AugFeedLinear(poly, u, v, a[..k], b[..k]);
      assert Xor(a, b)[..k] == Xor(a[..k], b[..k]);
      AugStepLinear(poly, AugFeed(poly, u, a[..k]), AugFeed(poly, v, b[..k]), a[k], b[k]);
    }
  }

  lemma AugStepLinear(poly: Word, u: Word, v: Word, x: bool, y: bool)
    requires |poly| == |u| == |v| > 0
    ensures AugStep(poly, Xor(u, v), x != y) == Xor(AugStep(poly, u, x), AugStep(poly, v, y))
  {
    var l, r := AugStep(poly, Xor(u, v), x != y), Xor(AugStep(poly, u, x), AugStep(poly, v, y));
    forall i | 0 <= i < |u|
      ensures l[i] == r[i]
    {
    }
  }

  /** Checking a received message: the augmented division of the message and a check field
      of `width` bits is zero exactly when the field is the message's plain CRC. */
  lemma CheckFieldDetects(poly: Word, bits: seq<bool>, c: Word)
    requires |poly| == |c| > 0
    ensures AugFeed(poly, Zero(|c|), bits + TopFirst(c)) == Zero(|c|)
        <==> c == Feed(poly, Zero(|c|), bits)
  {
    var n := |c|;
    var z := Zero(n);
    var a := AugFeed(poly, z, bits);
    AugFeedAppend(poly, z, bits, TopFirst(c));
    XorZero(a);
    XorZero(TopFirst(c));
    AugFeedLinear(poly, a, z, z, TopFirst(c));
    AugFeedStores(poly, c, n);
    assert Shr(c, 0) == c;
    ZeroBitsAgree(poly, a, n);
    AugmentedIsPlain(poly, z, bits);
    AugmentOfZero(poly);
    XorIsZero(Feed(poly, z, bits), c);
  }

  lemma AugmentOfZero(poly: Word)
    requires |poly| > 0
    ensures Augment(poly, Zero(|poly|)) == Zero(|poly|)
  {
    var z := Zero(|poly|);
    LowBitsShift(poly, z, 0, |poly|);
    assert Shl(z, |poly|) == z;
  }

  /** The byte-at-a-time augmented step is eight augmented bit steps. */
  lemma {:induction false} AugFeedByTable(poly: Word, r: Word, bits: seq<bool>)
    requires |poly| == |r| > 0 && |bits| <= |r|
    ensures AugFeed(poly, r, bits)
         == Xor(ShiftIn(r, bits), Feed(poly, Zero(|r|), Top(r, |bits|)))
    decreases |bits|
  {
    var n := |bits|;
    if n == 0 {
      assert ShiftIn(r, bits) == r;
      XorZero(r);
    } else {
      var init, x := bits[..n - 1], bits[n - 1];
      var s := ShiftIn(r, init);
      AugFeedByTable(poly, r, init);
      AugStepAgainstTable(poly, s, Feed(poly, Zero(|r|), Top(r, n - 1)), x);
      ShiftInOne(r, init, x);
      assert init + [x] == bits;
      FeedOne(poly, Zero(|r|), Top(r, n - 1), s[|r| - 1]);
    }
  }

  lemma ShiftInOne(r: Word, init: seq<bool>, x: bool)
    requires |init| < |r|
    ensures Top(r, |init| + 1) == Top(r, |init|) + [ShiftIn(r, init)[|r| - 1]]
    ensures Shl(ShiftIn(r, init), 1)[0 := x] == ShiftIn(r, init + [x])
  {}

  lemma AugStepAgainstTable(poly: Word, s: Word, f: Word, x: bool)
    requires |poly| == |s| == |f| > 0
    ensures AugStep(poly, Xor(s, f), x)
         == Xor(Shl(s, 1)[0 := x], Step(poly, f, s[|s| - 1]))
  {
    var l, r := AugStep(poly, Xor(s, f), x), Xor(Shl(s, 1)[0 := x], Step(poly, f, s[|s| - 1]));
    forall i | 0 <= i < |s|
      ensures l[i] == r[i]
    {
    }
  }

  /** r shifted up by |bits|, with the bits entering at the bottom, first bit topmost. */
  function ShiftIn(r: Word, bits: seq<bool>): (r': Word)
    ensures |r'| == |r|
  {
    seq(|r|, i requires 0 <= i < |r| =>
      if i < |bits| then bits[|bits| - 1 - i] else r[i - |bits|])
  }

  // ----- what the remainder can tell apart

  /** With a constant term in the polynomial, no two remainders are merged by a step. */
  lemma StepInjective(poly: Word, u: Word, v: Word)
    requires |poly| == |u| == |v| > 0 && poly[0]
    requires Step(poly, u, false) == Step(poly, v, false)
    ensures u == v
  {
    var n := |u|;
    var x, y := Step(poly, u, false), Step(poly, v, false);
    assert x[0] == u[n - 1] && y[0] == v[n - 1];
    forall i | 0 <= i < n - 1
      ensures u[i] == v[i]
    {
      assert x[i + 1] == y[i + 1];
    }
  }

  lemma {:induction false} ZeroBitsInjective(poly: Word, u: Word, v: Word, n: nat)
    requires |poly| == |u| == |v| > 0 && poly[0]
    requires Feed(poly, u, Zero(n)) == Feed(poly, v, Zero(n))
    ensures u == v
  {
    if n > 0 {
      assert Zero(n)[..n - 1] == Zero(n - 1);
      StepInjective(poly, Feed(poly, u, Zero(n - 1)), Feed(poly, v, Zero(n - 1)));
      ZeroBitsInjective(poly, u, v, n - 1);
    }
  }

  /** The word whose top bits are e and whose other bits are zero. */
  function AtTop(e: seq<bool>, n: nat): (r: Word)
    ensures |r| == n
  {
    seq(n, i requires 0 <= i < n => n - 1 - i < |e| && e[n - 1 - i])
  }

  /** At most a remainder's worth of bits, fed into zero, act as a remainder being shifted out. */
  lemma FeedShort(poly: Word, e: seq<bool>)
    requires |e| <= |poly| && |poly| > 0
    ensures Feed(poly, Zero(|poly|), e) == Feed(poly, AtTop(e, |poly|), Zero(|e|))
  {
    var w, n := |poly|, |e|;
    var c := AtTop(e, w);
    FeedByTable(poly, c, Zero(n));
    AtTopShiftsOut(e, w);
    XorZero(Feed(poly, Zero(w), e));
  }

  lemma AtTopShiftsOut(e: seq<bool>, w: nat)
    requires |e| <= w
    ensures Xor(Zero(|e|), Top(AtTop(e, w), |e|)) == e
    ensures Shl(AtTop(e, w), |e|) == Zero(w)
  {}

  lemma AtTopOfZeros(e: seq<bool>, w: nat)
    requires |e| <= w && AtTop(e, w) == Zero(w)
    ensures e == Zero(|e|)
  {
    forall i | 0 <= i < |e|
      ensures e[i] == Zero(|e|)[i]
    {
      assert AtTop(e, w)[w - 1 - i] == Zero(w)[w - 1 - i];
    }
  }

  /** Up to a remainder's worth of bits can be told apart from the same start. */
  lemma ShortInputsDistinct(poly: Word, u: Word, x: seq<bool>, y: seq<bool>)
    requires |poly| == |u| > 0 && poly[0]
    requires |x| == |y| <= |poly|
    requires Feed(poly, u, x) == Feed(poly, u, y)
    ensures x == y
  {
    var w := |poly|;
    FeedLinear(poly, u, u, x, y);
    XorIsZero(u, u);
    XorIsZero(Feed(poly, u, x), Feed(poly, u, y));
    FeedShort(poly, Xor(x, y));
    FeedOfZeros(poly, |x|);
    assert Feed(poly, Zero(w), Zero(|x|)) == Zero(w);
    ZeroBitsInjective(poly, AtTop(Xor(x, y), w), Zero(w), |x|);
    AtTopOfZeros(Xor(x, y), w);
    XorIsZero(x, y);
  }

  lemma FeedOfZeros(poly: Word, n: nat)
    requires |poly| > 0
    ensures Feed(poly, Zero(|poly|), Zero(n)) == Zero(|poly|)
  {
    LowBitsShift(poly, Zero(|poly|), 0, 0);
    if n > 0 {
      FeedOfZeros(poly, n - 1);
      assert Zero(n)[..n - 1] == Zero(n - 1);
      assert Shl(Zero(|poly|), 1) == Zero(|poly|);
    }
  }

  /** Error detection: messages of one length that differ, but only inside a window no
      longer than the CRC is wide, get different remainders. */
  lemma BurstDetected(poly: Word, r: Word, a: seq<bool>, b: seq<bool>, from: nat, to: nat)
    requires |poly| == |r| > 0 && poly[0]
    requires |a| == |b| && a != b
    requires from <= to <= |a| && to - from <= |poly|
    requires a[..from] == b[..from] && a[to..] == b[to..]
    ensures Feed(poly, r, a) != Feed(poly, r, b)
  {
    var u := Feed(poly, r, a[..from]);
    var x, y := a[from..to], b[from..to];
    assert a == (a[..from] + x) + a[to..] && b == (b[..from] + y) + b[to..];
    FeedAppend(poly, r, a[..from] + x, a[to..]);
    FeedAppend(poly, r, b[..from] + y, b[to..]);
    FeedAppend(poly, r, a[..from], x);
    FeedAppend(poly, r, b[..from], y);
    if Feed(poly, r, a) == Feed(poly, r, b) {
      FeedInjective(poly, Feed(poly, u, x), Feed(poly, u, y), a[to..]);
      ShortInputsDistinct(poly, u, x, y);
    }
  }

  /** Equal inputs cannot reconcile different remainders. */
  lemma FeedInjective(poly: Word, u: Word, v: Word, bits: seq<bool>)
    requires |poly| == |u| == |v| > 0 && poly[0]
    requires Feed(poly, u, bits) == Feed(poly, v, bits)
    ensures u == v
  {
    FeedLinear(poly, u, v, bits, bits);
    XorIsZero(Feed(poly, u, bits), Feed(poly, v, bits));
    XorIsZero(bits, bits);
    FeedOfZeros(poly, |bits|);
    ZeroBitsInjective(poly, Xor(u, v), Zero(|u|), |bits|);
    XorIsZero(u, v);
  }

  /** Without a constant term some non-zero remainder is wiped out by one zero bit. */
  lemma LostRemainder(poly: Word) returns (c: Word)
    requires |poly| > 0 && !poly[0]
    ensures |c| == |poly| && c[|c| - 1]
    ensures Step(poly, c, false) == Zero(|poly|)
  {
    c := Shr(poly, 1)[|poly| - 1 := true];
    assert Shl(c, 1) == poly;
    XorIsZero(poly, poly);
  }

  lemma AtTopOfTopFirst(c: Word)
    ensures AtTop(TopFirst(c), |c|) == c
  {}

  /** Hence there is always a blind spot: a non-zero burst, exactly as long as the CRC
      is wide, that leaves no trace. */
  lemma BurstMissed(poly: Word) returns (e: seq<bool>)
    requires |poly| > 0 && !poly[0]
    ensures |e| == |poly| && e[0]
    ensures Feed(poly, Zero(|poly|), e) == Zero(|poly|)
  {
    var n := |poly|;
    var c := LostRemainder(poly);
    e := TopFirst(c);
    AtTopOfTopFirst(c);
    FeedShort(poly, e);
    FeedOne(poly, c, [], false);
    assert Zero(n) == [false] + Zero(n - 1);
    FeedAppend(poly, c, [false], Zero(n - 1));
    FeedOfZeros(poly, n - 1);
  }
}
