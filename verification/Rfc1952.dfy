/** The CRC of the sample code in section 8 of RFC 1952, which the predefined
    crc_32_type is meant to compute. The RFC keeps the remainder reversed
    throughout: it shifts right, and its polynomial is the reversed one. */
module Rfc1952 {
  import opened Words
  import opened CrcTheory
  import Crc

  const POLY := FromNat(0xEDB88320, 32)

  function Ones(n: nat): (r: Word)
    ensures |r| == n
  {
    seq(n, i => true)
  }

  /** One turn of the inner loop of make_crc_table. */
  function ShiftOut(p: Word, c: Word): (r: Word)
    requires |p| == |c| == 32
    ensures |r| == 32
  {
    if c[0] then Xor(p, Shr(c, 1)) else Shr(c, 1)
  }

  function ShiftsOut(p: Word, c: Word, n: nat): (r: Word)
    requires |p| == |c| == 32
    ensures |r| == 32
  {
    if n == 0 then c else ShiftOut(p, ShiftsOut(p, c, n - 1))
  }

  function TableEntry(p: Word, b: Byte): (r: Word)
    requires |p| == 32
    ensures |r| == 32
  {
    ShiftsOut(p, Resize(b, 32), 8)
  }

  /** The loop of update_crc. */
  function Update(p: Word, c: Word, msg: seq<Byte>): (r: Word)
    requires |p| == |c| == 32
    ensures |r| == 32
  {
    if msg == [] then c
    else
      var before := Update(p, c, msg[..|msg| - 1]);
      Xor(TableEntry(p, Xor(before[..8], msg[|msg| - 1])), Shr(before, 8))
  }

  /** update_crc, which complements the remainder before and after, started from 0. */
  function RfcCrc(msg: seq<Byte>): (r: Word)
    ensures |r| == 32
  {
    Xor(Update(POLY, Xor(Zero(32), Ones(32)), msg), Ones(32))
  }

  lemma {:induction false} FromNatSplit(a: nat, b: nat, j: nat, k: nat)
    requires a < Pow2(j)
    ensures FromNat(a + Pow2(j) * b, j + k) == FromNat(a, j) + FromNat(b, k)
  {
    if j > 0 {
      var t := Pow2(j - 1) * b;
      assert Pow2(j) * b == 2 * t;
      assert (a + 2 * t) / 2 == a / 2 + t && (a + 2 * t) % 2 == a % 2;
      FromNatSplit(a / 2, b, j - 1, k);
    }
  }

  lemma PolyIsReversed()
    ensures POLY == Reverse(Crc.CRC_32_POLY)
  {
    hide FromNat;
    FourBytes(0x20, 0x83, 0xB8, 0xED);
    FourBytes(0xB7, 0x1D, 0xC1, 0x04);
    MirroredBytes(0x0, 0x2, 0x4, 0x0);
    MirroredBytes(0x3, 0x8, 0x1, 0xC);
    MirroredBytes(0x8, 0xB, 0xD, 0x1);
    MirroredBytes(0xD, 0xE, 0x7, 0xB);
  }

  lemma FourBytes(a: nat, b: nat, c: nat, d: nat)
    requires a < 256 && b < 256 && c < 256
    ensures FromNat(a + 0x100 * b + 0x1_0000 * c + 0x100_0000 * d, 32)
         == FromNat(a, 8) + FromNat(b, 8) + FromNat(c, 8) + FromNat(d, 8)
  {
    hide FromNat, Pow2;
    PowerOfEight();
    FromNatSplit(a, b + 0x100 * c + 0x1_0000 * d, 8, 24);
    FromNatSplit(b, c + 0x100 * d, 8, 16);
    FromNatSplit(c, d, 8, 8);
  }

  /** Two half bytes with the same bits, read from opposite ends. */
  predicate Mirrored(a: nat, b: nat) {
    && (a % 2 == b / 8 % 2) && (a / 2 % 2 == b / 4 % 2)
    && (a / 4 % 2 == b / 2 % 2) && (a / 8 % 2 == b % 2)
  }

  /** The low and high halves of two bytes, each the mirror image of the other's. */
  lemma MirroredBytes(low: nat, high: nat, low': nat, high': nat)
    requires low < 16 && low' < 16
    requires Mirrored(low, high') && Mirrored(high, low')
    ensures FromNat(low + 16 * high, 8) == Reverse(FromNat(low' + 16 * high', 8))
  {
    hide FromNat;
    assert Pow2(4) == 16;
    FromNatSplit(low, high, 4, 4);
    FromNatSplit(low', high', 4, 4);
    MirroredHalves(low, high');
    MirroredHalves(high, low');
  }

  lemma MirroredHalves(a: nat, b: nat)
    requires Mirrored(a, b)
    ensures FromNat(a, 4) == Reverse(FromNat(b, 4))
  {
    hide FromNat;
    FourBits(a);
    FourBits(b);
  }

  lemma FourBits(n: nat)
    ensures FromNat(n, 4) == [n % 2 == 1, n / 2 % 2 == 1, n / 4 % 2 == 1, n / 8 % 2 == 1]
  {
    assert FromNat(n / 4, 2) == [n / 4 % 2 == 1, n / 8 % 2 == 1];
  }

  lemma ShiftOutIsStep(p: Word, c: Word)
    requires |p| == |c| == 32
    ensures ShiftOut(p, c) == Reverse(Step(Reverse(p), Reverse(c), false))
  {
    var r := Reverse(c);
    ReverseTwice(c);
    ReverseTwice(p);
    ReverseShl(r, 1);
    ReverseXor(Shl(r, 1), Reverse(p));
    assert Xor(Shr(c, 1), p) == Xor(p, Shr(c, 1));
  }

  lemma {:induction false} ShiftsOutAreSteps(p: Word, c: Word, n: nat)
    requires |p| == |c| == 32
    ensures ShiftsOut(p, c, n) == Reverse(Feed(Reverse(p), Reverse(c), Zero(n)))
  {
    if n == 0 {
      ReverseTwice(c);
    } else {
      ShiftsOutAreSteps(p, c, n - 1);
      ShiftOutIsStep(p, ShiftsOut(p, c, n - 1));
      ReverseTwice(Feed(Reverse(p), Reverse(c), Zero(n - 1)));
      assert Zero(n)[..n - 1] == Zero(n - 1);
    }
  }

  /** The RFC's table is the one crc_table_t fills for reflected input. */
  lemma TableEntryIsGood(p: Word, b: Byte)
    requires |p| == 32
    ensures Crc.GoodEntry(TableEntry(p, b), Reverse(p), 32, true, b)
  {
    hide Feed, ShiftsOut;
    var poly := Reverse(p);
    ShiftsOutAreSteps(p, Resize(b, 32), 8);
    FeedShort(poly, b);
    assert Reverse(Resize(b, 32)) == AtTop(b, 32);
    assert poly[..32] == poly;
    var e := TableEntry(p, b);
    assert e[..32] == e;
  }

  lemma TableTurn(p: Word, before: Word, x: Byte, e: Word)
    requires |p| == |before| == 32
    requires Crc.GoodEntry(e, Reverse(p), 32, true, Xor(before[..8], x))
    ensures Xor(e, Shr(before, 8)) == Reverse(Feed(Reverse(p), Reverse(before), InputBits(true, x)))
  {
    hide Feed;
    var poly := Reverse(p);
    assert Crc.IndexByte(true, before, 32, x) == Xor(before[..8], x);
    Crc.TableStep(poly, 32, true, before, x, e);
    assert before[..32] == before && poly[..32] == poly;
    var next := Xor(Crc.ShiftByte(true, before), e);
    assert next[..32] == next;
    assert next == Xor(e, Shr(before, 8));
    ReverseTwice(next);
  }

  lemma {:induction false} UpdateIsFeed(p: Word, r: Word, msg: seq<Byte>)
    requires |p| == |r| == 32
    ensures Update(p, Reverse(r), msg) == Reverse(Feed(Reverse(p), r, MessageBits(true, msg)))
    decreases |msg|
  {
    hide ShiftsOut;
    if msg != [] {
      var rest, x := msg[..|msg| - 1], msg[|msg| - 1];
      var before := Update(p, Reverse(r), rest);
      UpdateIsFeed(p, r, rest);
      var b := Xor(before[..8], x);
      TableEntryIsGood(p, b);
      TableTurn(p, before, x, TableEntry(p, b));
      ReverseTwice(Feed(Reverse(p), r, MessageBits(true, rest)));
      FeedAppend(Reverse(p), r, MessageBits(true, rest), InputBits(true, x));
    }
  }

  lemma ComplementedChecksum(p: Word, msg: seq<Byte>)
    requires |p| == 32
    ensures Checksum(Reverse(p), Ones(32), Ones(32), true, true, msg)
         == Xor(Update(p, Xor(Zero(32), Ones(32)), msg), Ones(32))
  {
    XorZero(Ones(32));
    assert Reverse(Ones(32)) == Ones(32);
    UpdateIsFeed(p, Ones(32), msg);
  }

  /** crc_32_type (remainder and final XOR all ones, both reflections on) specifies the
      checksum of the RFC. */
  lemma Crc32IsRfc1952(msg: seq<Byte>)
    ensures Checksum(Crc.CRC_32_POLY, Ones(32), Ones(32), true, true, msg) == RfcCrc(msg)
  {
    hide FromNat, Update, Checksum;
    PolyIsReversed();
    ReverseTwice(Crc.CRC_32_POLY);
    ComplementedChecksum(POLY, msg);
  }
}
