/** The CRC computers. Stored values sit in machine words that may be wider than the
    CRC itself; only the low `width` bits mean anything, and the rest may hold garbage. */
module Crc {
  import opened Words
  import opened CrcTheory

  /** Only the top bit of the CRC set: `high_bit` in a word of n bits. */
  function HighBit(n: nat, width: nat): (r: Word)
    requires 0 < width <= n
    ensures |r| == n
  {
    Zero(n)[width - 1 := true]
  }

  /** `x & sig_bits` */
  function Masked(x: Word, width: nat): (r: Word)
    requires width <= |x|
    ensures |r| == |x|
  {
    Resize(x[..width], |x|)
  }

  /** reflector<Bits>::reflect: reverses the low `width` bits and clears the rest. */
  method Reflect(x: Word, width: nat) returns (reflection: Word)
    requires width <= |x|
    ensures reflection == Resize(Reverse(x[..width]), |x|)
  {
    reflection := Zero(|x|);
    var y := x;
    for i := 0 to width
      invariant |reflection| == |x| && y == Shr(x, i)
      invariant forall j :: 0 <= j < |x| ==>
                  reflection[j] == (width - i <= j < width && x[width - 1 - j])
    {
      if y[0] {
        reflection := reflection[width - 1 - i := true];
      }
      y := Shr(y, 1);
    }
  }

  /** crc_helper<Bits, DoReflect>::reflect */
  method ReflectIf(doReflect: bool, x: Word, width: nat) returns (r: Word)
    requires width <= |x|
    ensures |r| == |x| && r[..width] == ReverseIf(doReflect, x[..width])
    ensures if doReflect then Clean(r, width) else r == x
  {
    if doReflect {
      r := Reflect(x, width);
      assert r[..width] == Reverse(x[..width]);
    } else {
      r := x;
    }
  }

  /** One division step on a stored word, garbage and all. */
  method DivideBit(rem: Word, poly: Word, width: nat, bit: bool) returns (r: Word)
    requires 0 < width <= |rem| == |poly|
    ensures |r| == |rem|
    ensures r[..width] == Step(poly[..width], rem[..width], bit)
  {
    r := Xor(rem, if bit then HighBit(|rem|, width) else Zero(|rem|));
    var doPolyDiv := r[width - 1];
    assert doPolyDiv == (rem[width - 1] != bit);
    r := Shl(r, 1);
    assert r[..width] == Shl(rem[..width], 1);
    if doPolyDiv {
      LowXor(r, poly, width);
      r := Xor(r, poly);
    }
  }

  lemma LowXor(a: Word, b: Word, width: nat)
    requires width <= |a| == |b|
    ensures Xor(a, b)[..width] == Xor(a[..width], b[..width])
  {}

  // ----- the bit-serial computer

  class CrcBasic {
    const width: nat
    const storage: nat
    var rem: Word
    var poly: Word
    var init: Word
    var finalXor: Word
    var reflectIn: bool
    var reflectOut: bool

    ghost predicate Valid()
      reads this
    {
      0 < width <= storage &&
      |rem| == |poly| == |init| == |finalXor| == storage
    }

    /** The bits of the remainder that count. */
    ghost function Remainder(): (r: Word)
      requires Valid()
      reads this
      ensures |r| == width
    {
      rem[..width]
    }

    constructor (width: nat, truncatedPolynomial: Word, initialRemainder: Word,
                 finalXorValue: Word, reflectInput: bool, reflectRemainder: bool)
      requires 0 < width <= |truncatedPolynomial|
      requires |truncatedPolynomial| == |initialRemainder| == |finalXorValue|
      ensures Valid() && this.width == width && storage == |truncatedPolynomial|
      ensures rem == init == initialRemainder && poly == truncatedPolynomial
      ensures finalXor == finalXorValue
      ensures reflectIn == reflectInput && reflectOut == reflectRemainder
    {
      this.width, storage := width, |truncatedPolynomial|;
      rem, init, poly := initialRemainder, initialRemainder, truncatedPolynomial;
      finalXor, reflectIn, reflectOut := finalXorValue, reflectInput, reflectRemainder;
    }

    method ProcessBit(bit: bool)
      requires Valid()
      modifies `rem
      ensures Valid()
      ensures Remainder() == Step(poly[..width], old(Remainder()), bit)
    {
      rem := DivideBit(rem, poly, width, bit);
    }

    /** Feeds the low `count` bits of a byte, the upper ones first. */
    method ProcessBits(bits: Byte, count: nat)
      requires Valid() && count <= 8
      modifies `rem
      ensures Valid()
      ensures Remainder() == Feed(poly[..width], old(Remainder()), Reverse(bits[..count]))
    {
      ghost var all, p, start := Reverse(bits[..count]), poly[..width], Remainder();
      var shifted: Word := Shl(bits, 8 - count);
      var i := count;
      assert all[..0] == [];
      while i > 0
        invariant 0 <= i <= count && Valid()
        invariant shifted == Shl(bits, 8 - i)
        invariant Remainder() == Feed(p, start, all[..count - i])
      {
        LeadingBit(bits, count, i);
        ProcessBit(shifted[7]);
        shifted := Shl(shifted, 1);
        i := i - 1;
        FeedNext(p, start, all, count - i - 1, count - i);
        ShlMore(bits, 8 - i - 1, 8 - i);
      }
      assert all[..count] == all;
    }

    method ProcessByte(byte: Byte)
      requires Valid()
      modifies `rem
      ensures Valid()
      ensures Remainder() == Feed(poly[..width], old(Remainder()), InputBits(reflectIn, byte))
    {
      var b := byte;
      if reflectIn {
        b := Reflect(byte, 8);
        assert byte[..8] == byte && b == Reverse(byte);
        ReverseTwice(byte);
      }
      ProcessBits(b, 8);
      assert b[..8] == b;
    }

    method ProcessBlock(bytes: seq<Byte>)
      requires Valid()
      modifies `rem
      ensures Valid()
      ensures Remainder() == Feed(poly[..width], old(Remainder()), MessageBits(reflectIn, bytes))
    {
      var i := 0;
      while i < |bytes|
        invariant 0 <= i <= |bytes| && Valid()
        invariant Remainder()
               == Feed(poly[..width], old(Remainder()), MessageBits(reflectIn, bytes[..i]))
      {
        NextByte(poly[..width], old(Remainder()), reflectIn, bytes, i);
        ProcessByte(bytes[i]);
        i := i + 1;
      }
      assert bytes[..i] == bytes;
    }

    method GetChecksum() returns (c: Word)
      requires Valid()
      ensures c == Resize(Xor(ReverseIf(reflectOut, Remainder()), finalXor[..width]), storage)
    {
      var r := ReflectIf(reflectOut, rem, width);
      LowXor(r, finalXor, width);
      c := Masked(Xor(r, finalXor), width);
    }
  }

  lemma FeedNext(poly: Word, r: Word, bits: seq<bool>, i: nat, next: nat)
    requires |poly| == |r| > 0 && i < |bits| && next == i + 1
    ensures Feed(poly, r, bits[..next]) == Step(poly, Feed(poly, r, bits[..i]), bits[i])
  {
    assert bits[..i + 1] == bits[..i] + [bits[i]];
    FeedOne(poly, r, bits[..i], bits[i]);
  }

  lemma LeadingBit(bits: Byte, count: nat, i: nat)
    requires 0 < i <= count <= 8
    ensures Reverse(bits[..count])[count - i] == Shl(bits, 8 - i)[7]
  {}

  lemma ShlMore(x: Word, k: nat, next: nat)
    requires next == k + 1
    ensures Shl(Shl(x, k), 1) == Shl(x, next)
  {}

  lemma NextByte(poly: Word, r: Word, reflectIn: bool, bytes: seq<Byte>, i: nat)
    requires |poly| == |r| > 0 && i < |bytes|
    ensures Feed(poly, r, MessageBits(reflectIn, bytes[..i + 1]))
         == Feed(poly, Feed(poly, r, MessageBits(reflectIn, bytes[..i])),
                 InputBits(reflectIn, bytes[i]))
  {
    assert bytes[..i + 1][..i] == bytes[..i];
    FeedAppend(poly, r, MessageBits(reflectIn, bytes[..i]), InputBits(reflectIn, bytes[i]));
  }

  // ----- the lookup table

  /** Where the table keeps the entry computed for a dividend. */
  function Slot(reflect: bool, dividend: nat): nat {
    ToNat(ReverseIf(reflect, FromNat(dividend, 8)))
  }

  lemma SlotInvolution(reflect: bool, k: nat)
    requires k < 256
    ensures Slot(reflect, k) < 256
    ensures FromNat(Slot(reflect, k), 8) == ReverseIf(reflect, FromNat(k, 8))
    ensures Slot(reflect, Slot(reflect, k)) == k
  {
    var b := FromNat(k, 8);
    ByteIndex(ReverseIf(reflect, b));
    FromToNat(ReverseIf(reflect, b));
    ReverseTwice(b);
    PowerOfEight();
    ToFromNat(k, 8);
  }

  lemma SlotInjective(reflect: bool, dividend: nat)
    ensures forall k :: 0 <= k < 256 && Slot(reflect, k) == dividend ==>
              k == Slot(reflect, dividend)
  {
    forall k | 0 <= k < 256 && Slot(reflect, k) == dividend
      ensures k == Slot(reflect, dividend)
    {
      SlotInvolution(reflect, k);
    }
  }

  /** The entry a byte must find: eight steps from zero, in the table's own bit order. */
  predicate GoodEntry(e: Word, poly: Word, width: nat, reflect: bool, b: Byte)
    requires 0 < width <= |poly|
  {
    |e| == |poly| &&
    e[..width] == ReverseIf(reflect, Feed(poly[..width], Zero(width), InputBits(reflect, b))) &&
    (reflect ==> Clean(e, width))
  }

  class CrcTable {
    const width: nat
    const poly: Word
    const reflect: bool
    const entries: array<Word>
    var didInit: bool

    ghost predicate Valid()
      reads this, entries
    {
      0 < width <= |poly| && entries.Length == 256 &&
      (didInit ==>
         forall k :: 0 <= k < 256 ==> GoodEntry(entries[k], poly, width, reflect, FromNat(k, 8)))
    }

    constructor (width: nat, truncatedPolynomial: Word, reflect: bool)
      requires 0 < width <= |truncatedPolynomial|
      ensures Valid() && fresh(entries)
      ensures this.width == width && poly == truncatedPolynomial && this.reflect == reflect
    {
      this.width, poly, this.reflect := width, truncatedPolynomial, reflect;
      entries := new Word[256](_ => Zero(|truncatedPolynomial|));
      didInit := false;
    }

    /** The division of one dividend byte, upper bits first. */
    method DivideByte(dividend: nat) returns (remainder: Word)
      requires Valid() && dividend < 256
      ensures |remainder| == |poly|
      ensures remainder[..width]
           == Feed(poly[..width], Zero(width), Reverse(FromNat(dividend, 8)))
    {
      var d := FromNat(dividend, 8);
      ghost var bits := Reverse(d);
      remainder := Zero(|poly|);
      assert remainder[..width] == Zero(width) && bits[..0] == [];
      var mask := 8;
      while mask > 0
        invariant 0 <= mask <= 8 && |remainder| == |poly|
        invariant remainder[..width] == Feed(poly[..width], Zero(width), bits[..8 - mask])
      {
        mask := mask - 1;
        assert bits[7 - mask] == d[mask];
        FeedNext(poly[..width], Zero(width), bits, 7 - mask, 8 - mask);
        remainder := DivideBit(remainder, poly, width, d[mask]);
      }
      assert bits[..8] == bits;
    }

    method StoreEntry(dividend: nat)
      requires Valid() && !didInit && dividend < 256
      modifies entries
      ensures Slot(reflect, dividend) < 256
      ensures GoodEntry(entries[Slot(reflect, dividend)], poly, width, reflect,
                        FromNat(Slot(reflect, dividend), 8))
      ensures forall k :: 0 <= k < 256 && k != Slot(reflect, dividend) ==>
                entries[k] == old(entries[k])
    {
      var remainder := DivideByte(dividend);
      SlotInvolution(reflect, dividend);
      var entry := ReflectIf(reflect, remainder, width);
      ReverseTwice(FromNat(dividend, 8));
      entries[Slot(reflect, dividend)] := entry;
    }

    method InitTable()
      requires Valid()
      modifies this, entries
      ensures Valid() && didInit
      ensures old(didInit) ==> entries[..] == old(entries[..])
    {
      if didInit {
        return;
      }
      var dividend := 0;
      while true
        invariant 0 <= dividend < 256 && Valid() && !didInit
        invariant forall k :: 0 <= k < 256 && Slot(reflect, k) < dividend ==>
                    GoodEntry(entries[k], poly, width, reflect, FromNat(k, 8))
        decreases 256 - dividend
      {
        StoreEntry(dividend);
        SlotInjective(reflect, dividend);
        if dividend + 1 == 256 {
          break;
        }
        dividend := dividend + 1;
      }
      forall k | 0 <= k < 256
        ensures Slot(reflect, k) < 256
      {
        SlotInvolution(reflect, k);
      }
      didInit := true;
    }

    method Lookup(index: Byte) returns (e: Word)
      requires Valid() && didInit
      ensures GoodEntry(e, poly, width, reflect, index)
    {
      ByteIndex(index);
      FromToNat(index);
      e := entries[ToNat(index)];
    }
  }

  // ----- the table-driven computer

  /** crc_helper<Bits, DoReflect>::index: the remainder's leaving byte against x. */
  function IndexByte(reflect: bool, rem: Word, width: nat, x: Byte): Byte
    requires |rem| >= 8 && 0 < width <= |rem|
  {
    if reflect then Xor(x, rem[..8])
    else if width > 8 then Xor(x, Shr(rem, width - 8)[..8])
    else Xor(x, Shl(rem, 8 - width)[..8])
  }

  /** crc_helper<Bits, DoReflect>::shift */
  function ShiftByte(reflect: bool, rem: Word): (r: Word)
    ensures |r| == |rem|
  {
    if reflect then Shr(rem, 8) else Shl(rem, 8)
  }

  /** The two conventions meet here: indexing with the leaving byte, shifting and adding
      the entry is feeding eight bits to the un-reflected remainder. */
  lemma TableStep(poly: Word, width: nat, reflect: bool, rem: Word, x: Byte, e: Word)
    requires |rem| == |poly| >= 8 && 0 < width <= |rem|
    requires reflect ==> Clean(rem, width)
    requires GoodEntry(e, poly, width, reflect, IndexByte(reflect, rem, width, x))
    ensures var rem' := Xor(ShiftByte(reflect, rem), e);
            ReverseIf(reflect, rem'[..width])
              == Feed(poly[..width], ReverseIf(reflect, rem[..width]), InputBits(reflect, x)) &&
            (reflect ==> Clean(rem', width))
  {
    var r := ReverseIf(reflect, rem[..width]);
    FeedByTable(poly[..width], r, InputBits(reflect, x));
    LeavingByte(reflect, rem, width, x);
    LowXor(ShiftByte(reflect, rem), e, width);
    LowShift(reflect, rem, width);
    var f := Feed(poly[..width], Zero(width), InputBits(reflect, IndexByte(reflect, rem, width, x)));
    if reflect {
      ReverseTwice(f);
      ReverseTwice(rem[..width]);
      ReverseShl(r, 8);
      ReverseTwice(Shl(r, 8));
      ReverseXor(Shr(rem[..width], 8), Reverse(f));
    }
  }

  lemma LeavingByte(reflect: bool, rem: Word, width: nat, x: Byte)
    requires |rem| >= 8 && 0 < width <= |rem|
    requires reflect ==> Clean(rem, width)
    ensures InputBits(reflect, IndexByte(reflect, rem, width, x))
         == Xor(InputBits(reflect, x), Top(ReverseIf(reflect, rem[..width]), 8))
  {}

  lemma LowShift(reflect: bool, rem: Word, width: nat)
    requires width <= |rem| && (reflect ==> Clean(rem, width))
    ensures ShiftByte(reflect, rem)[..width] == ShiftByte(reflect, rem[..width])
  {}

  class CrcOptimal {
    const width: nat
    const storage: nat
    const poly: Word
    const initRem: Word
    const finalXor: Word
    const reflectIn: bool
    const reflectRem: bool
    const table: CrcTable
    var rem: Word

    ghost predicate Valid()
      reads this, table, table.entries
    {
      0 < width <= storage && storage >= 8 &&
      |rem| == |poly| == |initRem| == |finalXor| == storage &&
      (reflectIn ==> Clean(rem, width)) &&
      table.Valid() && table.didInit &&
      table.width == width && table.poly == poly && table.reflect == reflectIn
    }

    /** The interim remainder, with the input reflection undone. */
    ghost function Remainder(): (r: Word)
      requires Valid()
      reads this, table, table.entries
      ensures |r| == width
    {
      ReverseIf(reflectIn, rem[..width])
    }

    /** The static table of the instantiation is a parameter; building it is part of
        construction. */
    constructor (table: CrcTable, initRem: Word, finalXor: Word, reflectRem: bool)
      requires table.Valid() && |initRem| == |finalXor| == |table.poly| >= 8
      modifies table, table.entries
      ensures Valid()
      ensures this.table == table && width == table.width && poly == table.poly
      ensures storage == |poly| && reflectIn == table.reflect && this.reflectRem == reflectRem
      ensures this.initRem == initRem && this.finalXor == finalXor
      ensures Remainder() == initRem[..width]
    {
      this.table, width, poly := table, table.width, table.poly;
      storage, reflectIn := |table.poly|, table.reflect;
      this.initRem, this.finalXor, this.reflectRem := initRem, finalXor, reflectRem;
      rem := initRem;
      new;
      rem := ReflectIf(reflectIn, initRem, width);
      table.InitTable();
      ReverseTwice(initRem[..width]);
    }

    method Reset(newRem: Word)
      requires Valid() && |newRem| == storage
      modifies `rem
      ensures Valid()
      ensures Remainder() == newRem[..width]
    {
      rem := ReflectIf(reflectIn, newRem, width);
      ReverseTwice(newRem[..width]);
    }

    method GetInterimRemainder() returns (r: Word)
      requires Valid()
      ensures r == Resize(Remainder(), storage)
    {
      r := ReflectIf(reflectIn, rem, width);
      r := Masked(r, width);
    }

    method ProcessBlock(bytes: seq<Byte>)
      requires Valid()
      modifies `rem
      ensures Valid()
      ensures Remainder() == Feed(poly[..width], old(Remainder()), MessageBits(reflectIn, bytes))
    {
      var i := 0;
      while i < |bytes|
        invariant 0 <= i <= |bytes| && Valid()
        invariant Remainder()
               == Feed(poly[..width], old(Remainder()), MessageBits(reflectIn, bytes[..i]))
      {
        var byteIndex := IndexByte(reflectIn, rem, width, bytes[i]);
        var entry := table.Lookup(byteIndex);
        TableStep(poly, width, reflectIn, rem, bytes[i], entry);
        NextByte(poly[..width], old(Remainder()), reflectIn, bytes, i);
        rem := ShiftByte(reflectIn, rem);
        rem := Xor(rem, entry);
        i := i + 1;
      }
      assert bytes[..i] == bytes;
    }

    /** Reflects the stored remainder only where input and output reflection differ. */
    method GetChecksum() returns (c: Word)
      requires Valid()
      ensures c == Resize(Xor(ReverseIf(reflectRem, Remainder()), finalXor[..width]), storage)
    {
      var reflectOutput := reflectRem != reflectIn;
      var r := ReflectIf(reflectOutput, rem, width);
      ReverseTwice(rem[..width]);
      LowXor(r, finalXor, width);
      c := Masked(Xor(r, finalXor), width);
    }
  }

  /** Both computers, built for the same CRC in words of any two storage widths, return the
      specified checksum, and so the same one. */
  method CompareComputers(poly: Word, init: Word, final: Word, table: CrcTable, initRem: Word,
                          finalXor: Word, reflectRem: bool, msg: seq<Byte>)
    returns (slow: Word, quick: Word)
    requires table.Valid() && |initRem| == |finalXor| == |table.poly| >= 8
    requires table.width <= |poly| == |init| == |final|
    requires poly[..table.width] == table.poly[..table.width]
    requires init[..table.width] == initRem[..table.width]
    requires final[..table.width] == finalXor[..table.width]
    modifies table, table.entries
    ensures |slow| == |poly| && |quick| == |table.poly|
    ensures Clean(slow, table.width) && Clean(quick, table.width)
    ensures slow[..table.width] == quick[..table.width]
         == Checksum(poly[..table.width], init[..table.width], final[..table.width],
                     table.reflect, reflectRem, msg)
  {
    var basic := new CrcBasic(table.width, poly, init, final, table.reflect, reflectRem);
    basic.ProcessBlock(msg);
    slow := basic.GetChecksum();
    quick := CrcOf(table, initRem, finalXor, reflectRem, msg);
    ghost var c := Checksum(poly[..table.width], init[..table.width], final[..table.width],
                            table.reflect, reflectRem, msg);
    ResizeUp(c, |poly|);
    ResizeUp(c, |table.poly|);
  }

  lemma ResizeUp(c: Word, n: nat)
    requires |c| <= n
    ensures Resize(c, n)[..|c|] == c && Clean(Resize(c, n), |c|)
  {}

  /** crc(): the whole computation on a fresh table-driven computer. */
  method CrcOf(table: CrcTable, initRem: Word, finalXor: Word, reflectRem: bool, buffer: seq<Byte>)
    returns (c: Word)
    requires table.Valid() && |initRem| == |finalXor| == |table.poly| >= 8
    modifies table, table.entries
    ensures c == Resize(Checksum(table.poly[..table.width], initRem[..table.width],
                                 finalXor[..table.width], table.reflect, reflectRem, buffer),
                        |table.poly|)
  {
    var computer := new CrcOptimal(table, initRem, finalXor, reflectRem);
    computer.ProcessBlock(buffer);
    c := computer.GetChecksum();
  }

  // ----- augmented messages

  method AugmentedCrc(table: CrcTable, buffer: seq<Byte>, initialRemainder: Word)
    returns (c: Word)
    requires table.Valid() && !table.reflect && table.width >= 8
    requires |initialRemainder| == |table.poly|
    modifies table, table.entries
    ensures c == Resize(AugFeed(table.poly[..table.width], initialRemainder[..table.width],
                                MessageBits(false, buffer)), |table.poly|)
  {
    var width := table.width;
    var rem := initialRemainder;
    table.InitTable();
    var i := 0;
    while i < |buffer|
      invariant 0 <= i <= |buffer| && |rem| == |table.poly|
      invariant table.Valid() && table.didInit
      invariant rem[..width] == AugFeed(table.poly[..width], initialRemainder[..width],
                                        MessageBits(false, buffer[..i]))
    {
      AugNextByte(table.poly[..width], initialRemainder[..width], buffer, i);
      rem := AugmentByte(table, rem, buffer[i]);
      i := i + 1;
    }
    assert buffer[..i] == buffer;
    c := Masked(rem, width);
  }

  method AugmentByte(table: CrcTable, rem: Word, x: Byte) returns (r: Word)
    requires table.Valid() && table.didInit && !table.reflect && table.width >= 8
    requires |rem| == |table.poly|
    ensures |r| == |rem|
    ensures r[..table.width]
         == AugFeed(table.poly[..table.width], rem[..table.width], InputBits(false, x))
  {
    var byteIndex: Byte := Shr(rem, table.width - 8)[..8];
    var entry := table.Lookup(byteIndex);
    AugTableStep(table.poly, table.width, rem, x, entry);
    r := Shl(rem, 8);
    r := OrByte(r, x);
    r := Xor(r, entry);
  }

  lemma AugNextByte(poly: Word, r: Word, bytes: seq<Byte>, i: nat)
    requires |poly| == |r| > 0 && i < |bytes|
    ensures AugFeed(poly, r, MessageBits(false, bytes[..i + 1]))
         == AugFeed(poly, AugFeed(poly, r, MessageBits(false, bytes[..i])),
                    InputBits(false, bytes[i]))
  {
    assert bytes[..i + 1][..i] == bytes[..i];
    AugFeedAppend(poly, r, MessageBits(false, bytes[..i]), InputBits(false, bytes[i]));
  }

  /** `rem | byte` */
  function OrByte(rem: Word, x: Byte): (r: Word)
    requires |rem| >= 8
    ensures |r| == |rem|
  {
    seq(|rem|, i requires 0 <= i < |rem| => rem[i] || (i < 8 && x[i]))
  }

  lemma AugTableStep(poly: Word, width: nat, rem: Word, x: Byte, e: Word)
    requires |rem| == |poly| && 8 <= width <= |rem|
    requires GoodEntry(e, poly, width, false, Shr(rem, width - 8)[..8])
    ensures Xor(OrByte(Shl(rem, 8), x), e)[..width]
         == AugFeed(poly[..width], rem[..width], InputBits(false, x))
  {
    AugFeedByTable(poly[..width], rem[..width], InputBits(false, x));
    assert InputBits(false, Shr(rem, width - 8)[..8]) == Top(rem[..width], 8);
    assert OrByte(Shl(rem, 8), x)[..width] == ShiftIn(rem[..width], InputBits(false, x));
    LowXor(OrByte(Shl(rem, 8), x), e, width);
  }

  function ZeroBytes(n: nat): (bytes: seq<Byte>)
    ensures |bytes| == n
  {
    seq(n, i => Zero(8))
  }

  lemma {:induction false} ZeroBytesAreZeroBits(n: nat)
    ensures MessageBits(false, ZeroBytes(n)) == Zero(8 * n)
  {
    if n > 0 {
      ZeroBytesAreZeroBits(n - 1);
      assert ZeroBytes(n)[..n - 1] == ZeroBytes(n - 1);
      assert Zero(8 * n) == Zero(8 * (n - 1)) + Reverse(Zero(8));
    }
  }

  /** Augmenting a message with width/8 zero bytes turns augmented_crc into the plain
      unreflected CRC. The starting remainder is augmented too; zero stays zero. */
  lemma AugmentedMessage(poly: Word, r: Word, msg: seq<Byte>)
    requires |poly| == |r| > 0 && |r| % 8 == 0
    ensures AugFeed(poly, r, MessageBits(false, msg + ZeroBytes(|r| / 8)))
         == Feed(poly, Augment(poly, r), MessageBits(false, msg))
    ensures r == Zero(|r|) ==> Augment(poly, r) == r
  {
    var bits, zeros := MessageBits(false, msg), ZeroBytes(|r| / 8);
    MessageAppend(false, msg, zeros);
    ZeroBytesAreZeroBits(|r| / 8);
    AugFeedAppend(poly, r, bits, Zero(|r|));
    ZeroBitsAgree(poly, AugFeed(poly, r, bits), |r|);
    AugmentedIsPlain(poly, r, bits);
    AugmentOfZero(poly);
  }

  /** A message followed by width/8 check bytes divides to zero exactly when those bytes
      are the message's own CRC, high byte first. */
  lemma CheckBytesDetect(poly: Word, msg: seq<Byte>, check: seq<Byte>)
    requires |poly| > 0 && |poly| == 8 * |check|
    ensures AugFeed(poly, Zero(|poly|), MessageBits(false, msg + check)) == Zero(|poly|)
        <==> MessageBits(false, check)
             == TopFirst(Feed(poly, Zero(|poly|), MessageBits(false, msg)))
  {
    var field := MessageBits(false, check);
    var c := AtTop(field, |poly|);
    MessageAppend(false, msg, check);
    assert TopFirst(c) == field;
    CheckFieldDetects(poly, MessageBits(false, msg), c);
    AtTopOfTopFirst(Feed(poly, Zero(|poly|), MessageBits(false, msg)));
  }

  // ----- error detection of whole checksums

  lemma BurstChangesChecksum(poly: Word, init: Word, finalXor: Word, reflectIn: bool,
                             reflectRem: bool, a: seq<Byte>, b: seq<Byte>, from: nat, to: nat)
    requires |poly| == |init| == |finalXor| > 0 && poly[0]
    requires |a| == |b|
    requires from <= to <= 8 * |a| && to - from <= |poly|
    requires MessageBits(reflectIn, a) != MessageBits(reflectIn, b)
    requires MessageBits(reflectIn, a)[..from] == MessageBits(reflectIn, b)[..from]
    requires MessageBits(reflectIn, a)[to..] == MessageBits(reflectIn, b)[to..]
    ensures Checksum(poly, init, finalXor, reflectIn, reflectRem, a)
         != Checksum(poly, init, finalXor, reflectIn, reflectRem, b)
  {
    var x, y := MessageBits(reflectIn, a), MessageBits(reflectIn, b);
    BurstDetected(poly, init, x, y, from, to);
    var u, v := Feed(poly, init, x), Feed(poly, init, y);
    ReverseTwice(u);
    ReverseTwice(v);
    XorCancels(ReverseIf(reflectRem, u), ReverseIf(reflectRem, v), finalXor);
  }

  lemma XorCancels(a: Word, b: Word, c: Word)
    requires |a| == |b| == |c|
    ensures Xor(a, c) == Xor(b, c) ==> a == b
  {
    if Xor(a, c) == Xor(b, c) {
      forall i | 0 <= i < |a|
        ensures a[i] == b[i]
      {
        assert Xor(a, c)[i] == Xor(b, c)[i];
      }
    }
  }

  const CRC_16_POLY := FromNat(0x8005, 16)
  const CRC_CCITT_POLY := FromNat(0x1021, 16)
  const CRC_XMODEM_POLY := FromNat(0x8408, 16)
  const CRC_32_POLY := FromNat(0x04C11DB7, 32)

  /** Of the predefined computers, the one named crc_xmodem_type has a polynomial with
      no constant term. */
  lemma PresetConstantTerms()
    ensures CRC_16_POLY[0] && CRC_CCITT_POLY[0] && CRC_32_POLY[0]
    ensures !CRC_XMODEM_POLY[0]
  {
    hide FromNat;
    LowestBit(0x8005, 16);
    LowestBit(0x1021, 16);
    LowestBit(0x8408, 16);
    LowestBit(0x04C11DB7, 32);
  }

  lemma LowestBit(n: nat, k: nat)
    requires k > 0
    ensures FromNat(n, k)[0] == (n % 2 == 1)
  {}

  /** So with that one there are 16 input bits, the first of them set, that no starting
      remainder can tell from 16 zero bits: a burst as long as the CRC goes unnoticed. */
  lemma XmodemBlindSpot() returns (e: seq<bool>)
    ensures |e| == 16 && e[0]
    ensures forall r: Word :: |r| == 16 ==>
              Feed(CRC_XMODEM_POLY, r, e) == Feed(CRC_XMODEM_POLY, r, Zero(16))
  {
    e := BurstMissed(CRC_XMODEM_POLY);
    forall r: Word | |r| == 16
      ensures Feed(CRC_XMODEM_POLY, r, e) == Feed(CRC_XMODEM_POLY, r, Zero(16))
    {
      var z := Zero(16);
      FeedLinear(CRC_XMODEM_POLY, r, z, z, e);
      XorZero(r);
      XorZero(e);
      XorZero(Feed(CRC_XMODEM_POLY, r, z));
    }
  }
}
