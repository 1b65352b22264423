/** Values to hexadecimal digits and back. A value type of s bytes takes 2*s digits. */
module Hex {

  datatype Error = NonHexInput(bad: char) | NotEnoughInput

  datatype Result<+T> = Ok(value: T) | Err(error: Error)

  function Pow16(d: nat): (p: nat)
    ensures p > 0
  {
    if d == 0 then 1 else 16 * Pow16(d - 1)
  }

  function DigitChar(v: nat): char
    requires v < 16
  {
    "0123456789ABCDEF"[v]
  }

  predicate IsHexChar(c: char) {
    '0' <= c <= '9' || 'A' <= c <= 'F' || 'a' <= c <= 'f'
  }

  function HexCharToInt(c: char): (r: Result<nat>)
    ensures r.Ok? ==> r.value < 16
    ensures r.Ok? <==> IsHexChar(c)
  {
    if '0' <= c <= '9' then Ok(c as int - '0' as int)
    else if 'A' <= c <= 'F' then Ok(c as int - 'A' as int + 10)
    else if 'a' <= c <= 'f' then Ok(c as int - 'a' as int + 10)
    else Err(NonHexInput(c))
  }

  /** What the digits mean: each character of either alphabet stands for its place in it. */
  lemma DigitValues(v: nat)
    requires v < 16
    ensures DigitChar(v) == "0123456789ABCDEF"[v]
    ensures HexCharToInt("0123456789ABCDEF"[v]) == Ok(v) == HexCharToInt("0123456789abcdef"[v])
    ensures Upper("0123456789abcdef"[v]) == "0123456789ABCDEF"[v] == Upper("0123456789ABCDEF"[v])
  {}

  function Upper(c: char): char {
    if 'a' <= c <= 'f' then (c as int - 'a' as int + 'A' as int) as char else c
  }

  function UpperAll(t: string): (u: string)
    ensures |u| == |t|
  {
    seq(|t|, i requires 0 <= i < |t| => Upper(t[i]))
  }

  // ----- one value

  /** The d digits of v, most significant first. */
  function Digits(v: nat, d: nat): (t: string)
    ensures |t| == d
  {
    if d == 0 then "" else Digits(v / 16, d - 1) + [DigitChar(v % 16)]
  }

  /** The value of a digit string, or its first character that is no digit. */
  function ValueOf(t: string): Result<nat> {
    if t == "" then Ok(0)
    else match ValueOf(t[..|t| - 1])
      case Err(e) => Err(e)
      case Ok(v) =>
        match HexCharToInt(t[|t| - 1])
        case Err(e) => Err(e)
        case Ok(x) => Ok(16 * v + x)
  }

  /** Fills its buffer from the end, four bits at a time. */
  method EncodeOne(v: nat, d: nat) returns (t: string)
    ensures t == Digits(v, d)
  {
    var res := new char[d];
    var p, val := d, v;
    while p > 0
      invariant 0 <= p <= d
      invariant Digits(v, d) == Digits(val, p) + res[p..]
    {
      p := p - 1;
      res[p] := DigitChar(val % 16);
      assert [res[p]] + res[p + 1..] == res[p..];
      val := val / 16;
    }
    t := res[..];
    assert res[0..] == res[..];
  }

  lemma {:induction false} ValueOfDigits(v: nat, d: nat)
    requires v < Pow16(d)
    ensures ValueOf(Digits(v, d)) == Ok(v)
  {
    if d > 0 {
      ValueOfDigits(v / 16, d - 1);
      assert Digits(v, d)[..d - 1] == Digits(v / 16, d - 1);
    }
  }

  /** Writing back the value of a digit string gives it in upper case. */
  lemma {:induction false} DigitsOfValue(t: string)
    requires forall i :: 0 <= i < |t| ==> IsHexChar(t[i])
    ensures ValueOf(t).Ok? && ValueOf(t).value < Pow16(|t|)
    ensures Digits(ValueOf(t).value, |t|) == UpperAll(t)
    decreases |t|
  {
    if t != "" {
      DigitsOfValue(t[..|t| - 1]);
      var v, x := ValueOf(t[..|t| - 1]).value, HexCharToInt(t[|t| - 1]).value;
      assert (16 * v + x) / 16 == v && (16 * v + x) % 16 == x;
      assert DigitChar(x) == Upper(t[|t| - 1]);
      assert UpperAll(t) == UpperAll(t[..|t| - 1]) + [Upper(t[|t| - 1])];
    }
  }

  /** Digits count by place: those in front are worth 16 times more for each one behind. */
  lemma {:induction false} PlaceValue(head: string, tail: string)
    requires AllHex(head) && AllHex(tail)
    ensures ValueOf(head).Ok? && ValueOf(tail).Ok?
    ensures ValueOf(head + tail) == Ok(ValueOf(head).value * Pow16(|tail|) + ValueOf(tail).value)
    decreases |tail|
  {
    hide AllHex, HexCharToInt, ValueOf;
    ValueOfExact(head);
    ValueOfExact(tail);
    if tail == "" {
      assert head + tail == head;
      assert ValueOf(tail) == Ok(0) by { ValueOfNothing(); }
    } else {
      var n := |tail| - 1;
      assert tail == tail[..n] + [tail[n]];
      AllHexAppend(tail[..n], [tail[n]]);
      PlaceValue(head, tail[..n]);
      ValueOfLast(head + tail[..n], tail[n]);
      ValueOfLast(tail[..n], tail[n]);
      assert head + tail == (head + tail[..n]) + [tail[n]];
      TimesSixteen(ValueOf(head).value, Pow16(n));
    }
  }

  lemma ValueOfNothing()
    ensures ValueOf("") == Ok(0)
  {}

  lemma ValueOfLast(front: string, c: char)
    requires ValueOf(front).Ok?
    ensures var x := HexCharToInt(c);
            ValueOf(front + [c]) == if x.Ok? then Ok(16 * ValueOf(front).value + x.value) else x
  {
    assert (front + [c])[..|front|] == front;
  }

  lemma TimesSixteen(v: nat, p: nat)
    ensures 16 * (v * p) == v * (16 * p)
  {}

  // ----- whole sequences

  function HexAll(values: seq<nat>, d: nat): string {
    if values == [] then "" else HexAll(values[..|values| - 1], d) + Digits(values[|values| - 1], d)
  }

  method Hex(values: seq<nat>, d: nat) returns (t: string)
    ensures t == HexAll(values, d)
  {
    t := "";
    var i := 0;
    while i < |values|
      invariant 0 <= i <= |values| && t == HexAll(values[..i], d)
    {
      var digits := EncodeOne(values[i], d);
      assert values[..i + 1][..i] == values[..i];
      t := t + digits;
      i := i + 1;
    }
    assert values[..i] == values;
  }

  /** unhex on the unread part of the text, a value at a time. */
  function UnhexFrom(t: string, d: nat): Result<seq<nat>>
    requires d > 0
    decreases |t|
  {
    if t == "" then Ok([])
    else
      var n := if |t| < d then |t| else d;
      match ValueOf(t[..n])
      case Err(e) => Err(e)
      case Ok(v) =>
        if |t| < d then Err(NotEnoughInput)
        else Prepend([v], UnhexFrom(t[d..], d))
  }

  function Prepend(front: seq<nat>, r: Result<seq<nat>>): Result<seq<nat>> {
    match r
    case Err(e) => Err(e)
    case Ok(rest) => Ok(front + rest)
  }

  lemma PrependTwice(a: seq<nat>, b: seq<nat>, r: Result<seq<nat>>)
    ensures Prepend(a, Prepend(b, r)) == Prepend(a + b, r)
    ensures Prepend([], r) == r && Prepend(a, Ok([])) == Ok(a)
  {
    if r.Ok? {
      assert a + (b + r.value) == (a + b) + r.value;
      assert [] + r.value == r.value;
    }
    assert a + [] == a;
  }

  /** One whole value in front of a text. */
  lemma UnhexOne(head: string, tail: string, d: nat)
    requires d > 0 && |head| == d && ValueOf(head).Ok?
    ensures UnhexFrom(head + tail, d) == Prepend([ValueOf(head).value], UnhexFrom(tail, d))
  {
    assert (head + tail)[..d] == head && (head + tail)[d..] == tail;
  }

  /** decode_one, from position `first`: the value, and where it left off. */
  method DecodeOne(t: string, first: nat, d: nat) returns (r: Result<nat>, next: nat)
    requires first <= |t|
    ensures r == if first + d <= |t| then ValueOf(t[first..first + d])
                 else if ValueOf(t[first..]).Err? then ValueOf(t[first..]) else Err(NotEnoughInput)
    ensures r.Ok? ==> next == first + d
  {
    assert t[first..first] == "" && ValueOf("") == Ok(0);
    hide ValueOf, HexCharToInt;
    var res := 0;
    next := first;
    var i := 0;
    while i < d
      invariant 0 <= i <= d && next == first + i <= |t|
      invariant ValueOf(t[first..next]) == Ok(res)
    {
      if next == |t| {
        assert t[first..next] == t[first..];
        return Err(NotEnoughInput), next;
      }
      var x := HexCharToInt(t[next]);
      ValueOfNext(t, first, next);
      if x.Err? {
        BadFrom(t, first, next, d, x.error);
        return Err(x.error), next;
      }
      res := 16 * res + x.value;
      next := next + 1;
      i := i + 1;
    }
    return Ok(res), next;
  }

  lemma ValueOfNext(t: string, first: nat, next: nat)
    requires first <= next < |t| && ValueOf(t[first..next]).Ok?
    ensures ValueOf(t[first..next + 1]) ==
            match HexCharToInt(t[next])
            case Err(e) => Err(e)
            case Ok(x) => Ok(16 * ValueOf(t[first..next]).value + x)
  {
    assert t[first..next + 1][..next - first] == t[first..next];
  }

  lemma BadFrom(t: string, first: nat, next: nat, d: nat, e: Error)
    requires first <= next < |t| && next < first + d
    requires ValueOf(t[first..next + 1]) == Err(e)
    ensures ValueOf(t[first..]) == Err(e)
    ensures first + d <= |t| ==> ValueOf(t[first..first + d]) == Err(e)
  {
    var rest, i := t[first..], next - first;
    assert rest[..i + 1] == t[first..next + 1];
    BadPrefix(rest, i, e);
    if first + d <= |t| {
      assert rest[..d] == t[first..first + d];
    }
  }

  /** A bad character decides the outcome whatever follows it. */
  lemma {:induction false} BadPrefix(t: string, i: nat, e: Error)
    requires i < |t| && ValueOf(t[..i + 1]) == Err(e)
    ensures ValueOf(t) == Err(e)
    ensures forall n :: i < n <= |t| ==> ValueOf(t[..n]) == Err(e)
    decreases |t|
  {
    if i + 1 == |t| {
      assert t[..i + 1] == t;
    } else {
      var s := t[..|t| - 1];
      assert s[..i + 1] == t[..i + 1];
      BadPrefix(s, i, e);
      forall n | i < n <= |t|
        ensures ValueOf(t[..n]) == Err(e)
      {
        if n < |t| {
          assert t[..n] == s[..n];
        } else {
          assert t[..n] == t;
        }
      }
    }
  }

  method Unhex(t: string, d: nat) returns (r: Result<seq<nat>>)
    requires d > 0
    ensures r == UnhexFrom(t, d)
  {
    hide ValueOf;
    var values: seq<nat> := [];
    var first := 0;
    assert t[0..] == t;
    PrependTwice([], [], UnhexFrom(t, d));
    while first != |t|
      invariant first <= |t|
      invariant UnhexFrom(t, d) == Prepend(values, UnhexFrom(t[first..], d))
      decreases |t| - first
    {
      var v, next := DecodeOne(t, first, d);
      DecodedOne(t, first, d);
      if v.Err? {
        return Err(v.error);
      }
      PrependTwice(values, [v.value], UnhexFrom(t[next..], d));
      values := values + [v.value];
      first := next;
    }
    PrependTwice(values, [], Ok([]));
    return Ok(values);
  }

  /** What one decode_one means for the text from there on. */
  lemma DecodedOne(t: string, first: nat, d: nat)
    requires d > 0 && first < |t|
    ensures first + d <= |t| && ValueOf(t[first..first + d]).Ok? ==>
              UnhexFrom(t[first..], d)
              == Prepend([ValueOf(t[first..first + d]).value], UnhexFrom(t[first + d..], d))
    ensures first + d <= |t| && ValueOf(t[first..first + d]).Err? ==>
              UnhexFrom(t[first..], d) == Err(ValueOf(t[first..first + d]).error)
    ensures first + d > |t| ==>
              UnhexFrom(t[first..], d)
              == if ValueOf(t[first..]).Err? then Err(ValueOf(t[first..]).error) else Err(NotEnoughInput)
  {
    var rest := t[first..];
    if first + d <= |t| {
      assert rest[..d] == t[first..first + d] && rest[d..] == t[first + d..];
    } else {
      assert rest[..|rest|] == rest;
    }
  }

  /** Decoding undoes encoding, for every value that fits its type. */
  lemma {:induction false} UnhexOfHex(values: seq<nat>, d: nat, tail: string)
    requires d > 0 && forall i :: 0 <= i < |values| ==> values[i] < Pow16(d)
    ensures UnhexFrom(HexAll(values, d) + tail, d) == Prepend(values, UnhexFrom(tail, d))
    decreases |values|
  {
    hide UnhexFrom, Digits;
    if values == [] {
      assert HexAll(values, d) + tail == tail;
      PrependTwice([], [], UnhexFrom(tail, d));
    } else {
      var k := |values| - 1;
      var digits := Digits(values[k], d);
      ValueOfDigits(values[k], d);
      UnhexOfHex(values[..k], d, digits + tail);
      UnhexOne(digits, tail, d);
      assert HexAll(values, d) + tail == HexAll(values[..k], d) + (digits + tail);
      PrependTwice(values[..k], [values[k]], UnhexFrom(tail, d));
      assert values[..k] + [values[k]] == values;
    }
  }

  lemma RoundTrip(values: seq<nat>, d: nat)
    requires d > 0 && forall i :: 0 <= i < |values| ==> values[i] < Pow16(d)
    ensures UnhexFrom(HexAll(values, d), d) == Ok(values)
  {
    UnhexOfHex(values, d, "");
    assert HexAll(values, d) + "" == HexAll(values, d) && values + [] == values;
  }

  predicate AllHex(t: string) {
    forall i :: 0 <= i < |t| ==> IsHexChar(t[i])
  }

  /** Which texts are accepted, and that encoding them again gives them in upper case: all
      characters must be digits and come in whole values. A text of digits that ends
      inside a value is short of input; otherwise the first bad character is reported. */
  lemma {:induction false} UnhexExact(t: string, d: nat)
    requires d > 0
    ensures UnhexFrom(t, d).Ok? <==> AllHex(t) && |t| % d == 0
    ensures UnhexFrom(t, d) == Err(NotEnoughInput) <==> AllHex(t) && |t| % d != 0
    ensures UnhexFrom(t, d).Ok? ==> HexAll(UnhexFrom(t, d).value, d) == UpperAll(t)
    decreases |t|
  {
    if t != "" {
      if |t| >= d {
        UnhexExact(t[d..], d);
        LengthStep(|t|, d);
        UnhexExactStep(t[..d], t[d..], d);
        assert t == t[..d] + t[d..];
      } else {
        SmallRemainder(|t|, d);
        ValueOfExact(t);
        assert t[..|t|] == t;
      }
    }
  }

  /** Of several bad characters the first one is reported. */
  lemma {:induction false} UnhexFirstBad(t: string, d: nat, i: nat)
    requires d > 0 && i < |t| && AllHex(t[..i]) && !IsHexChar(t[i])
    ensures UnhexFrom(t, d) == Err(NonHexInput(t[i]))
    decreases |t|
  {
    if i < d {
      ValueOfExact(t[..i]);
      assert t[..i + 1][..i] == t[..i];
      BadPrefix(t, i, NonHexInput(t[i]));
    } else {
      var head, tail := t[..d], t[d..];
      assert t[..i] == head + t[d..i] && tail[..i - d] == t[d..i] && t == head + tail;
      AllHexAppend(head, t[d..i]);
      UnhexFirstBad(tail, d, i - d);
      ValueOfExact(head);
      UnhexOne(head, tail, d);
    }
  }

  lemma UnhexExactStep(head: string, tail: string, d: nat)
    requires d > 0 && |head| == d
    requires UnhexFrom(tail, d).Ok? ==> HexAll(UnhexFrom(tail, d).value, d) == UpperAll(tail)
    ensures AllHex(head + tail) <==> AllHex(head) && AllHex(tail)
    ensures !AllHex(head) ==>
              UnhexFrom(head + tail, d).Err? && UnhexFrom(head + tail, d).error.NonHexInput?
    ensures AllHex(head) ==>
              (UnhexFrom(head + tail, d).Ok? <==> UnhexFrom(tail, d).Ok?) &&
              (UnhexFrom(tail, d).Err? ==> UnhexFrom(head + tail, d) == UnhexFrom(tail, d))
    ensures UnhexFrom(head + tail, d).Ok? ==>
              HexAll(UnhexFrom(head + tail, d).value, d) == UpperAll(head + tail)
  {
    hide UnhexFrom, ValueOf, Digits, HexAll, AllHex;
    var t := head + tail;
    AllHexAppend(head, tail);
    ValueOfExact(head);
    if AllHex(head) {
      UnhexOne(head, tail, d);
      if UnhexFrom(tail, d).Ok? {
        DigitsOfHex(head);
        HexAllCons(ValueOf(head).value, UnhexFrom(tail, d).value, d);
        assert UpperAll(t) == UpperAll(head) + UpperAll(tail);
      }
    } else {
      UnhexBad(head, tail, d);
    }
  }

  lemma DigitsOfHex(t: string)
    requires AllHex(t)
    ensures ValueOf(t).Ok? && Digits(ValueOf(t).value, |t|) == UpperAll(t)
  {
    DigitsOfValue(t);
  }

  lemma UnhexBad(head: string, tail: string, d: nat)
    requires d > 0 && |head| == d && ValueOf(head).Err?
    ensures UnhexFrom(head + tail, d) == Err(ValueOf(head).error)
  {
    assert (head + tail)[..d] == head;
  }

  lemma AllHexAppend(head: string, tail: string)
    ensures AllHex(head + tail) <==> AllHex(head) && AllHex(tail)
  {
    forall i | 0 <= i < |head|
      ensures head[i] == (head + tail)[i]
    {
    }
    forall i | 0 <= i < |tail|
      ensures tail[i] == (head + tail)[|head| + i]
    {
    }
  }

  lemma {:induction false} ValueOfExact(t: string)
    ensures ValueOf(t).Ok? <==> AllHex(t)
    ensures ValueOf(t).Err? ==> ValueOf(t).error.NonHexInput?
    decreases |t|
  {
    if t != "" {
      ValueOfExact(t[..|t| - 1]);
      assert t == t[..|t| - 1] + [t[|t| - 1]];
    }
  }

  lemma {:induction false} HexAllCons(v: nat, rest: seq<nat>, d: nat)
    ensures HexAll([v] + rest, d) == Digits(v, d) + HexAll(rest, d)
    decreases |rest|
  {
    hide Digits;
    if rest == [] {
      assert [v] + rest == [v];
      assert [v][..0] == [];
      assert "" + Digits(v, d) == Digits(v, d) + "";
    } else {
      var k := |rest| - 1;
      HexAllCons(v, rest[..k], d);
      assert ([v] + rest)[..k + 1] == [v] + rest[..k];
    }
  }

  lemma LengthStep(n: nat, d: nat)
    requires 0 < d <= n
    ensures n % d == (n - d) % d
  {
    var q, r := (n - d) / d, (n - d) % d;
    var p, s := n / d, n % d;
    assert (p - q - 1) * d == r - s;
    SmallMultiple(p - q - 1, d);
  }

  lemma SmallMultiple(m: int, d: int)
    ensures -d < m * d < d ==> m == 0
  {}

  lemma SmallRemainder(n: nat, d: nat)
    requires 0 < n < d
    ensures n % d == n
  {}
}
