/** Frames of player actions, and their packed form on the wire: a big-endian id, one byte
    for the action count, then five bytes for each action. */
module Frames {

  const MAX_ACTIONS_IN_FRAME := 40
  const FRAME_HEAD := 3
  const ACTION_BYTES := 5

  type u8 = x: int | 0 <= x < 256
  type u16 = x: int | 0 <= x < 0x1_0000

  datatype Option<+T> = None | Some(value: T)

  datatype Action = Action(vkey: int, arg: int, roleIdx: int, clientFrameId: int)

  // ----- the wire format

  datatype SendAction = SendAction(vkey: u16, arg: u16, roleIdx: u8)

  datatype SendFrame = SendFrame(frameId: u16, actions: seq<SendAction>)

  function EncodeU16(x: u16): seq<u8> {
    [x / 256, x % 256]
  }

  function EncodeAction(a: SendAction): (b: seq<u8>)
    ensures |b| == ACTION_BYTES
  {
    EncodeU16(a.vkey) + EncodeU16(a.arg) + [a.roleIdx]
  }

  function EncodeActions(s: seq<SendAction>): (b: seq<u8>)
    ensures |b| == ACTION_BYTES * |s|
  {
    if s == [] then [] else EncodeActions(s[..|s| - 1]) + EncodeAction(s[|s| - 1])
  }

  function EncodeHead(frameId: u16, n: u8): (b: seq<u8>)
    ensures |b| == FRAME_HEAD
  {
    EncodeU16(frameId) + [n]
  }

  function EncodeFrame(f: SendFrame): (b: seq<u8>)
    requires |f.actions| < 256
    ensures |b| == FRAME_HEAD + ACTION_BYTES * |f.actions|
  {
    EncodeHead(f.frameId, |f.actions|) + EncodeActions(f.actions)
  }

  /** Frames back to back, as they lie in a buffer. */
  function EncodeAll(fs: seq<SendFrame>): seq<u8>
    requires forall i :: 0 <= i < |fs| ==> |fs[i].actions| < 256
  {
    if fs == [] then [] else EncodeFrame(fs[0]) + EncodeAll(fs[1..])
  }

  function DecodeU16(hi: u8, lo: u8): u16 {
    hi * 256 + lo
  }

  function DecodeAction(b: seq<u8>): SendAction
    requires |b| == ACTION_BYTES
  {
    SendAction(DecodeU16(b[0], b[1]), DecodeU16(b[2], b[3]), b[4])
  }

  function DecodeActions(b: seq<u8>, n: nat): (s: seq<SendAction>)
    requires |b| == ACTION_BYTES * n
    ensures |s| == n
  {
    if n == 0 then []
    else DecodeActions(b[..ACTION_BYTES * (n - 1)], n - 1) + [DecodeAction(b[ACTION_BYTES * (n - 1)..])]
  }

  /** The length of the first frame in a buffer, if a whole frame is there. */
  function FrameLength(b: seq<u8>): (n: Option<nat>)
    ensures n.Some? ==> FRAME_HEAD <= n.value <= |b|
  {
    if |b| >= FRAME_HEAD && |b| >= FRAME_HEAD + ACTION_BYTES * b[2]
    then Some(FRAME_HEAD + ACTION_BYTES * b[2]) else None
  }

  function FirstFrame(b: seq<u8>): (f: SendFrame)
    requires FrameLength(b).Some?
    ensures |f.actions| < 256
  {
    SendFrame(DecodeU16(b[0], b[1]), DecodeActions(b[FRAME_HEAD..FrameLength(b).value], b[2]))
  }

  /** A receiver: reads the buffer frame by frame and must use it up. */
  function DecodeAll(b: seq<u8>): (r: Option<seq<SendFrame>>)
    ensures r.Some? ==> forall i :: 0 <= i < |r.value| ==> |r.value[i].actions| < 256
  {
    if b == [] then Some([])
    else match FrameLength(b)
      case None => None
      case Some(n) =>
        match DecodeAll(b[n..])
        case None => None
        case Some(fs) => Some([FirstFrame(b)] + fs)
  }

  lemma DecodeEncodeAction(a: SendAction)
    ensures DecodeAction(EncodeAction(a)) == a
  {}

  lemma EncodeDecodeAction(b: seq<u8>)
    requires |b| == ACTION_BYTES
    ensures EncodeAction(DecodeAction(b)) == b
  {}

  lemma {:induction false} DecodeEncodeActions(s: seq<SendAction>)
    ensures DecodeActions(EncodeActions(s), |s|) == s
  {
    if s != [] {
      var n := |s| - 1;
      var b := EncodeActions(s);
      DecodeEncodeActions(s[..n]);
      DecodeEncodeAction(s[n]);
      assert b[..ACTION_BYTES * n] == EncodeActions(s[..n]);
      assert b[ACTION_BYTES * n..] == EncodeAction(s[n]);
    }
  }

  lemma {:induction false} EncodeDecodeActions(b: seq<u8>, n: nat)
    requires |b| == ACTION_BYTES * n
    ensures EncodeActions(DecodeActions(b, n)) == b
  {
    if n > 0 {
      var k := ACTION_BYTES * (n - 1);
      EncodeDecodeActions(b[..k], n - 1);
      EncodeDecodeAction(b[k..]);
      var s := DecodeActions(b, n);
      assert s[..n - 1] == DecodeActions(b[..k], n - 1);
      assert b == b[..k] + b[k..];
    }
  }

  /** A buffer holds a list of frames in one way only: it decodes to them exactly when it
      is their encoding. */
  lemma {:induction false} DecodeExact(b: seq<u8>, fs: seq<SendFrame>)
    requires forall i :: 0 <= i < |fs| ==> |fs[i].actions| < 256
    ensures DecodeAll(b) == Some(fs) <==> b == EncodeAll(fs)
    decreases |fs|
  {
    if b == EncodeAll(fs) {
      DecodeOfEncoded(fs);
    }
    if DecodeAll(b) == Some(fs) {
      EncodeOfDecoded(b);
    }
  }

  lemma {:induction false} DecodeOfEncoded(fs: seq<SendFrame>)
    requires forall i :: 0 <= i < |fs| ==> |fs[i].actions| < 256
    ensures DecodeAll(EncodeAll(fs)) == Some(fs)
    decreases |fs|
  {
    hide EncodeFrame, FrameLength, FirstFrame;
    if fs != [] {
      DecodeOfEncoded(fs[1..]);
      FirstOfEncoded(fs[0], EncodeAll(fs[1..]));
      assert fs == [fs[0]] + fs[1..];
    }
  }

  lemma FirstOfEncoded(f: SendFrame, rest: seq<u8>)
    requires |f.actions| < 256
    ensures var b := EncodeFrame(f) + rest;
            FrameLength(b) == Some(|EncodeFrame(f)|) && FirstFrame(b) == f && b[|EncodeFrame(f)|..] == rest
  {
    var b := EncodeFrame(f) + rest;
    DecodeEncodeActions(f.actions);
    assert b[FRAME_HEAD..|EncodeFrame(f)|] == EncodeActions(f.actions);
  }

  lemma {:induction false} EncodeOfDecoded(b: seq<u8>)
    requires DecodeAll(b).Some?
    ensures EncodeAll(DecodeAll(b).value) == b
    decreases |b|
  {
    hide EncodeFrame, FrameLength, FirstFrame;
    if b != [] {
      var n := FrameLength(b).value;
      EncodeOfDecoded(b[n..]);
      EncodeOfFirst(b);
      assert DecodeAll(b).value[1..] == DecodeAll(b[n..]).value;
      assert b == b[..n] + b[n..];
    }
  }

  lemma EncodeOfFirst(b: seq<u8>)
    requires FrameLength(b).Some?
    ensures EncodeFrame(FirstFrame(b)) == b[..FrameLength(b).value]
  {
    var n := FrameLength(b).value;
    EncodeDecodeActions(b[FRAME_HEAD..n], b[2]);
    assert EncodeHead(DecodeU16(b[0], b[1]), b[2]) == b[..FRAME_HEAD];
    assert b[..n] == b[..FRAME_HEAD] + b[FRAME_HEAD..n];
  }

  // ----- the frame being filled

  /** What is left of an action on the wire: the low 16 and 8 bits of its ints. */
  function ToSend(a: Action): SendAction {
    SendAction(a.vkey % 0x1_0000, a.arg % 0x1_0000, a.roleIdx % 256)
  }

  function ToSendAll(s: seq<Action>): (r: seq<SendAction>)
    ensures |r| == |s|
  {
    seq(|s|, i requires 0 <= i < |s| => ToSend(s[i]))
  }

  /** Two bytes that hold the low 16 bits of x, the high byte first. */
  predicate HighLow(hi: int, lo: int, x: int) {
    hi * 256 + lo == x % 65536
  }

  predicate ActionAt(b: seq<u8>, p: nat, a: Action)
    requires p + 5 <= |b|
  {
    HighLow(b[p], b[p + 1], a.vkey) && HighLow(b[p + 2], b[p + 3], a.arg) && b[p + 4] == a.roleIdx % 256
  }

  /** The packed frame, byte by byte: a head of three bytes, then five for each action. */
  predicate LaidOut(b: seq<u8>, start: nat, frameId: int, actions: seq<Action>)
    requires start + 3 + 5 * |actions| <= |b|
  {
    HighLow(b[start], b[start + 1], frameId) && b[start + 2] == |actions| &&
    forall i :: 0 <= i < |actions| ==> ActionAt(b, start + 3 + 5 * i, actions[i])
  }

  class Frame {
    var frameId: int
    var actionCount: nat
    var needSend: bool
    const actionList: array<Action>

    ghost predicate Valid()
      reads this
    {
      actionList.Length == MAX_ACTIONS_IN_FRAME && actionCount <= MAX_ACTIONS_IN_FRAME
    }

    ghost function Actions(): (s: seq<Action>)
      requires Valid()
      reads this, actionList
    {
      actionList[..actionCount]
    }

    ghost function Wire(): (f: SendFrame)
      requires Valid()
      reads this, actionList
      ensures |f.actions| == actionCount
    {
      SendFrame(frameId % 0x1_0000, ToSendAll(Actions()))
    }

    /** What a receiver should find: every field of the frame and of its actions, cut to
        the width it has on the wire. */
    ghost predicate SentAs(f: SendFrame)
      requires Valid()
      reads this, actionList
    {
      f.frameId == frameId % 0x1_0000 && |f.actions| == actionCount &&
      forall i :: 0 <= i < actionCount ==>
        f.actions[i].vkey == actionList[i].vkey % 0x1_0000 &&
        f.actions[i].arg == actionList[i].arg % 0x1_0000 &&
        f.actions[i].roleIdx == actionList[i].roleIdx % 256
    }

    constructor (id: int)
      ensures Valid() && frameId == id && Actions() == [] && !needSend && fresh(actionList)
    {
      frameId, actionCount, needSend := id, 0, false;
      actionList := new Action[MAX_ACTIONS_IN_FRAME];
    }

    predicate IsFull()
      reads this
    {
      actionCount >= MAX_ACTIONS_IN_FRAME
    }

    /** 0 when stored, -1 when the frame already holds 40 actions. */
    method AddAction(vkey: int, arg: int, roleIdx: int) returns (r: int)
      requires Valid()
      modifies `actionCount, actionList
      ensures Valid()
      ensures r == if |old(Actions())| == MAX_ACTIONS_IN_FRAME then -1 else 0
      ensures Actions() == if r == 0 then old(Actions()) + [Action(vkey, arg, roleIdx, 0)]
                           else old(Actions())
    {
      if actionCount < MAX_ACTIONS_IN_FRAME {
        actionList[actionCount] := Action(vkey, arg, roleIdx, 0);
        actionCount := actionCount + 1;
        return 0;
      }
      return -1;
    }

    method ByteSize() returns (n: nat)
      requires Valid()
      ensures n == |EncodeFrame(Wire())| == 3 + 5 * actionCount
    {
      n := FRAME_HEAD + ACTION_BYTES * actionCount;
    }

    /** Writes the frame at `start` when `len` bytes are enough, and says how many it took;
        everything outside those bytes is left alone. */
    method SerializeToArray(bytes: array<u8>, start: nat, len: nat) returns (ok: bool, used: nat)
      requires Valid() && start + len <= bytes.Length
      modifies bytes
      ensures ok <==> len >= |EncodeFrame(Wire())|
      ensures ok <==> len >= 3 + 5 * actionCount
      ensures !ok ==> used == len && bytes[..] == old(bytes[..])
      ensures ok ==> used == 3 + 5 * actionCount
      ensures ok ==> LaidOut(bytes[..], start, frameId, Actions())
      ensures ok ==> used == |EncodeFrame(Wire())| &&
                     bytes[..] == old(bytes[..start]) + EncodeFrame(Wire()) + old(bytes[start + used..])
    {
      hide EncodeActions, EncodeAction, EncodeHead, ToSend, LaidOut;
      var needLen := ByteSize();
      if len < needLen {
        return false, len;
      }
      ghost var was := bytes[..];
      WriteHead(bytes, start);
      ghost var between := bytes[..];
      WriteActions(bytes, start + FRAME_HEAD);
      TwoParts(was, between, bytes[..], start, EncodeHead(Wire().frameId, actionCount),
               EncodeActions(Wire().actions));
      BytesOfFrame(bytes[..], start, frameId, Actions());
      return true, needLen;
    }

    /** The loop over the actions, each behind the one before it. */
    method WriteActions(bytes: array<u8>, p: nat)
      requires Valid() && p + ACTION_BYTES * actionCount <= bytes.Length
      modifies bytes
      ensures bytes[..] == old(bytes[..p]) + EncodeActions(Wire().actions)
                           + old(bytes[p + ACTION_BYTES * actionCount..])
    {
      hide EncodeActions, EncodeAction, ToSend;
      ghost var wire, was := Wire(), bytes[..];
      NoActions(wire.actions);
      var i := 0;
      while i < actionCount && i < MAX_ACTIONS_IN_FRAME
        invariant 0 <= i <= actionCount && wire == Wire()
        invariant bytes[..] == was[..p] + EncodeActions(wire.actions[..i]) + was[p + ACTION_BYTES * i..]
      {
        NextAction(wire.actions, i);
        ghost var before := bytes[..];
        WriteAction(bytes, p + ACTION_BYTES * i, actionList[i]);
        SpliceMore(was, before, bytes[..], p, EncodeActions(wire.actions[..i]), EncodeAction(wire.actions[i]));
        i := i + 1;
      }
      assert wire.actions[..i] == wire.actions;
    }

    method WriteHead(bytes: array<u8>, p: nat)
      requires Valid() && p + FRAME_HEAD <= bytes.Length
      modifies bytes
      ensures bytes[..] == old(bytes[..p]) + EncodeHead(frameId % 0x1_0000, actionCount)
                           + old(bytes[p + FRAME_HEAD..])
    {
      var id := frameId % 0x1_0000;
      bytes[p], bytes[p + 1] := id / 256, id % 256;
      bytes[p + 2] := actionCount;
    }
  }

  // ----- a buffer of frames

  ghost function Wires(frames: seq<Frame>): (r: seq<SendFrame>)
    requires forall i :: 0 <= i < |frames| ==> frames[i].Valid()
    reads set i | 0 <= i < |frames| :: frames[i], set i | 0 <= i < |frames| :: frames[i].actionList
    ensures |r| == |frames| && forall i :: 0 <= i < |r| ==> |r[i].actions| < 256 && r[i] == frames[i].Wire()
    decreases |frames|
  {
    if frames == [] then [] else [frames[0].Wire()] + Wires(frames[1..])
  }

  /** Serializing frames one behind the other, as long as the buffer lasts, gives a buffer
      that reads back as exactly those frames. */
  method PackFrames(frames: seq<Frame>, bytes: array<u8>) returns (packed: nat, used: nat)
    requires forall i :: 0 <= i < |frames| ==> frames[i].Valid()
    modifies bytes
    ensures packed <= |frames| && used <= bytes.Length
    ensures DecodeAll(bytes[..used]) == Some(Wires(frames)[..packed])
    ensures forall i :: 0 <= i < packed ==> frames[i].SentAs(DecodeAll(bytes[..used]).value[i])
    ensures bytes[used..] == old(bytes[..])[used..]
    ensures packed < |frames| ==> bytes.Length - used < |EncodeFrame(Wires(frames)[packed])|
  {
    hide EncodeFrame, EncodeAll, DecodeAll, ToSendAll, Frame.SentAs, Frame.Wire, Wires;
    ghost var all := Wires(frames);
    packed, used := 0, 0;
    EncodeNone();
    while packed < |frames|
      invariant 0 <= packed <= |frames| && 0 <= used <= bytes.Length
      invariant forall i :: 0 <= i < |frames| ==> frames[i].Valid() && frames[i].Wire() == all[i]
      invariant bytes[..used] == EncodeAll(all[..packed])
      invariant bytes[used..] == old(bytes[..])[used..]
    {
      var ok, n := PackFrame(frames[packed], bytes, used);
      if !ok {
        break;
      }
      EncodeAllNext(all, packed);
      used, packed := used + n, packed + 1;
    }
    DecodeExact(bytes[..used], all[..packed]);
    WiresAre(frames, all);
    AllSentAs(frames, all);
  }

  /** One more frame behind the `used` bytes already there. */
  method PackFrame(frame: Frame, bytes: array<u8>, used: nat) returns (ok: bool, n: nat)
    requires frame.Valid() && used <= bytes.Length
    modifies bytes
    ensures ok <==> bytes.Length - used >= |EncodeFrame(frame.Wire())|
    ensures !ok ==> bytes[..] == old(bytes[..])
    ensures ok ==> n == |EncodeFrame(frame.Wire())| && used + n <= bytes.Length &&
                   bytes[..used + n] == old(bytes[..used]) + EncodeFrame(frame.Wire()) &&
                   bytes[used + n..] == old(bytes[used..])[n..]
  {
    hide EncodeFrame;
    ghost var before := bytes[..];
    ok, n := frame.SerializeToArray(bytes, used, bytes.Length - used);
    if ok {
      PackedOne(before, bytes[..], used, EncodeFrame(frame.Wire()));
    }
  }

  lemma {:induction false} WiresAre(frames: seq<Frame>, all: seq<SendFrame>)
    requires |all| == |frames|
    requires forall i :: 0 <= i < |frames| ==> frames[i].Valid() && frames[i].Wire() == all[i]
    ensures Wires(frames) == all
  {}

  lemma WireIsSent(f: Frame)
    requires f.Valid()
    ensures f.SentAs(f.Wire())
  {}

  lemma AllSentAs(frames: seq<Frame>, all: seq<SendFrame>)
    requires |all| == |frames|
    requires forall i :: 0 <= i < |frames| ==> frames[i].Valid() && frames[i].Wire() == all[i]
    ensures forall i :: 0 <= i < |frames| ==> frames[i].SentAs(all[i])
  {
    forall i | 0 <= i < |frames|
      ensures frames[i].SentAs(all[i])
    {
      WireIsSent(frames[i]);
    }
  }

  lemma EncodeNone()
    ensures EncodeAll([]) == []
  {}

  lemma PackedOne(before: seq<u8>, now: seq<u8>, used: nat, piece: seq<u8>)
    requires used + |piece| <= |before|
    requires now == before[..used] + piece + before[used + |piece|..]
    ensures now[..used + |piece|] == before[..used] + piece
    ensures now[used + |piece|..] == before[used..][|piece|..]
  {}

  lemma EncodeAllNext(fs: seq<SendFrame>, k: nat)
    requires k < |fs| && forall i :: 0 <= i < |fs| ==> |fs[i].actions| < 256
    ensures EncodeAll(fs[..k + 1]) == EncodeAll(fs[..k]) + EncodeFrame(fs[k])
  {
    assert fs[..k + 1] == fs[..k] + [fs[k]];
    EncodeAllAppend(fs[..k], fs[k]);
  }

  lemma {:induction false} EncodeAllAppend(fs: seq<SendFrame>, f: SendFrame)
    requires |f.actions| < 256 && forall i :: 0 <= i < |fs| ==> |fs[i].actions| < 256
    ensures EncodeAll(fs + [f]) == EncodeAll(fs) + EncodeFrame(f)
    decreases |fs|
  {
    if fs == [] {
      assert EncodeFrame(f) + [] == EncodeFrame(f);
    } else {
      EncodeAllAppend(fs[1..], f);
      assert (fs + [f])[1..] == fs[1..] + [f];
    }
  }

  lemma BytesOfFrame(b: seq<u8>, start: nat, frameId: int, actions: seq<Action>)
    requires |actions| < 256 && start + 3 + 5 * |actions| <= |b|
    requires b[start..start + 3 + 5 * |actions|]
          == EncodeFrame(SendFrame(frameId % 0x1_0000, ToSendAll(actions)))
    ensures LaidOut(b, start, frameId, actions)
  {
    var n := 5 * |actions|;
    var all, body := b[start..start + 3 + n], EncodeActions(ToSendAll(actions));
    assert all[0] == b[start] && all[1] == b[start + 1] && all[2] == b[start + 2];
    assert all[3..3 + n] == body;
    hide EncodeActions, EncodeAction, EncodeHead, EncodeFrame, ToSend;
    SliceOfSlice(b, start, start + 3 + n, 3, 3 + n);
    forall i | 0 <= i < |actions|
      ensures ActionAt(b, start + 3 + 5 * i, actions[i])
    {
      ActionBytesAt(ToSendAll(actions), i);
      SliceOfSlice(b, start + 3, start + 3 + n, 5 * i, 5 * i + 5);
      BytesOfAction(b, start + 3 + 5 * i, actions[i]);
    }
  }

  lemma SliceOfSlice(b: seq<u8>, from: nat, to: nat, i: nat, j: nat)
    requires from <= to <= |b| && i <= j <= to - from
    ensures b[from..to][i..j] == b[from + i..from + j]
  {
    var x, y := b[from..to][i..j], b[from + i..from + j];
    forall k | 0 <= k < j - i
      ensures x[k] == y[k]
    {
      assert b[from..to][i + k] == b[from + (i + k)];
    }
  }

  lemma BytesOfAction(b: seq<u8>, p: nat, a: Action)
    requires p + 5 <= |b| && b[p..p + 5] == EncodeAction(ToSend(a))
    ensures ActionAt(b, p, a)
  {
    var e, sent := b[p..p + 5], ToSend(a);
    var vkey, arg := EncodeU16(sent.vkey), EncodeU16(sent.arg);
    assert e == vkey + arg + [sent.roleIdx];
    assert e[0] == b[p] && e[1] == b[p + 1] && e[2] == b[p + 2] && e[3] == b[p + 3] && e[4] == b[p + 4];
    HalvesOf(sent.vkey);
    HalvesOf(sent.arg);
  }

  lemma HalvesOf(x: u16)
    ensures |EncodeU16(x)| == 2 && HighLow(EncodeU16(x)[0], EncodeU16(x)[1], x)
  {}

  lemma {:induction false} ActionBytesAt(s: seq<SendAction>, i: nat)
    requires i < |s|
    ensures EncodeActions(s)[5 * i..5 * i + 5] == EncodeAction(s[i])
    decreases |s|
  {
    hide EncodeAction;
    var n := |s| - 1;
    var front := EncodeActions(s[..n]);
    assert EncodeActions(s) == front + EncodeAction(s[n]);
    if i < n {
      ActionBytesAt(s[..n], i);
      assert (front + EncodeAction(s[n]))[5 * i..5 * i + 5] == front[5 * i..5 * i + 5];
    } else {
      assert (front + EncodeAction(s[n]))[5 * n..5 * n + 5] == EncodeAction(s[n]);
    }
  }

  /** One packed SendAction. */
  method WriteAction(bytes: array<u8>, p: nat, a: Action)
    requires p + ACTION_BYTES <= bytes.Length
    modifies bytes
    ensures bytes[..] == old(bytes[..p]) + EncodeAction(ToSend(a)) + old(bytes[p + ACTION_BYTES..])
  {
    var vkey, arg := a.vkey % 0x1_0000, a.arg % 0x1_0000;
    bytes[p], bytes[p + 1] := vkey / 256, vkey % 256;
    bytes[p + 2], bytes[p + 3] := arg / 256, arg % 256;
    bytes[p + 4] := a.roleIdx % 256;
  }

  lemma NextAction(s: seq<SendAction>, i: nat)
    requires i < |s|
    ensures EncodeActions(s[..i + 1]) == EncodeActions(s[..i]) + EncodeAction(s[i])
  {
    assert s[..i + 1][..i] == s[..i];
  }

  lemma NoActions(s: seq<SendAction>)
    ensures EncodeActions(s[..0]) == []
  {}

  lemma SpliceMore(was: seq<u8>, before: seq<u8>, now: seq<u8>, p: nat, done: seq<u8>, piece: seq<u8>)
    requires p + |done| + |piece| <= |was|
    requires before == was[..p] + done + was[p + |done|..]
    requires now == before[..p + |done|] + piece + before[p + |done| + |piece|..]
    ensures now == was[..p] + (done + piece) + was[p + |done| + |piece|..]
  {
    assert before[..p + |done|] == was[..p] + done;
    assert before[p + |done| + |piece|..] == was[p + |done| + |piece|..];
  }

  lemma TwoParts(was: seq<u8>, between: seq<u8>, now: seq<u8>, p: nat, head: seq<u8>, body: seq<u8>)
    requires p + |head| + |body| <= |was|
    requires between == was[..p] + head + was[p + |head|..]
    requires now == between[..p + |head|] + body + between[p + |head| + |body|..]
    ensures now == was[..p] + (head + body) + was[p + |head + body|..]
  {
    SpliceMore(was, between, now, p, head, body);
  }
}
