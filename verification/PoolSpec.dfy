/** What a fixed-block pool promises, without memory: blocks are numbered in the order
    they are carved, and freed ones are kept on a stack. */
module PoolSpec {

  datatype Option<+T> = None | Some(value: T)

  datatype PoolState = PoolState(capacity: nat, carved: nat, free: seq<nat>)

  ghost predicate WellFormed(s: PoolState) {
    s.carved <= s.capacity &&
    (forall i :: 0 <= i < |s.free| ==> s.free[i] < s.carved) &&
    (forall i, j :: 0 <= i < j < |s.free| ==> s.free[i] != s.free[j])
  }

  /** Blocks handed out and not given back. */
  function Live(s: PoolState): (live: set<nat>) {
    set k | 0 <= k < s.carved && k !in s.free
  }

  /** A freed block first, then a fresh one, then nothing. */
  function AllocNext(s: PoolState): (PoolState, Option<nat>) {
    if s.free != [] then (s.(free := s.free[1..]), Some(s.free[0]))
    else if s.carved < s.capacity then (s.(carved := s.carved + 1), Some(s.carved))
    else (s, None)
  }

  function FreeNext(s: PoolState, k: nat): (PoolState, bool) {
    if k < s.carved && k !in s.free then (s.(free := [k] + s.free), true) else (s, false)
  }

  lemma {:induction false} LiveCount(s: PoolState)
    requires WellFormed(s)
    ensures |Live(s)| + |s.free| == s.carved
    decreases s.carved, |s.free|
  {
    if s.free == [] {
      assert Live(s) == UpTo(s.carved);
    } else {
      var t := s.(free := s.free[1..]);
      LiveCount(t);
      assert Live(t) == Live(s) + {s.free[0]};
    }
  }

  function UpTo(n: nat): (r: set<nat>)
    ensures |r| == n
    ensures forall k :: k in r <==> 0 <= k < n
  {
    if n == 0 then {} else UpTo(n - 1) + {n - 1}
  }

  /** Allocation fails exactly when every block is live; otherwise it adds one block
      that was not live before. */
  lemma AllocSound(s: PoolState)
    requires WellFormed(s)
    ensures var (t, r) := AllocNext(s);
            WellFormed(t) && t.capacity == s.capacity &&
            (r.None? <==> |Live(s)| == s.capacity) &&
            (r.None? ==> t == s) &&
            (r.Some? ==> r.value !in Live(s) && r.value < s.capacity &&
                         Live(t) == Live(s) + {r.value} && |Live(t)| == |Live(s)| + 1)
  {
    LiveCount(s);
    var (t, r) := AllocNext(s);
    if r.Some? {
      assert Live(t) == Live(s) + {r.value};
    }
  }

  /** Freeing succeeds exactly on live blocks and removes just that block. */
  lemma FreeSound(s: PoolState, k: nat)
    requires WellFormed(s)
    ensures var (t, ok) := FreeNext(s, k);
            WellFormed(t) && t.capacity == s.capacity &&
            (ok <==> k in Live(s)) &&
            (!ok ==> t == s) &&
            (ok ==> Live(t) == Live(s) - {k} && |Live(t)| == |Live(s)| - 1)
  {
    var (t, ok) := FreeNext(s, k);
    if ok {
      assert Live(t) == Live(s) - {k};
    }
  }

  /** The block freed last is the one handed out next, and the pool is as before. */
  lemma FreeThenAlloc(s: PoolState, k: nat)
    requires k in Live(s)
    ensures AllocNext(FreeNext(s, k).0) == (s, Some(k))
  {
    assert ([k] + s.free)[1..] == s.free;
  }

  /** The live blocks from a position on, in address order. */
  function LiveFrom(s: PoolState, from: nat): (ks: seq<nat>)
    decreases s.carved - from
  {
    if from >= s.carved then []
    else if from in Live(s) then [from] + LiveFrom(s, from + 1)
    else LiveFrom(s, from + 1)
  }

  /** That list is increasing, so without repetitions, and leaves out no live block. */
  lemma {:induction false} LiveFromExact(s: PoolState, from: nat)
    ensures forall k :: k in LiveFrom(s, from) <==> k in Live(s) && k >= from
    ensures forall i, j :: 0 <= i < j < |LiveFrom(s, from)| ==>
              LiveFrom(s, from)[i] < LiveFrom(s, from)[j]
    decreases s.carved - from
  {
    if from < s.carved {
      LiveFromExact(s, from + 1);
      var rest := LiveFrom(s, from + 1);
      assert forall i :: 0 <= i < |rest| ==> rest[i] in rest;
    }
  }

  /** After its first block, the rest of the list starts past it. */
  lemma {:induction false} LiveFromTail(s: PoolState, from: nat)
    requires LiveFrom(s, from) != []
    ensures LiveFrom(s, LiveFrom(s, from)[0] + 1) == LiveFrom(s, from)[1..]
    ensures from <= LiveFrom(s, from)[0] < s.carved
    decreases s.carved - from
  {
    if from !in Live(s) {
      LiveFromTail(s, from + 1);
    }
  }

  // ----- whole runs, seen by the pool and by its user

  datatype Op = Alloc | Free(block: nat)

  function RunFrom(s: PoolState, ops: seq<Op>): PoolState
    decreases |ops|
  {
    if ops == [] then s
    else
      var before := RunFrom(s, ops[..|ops| - 1]);
      match ops[|ops| - 1]
      case Alloc => AllocNext(before).0
      case Free(k) => FreeNext(before, k).0
  }

  /** The user's own record, kept from the answers alone: add what was handed out, drop
      what was taken back. */
  function Held(s: PoolState, ops: seq<Op>): set<nat>
    decreases |ops|
  {
    if ops == [] then Live(s)
    else
      var rest := ops[..|ops| - 1];
      match ops[|ops| - 1]
      case Alloc =>
        (match AllocNext(RunFrom(s, rest)).1
         case Some(k) => Held(s, rest) + {k}
         case None => Held(s, rest))
      case Free(k) =>
        if FreeNext(RunFrom(s, rest), k).1 then Held(s, rest) - {k} else Held(s, rest)
  }

  /** In every run the pool and its user agree on what is in use, no block is handed to
      two users, and capacity is never exceeded. */
  lemma {:induction false} RunAgrees(s: PoolState, ops: seq<Op>)
    requires WellFormed(s)
    ensures WellFormed(RunFrom(s, ops)) && RunFrom(s, ops).capacity == s.capacity
    ensures Live(RunFrom(s, ops)) == Held(s, ops)
    ensures |Held(s, ops)| <= s.capacity
    decreases |ops|
  {
    if ops == [] {
      LiveCount(s);
    } else {
      var rest := ops[..|ops| - 1];
      RunAgrees(s, rest);
      var before := RunFrom(s, rest);
      match ops[|ops| - 1] {
        case Alloc => AllocSound(before);
        case Free(k) => FreeSound(before, k);
      }
      LiveCount(RunFrom(s, ops));
    }
  }
}
