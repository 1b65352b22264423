/** A player's connection: its cache of incoming states and actions, and what has been
    written to its game socket. Rooms group sessions; a frame manager buffers the state
    that is about to be sent. */
module Sessions {
  import opened Frames
  import opened RingQueues
  import opened SyncSpec

  lemma MoveOne(taken: seq<string>, queue: seq<string>)
    requires queue != []
    ensures (taken + [queue[0]]) + queue[1..] == taken + queue
  {}

  class FrameMgr {
    var stateBuf: string

    constructor ()
      ensures stateBuf == ""
    {
      stateBuf := "";
    }

    /** 0 when buffered, -1 for an empty state. */
    method AddState(state: string) returns (r: int)
      modifies this
      ensures r == if state == "" then -1 else 0
      ensures stateBuf == if state == "" then old(stateBuf) else old(stateBuf) + (state + "$")
    {
      if |state| > 0 {
        stateBuf := stateBuf + (state + "$");
        return 0;
      }
      return -1;
    }

    function GetState(): string
      reads this
    {
      stateBuf
    }

    method ClearState()
      modifies this
      ensures stateBuf == ""
    {
      stateBuf := "";
    }
  }

  class Session {
    const stateCache: RingQueue<string>
    const actionCache: RingQueue<Action>
    var maxCacheSize: nat
    // messages written to the game socket
    var written: seq<string>
    // what arrived and was kept, and what ticks have taken, since the start
    ghost var accepted: seq<string>
    ghost var consumed: seq<string>

    ghost predicate Valid()
      reads this, stateCache, stateCache.storage, actionCache
    {
      stateCache.Valid() && stateCache.cap == CACHE_SIZE && stateCache.owner == this &&
      actionCache.Valid() && actionCache.cap == CACHE_SIZE && actionCache.owner == this &&
      accepted == consumed + stateCache.Contents()
    }

    /** The player this session is, in the protocol. */
    ghost function AsPlayer(): Player
      requires Valid()
      reads this, stateCache, stateCache.storage, actionCache
    {
      Player(accepted, consumed, stateCache.Contents(), written)
    }

    ghost function Actions(): seq<Action>
      requires actionCache.Valid()
      reads actionCache, actionCache.storage
    {
      actionCache.Contents()
    }

    constructor ()
      ensures Valid() && AsPlayer() == Player([], [], [], []) && Actions() == []
      ensures fresh(stateCache) && fresh(stateCache.storage)
      ensures fresh(actionCache) && fresh(actionCache.storage)
    {
      stateCache := new RingQueue<string>(CACHE_SIZE);
      actionCache := new RingQueue<Action>(CACHE_SIZE);
      accepted, consumed, written, maxCacheSize := [], [], [], *;
      new;
      stateCache.owner := this;
      actionCache.owner := this;
    }

    /** A packet arrives: one packet is one state; a full cache drops it. */
    method SspHandleStatePkg(pkg: string)
      requires Valid()
      modifies `accepted, stateCache`tail, stateCache.storage
      ensures Valid() && AsPlayer() == Receive(old(AsPlayer()), pkg)
    {
      var r := stateCache.Push(pkg);
      if r == 0 {
        accepted := accepted + [pkg];
      }
    }

    /** 0 and the oldest state, or -1 if none is waiting. */
    method PopState() returns (r: int, state: string)
      requires Valid()
      modifies `consumed, stateCache`head
      ensures Valid()
      ensures r == if old(AsPlayer().pending) == [] then -1 else 0
      ensures r == 0 ==> state == old(AsPlayer().pending)[0] && consumed == old(consumed) + [state] &&
                         AsPlayer().pending == old(AsPlayer().pending)[1..]
      ensures r == -1 ==> state == "" && AsPlayer() == old(AsPlayer())
      ensures state == First(old(AsPlayer().pending))
      ensures AsPlayer() == TickPlayer(old(AsPlayer()), [])
    {
      assert written + [] == written && consumed + [] == consumed;
      var empty := stateCache.Empty();
      if empty {
        return -1, "";
      }
      MoveOne(consumed, stateCache.Contents());
      state := stateCache.Front();
      stateCache.Pop();
      consumed := consumed + [state];
      r := 0;
    }

    /** Writes the buffered state to the socket, unless there is none. */
    method SendStateCacheToClient(frameMgr: FrameMgr?)
      requires Valid()
      modifies `written
      ensures Valid()
      ensures written == if frameMgr == null || frameMgr.stateBuf == "" then old(written)
                         else old(written) + [frameMgr.stateBuf]
    {
      if frameMgr == null {
        return;
      }
      var s := frameMgr.GetState();
      if |s| <= 0 {
        return;
      }
      written := written + [s];
    }

    /** An action arrives. A repetition of the newest one is noticed but queued all the same. */
    method FspHandleActionPkg(newAction: Action) returns (repeated: bool)
      requires actionCache.Valid()
      modifies actionCache`tail, actionCache.storage
      ensures actionCache.Valid()
      ensures repeated <==>
              old(Actions()) != [] &&
              var last := old(Actions())[|old(Actions())| - 1];
              last.vkey == newAction.vkey && last.arg == newAction.arg
      ensures Actions() == if |old(Actions())| == actionCache.cap then old(Actions())
                           else old(Actions()) + [newAction.(roleIdx := 0)]
    {
      repeated := false;
      var empty := actionCache.Empty();
      if !empty {
        var last := actionCache.Back();
        repeated := last.vkey == newAction.vkey && last.arg == newAction.arg;
      }
      var r := actionCache.Push(newAction.(roleIdx := 0));
    }

    /** 0 and the oldest action, or -1; the high-water mark is kept on the way. */
    method PopAction() returns (r: int, action: Action)
      requires actionCache.Valid()
      modifies `maxCacheSize, actionCache`head
      ensures actionCache.Valid()
      ensures r == if old(Actions()) == [] then -1 else 0
      ensures r == 0 ==> action == old(Actions())[0] && Actions() == old(Actions())[1..]
      ensures r == -1 ==> Actions() == []
      ensures maxCacheSize == if |old(Actions())| > old(maxCacheSize) then |old(Actions())| else old(maxCacheSize)
    {
      action := Action(0, 0, 0, 0);
      var empty := actionCache.Empty();
      if empty {
        return -1, action;
      } else {
        var size := actionCache.Size();
        if size > maxCacheSize {
          maxCacheSize := size;
        }
        action := actionCache.Front();
        actionCache.Pop();
        return 0, action;
      }
    }
  }

  class Room {
    var rid: nat
    var maxPlayerNum: nat
    var playerList: seq<Session>
    var isFighting: bool

    constructor (creator: Session, maxPlayerNum: nat)
      ensures rid == 0 && this.maxPlayerNum == maxPlayerNum
      ensures playerList == [creator] && !isFighting && Valid()
    {
      rid, this.maxPlayerNum := 0, maxPlayerNum;
      playerList, isFighting := [creator], false;
    }

    /** No session sits twice in the room, and the creator is always there. */
    ghost predicate Valid()
      reads `playerList, `maxPlayerNum
    {
      1 <= |playerList| && |playerList| <= (if maxPlayerNum == 0 then 1 else maxPlayerNum) &&
      forall i, j :: 0 <= i < j < |playerList| ==> playerList[i] != playerList[j]
    }

    /** The new number of players, -1 for a player already inside, -2 for a full room. */
    method AddPlayer(player: Session) returns (r: int)
      requires Valid()
      modifies `playerList
      ensures Valid()
      ensures player in old(playerList) ==> r == -1
      ensures player !in old(playerList) && |old(playerList)| >= maxPlayerNum ==> r == -2
      ensures player !in old(playerList) && |old(playerList)| < maxPlayerNum ==>
                r == |playerList| && playerList == old(playerList) + [player]
      ensures r < 0 ==> playerList == old(playerList)
    {
      var i := 0;
      while i < |playerList|
        invariant 0 <= i <= |playerList| && player !in playerList[..i]
      {
        if playerList[i] == player {
          break;
        }
        i := i + 1;
      }
      if i < |playerList| {
        return -1;
      }
      assert playerList[..i] == playerList;
      if |playerList| >= maxPlayerNum {
        return -2;
      }
      playerList := playerList + [player];
      return |playerList|;
    }
  }
}
