/** A game in a room: the tick that collects one state of every player and sends the lot to
    all of them, and the action-picking pass of the other protocol. */
module Games {
  import opened Frames
  import opened RingQueues
  import opened SyncSpec
  import opened Sessions

  const PICK_ACTION_EVERY_PLAYER := 5

  ghost function Members(players: seq<Session>): set<Session> {
    set s | s in players
  }

  ghost function StateCaches(players: seq<Session>): set<RingQueue<string>> {
    set s | s in players :: s.stateCache
  }

  ghost function StateStorages(players: seq<Session>): set<array<string>> {
    set s | s in players :: s.stateCache.storage
  }

  ghost function ActionCaches(players: seq<Session>): set<RingQueue<Action>> {
    set s | s in players :: s.actionCache
  }

  ghost function ActionStorages(players: seq<Session>): set<array<Action>> {
    set s | s in players :: s.actionCache.storage
  }

  /** Different sessions, each with its own caches, as a room keeps them. */
  ghost predicate GoodPlayers(players: seq<Session>)
    reads players, StateCaches(players), StateStorages(players), ActionCaches(players)
  {
    (forall s :: s in players ==> s.Valid()) &&
    (forall i, j :: 0 <= i < j < |players| ==> players[i] != players[j])
  }

  /** `ps` is what the protocol sees of the players. */
  ghost predicate Shows(players: seq<Session>, ps: seq<Player>)
    requires GoodPlayers(players)
    reads players, StateCaches(players), StateStorages(players), ActionCaches(players)
  {
    |ps| == |players| && forall i :: 0 <= i < |players| ==> players[i].AsPlayer() == ps[i]
  }

  ghost predicate ShowsActions(players: seq<Session>, caches: seq<seq<Action>>)
    requires GoodPlayers(players)
    reads players, StateCaches(players), StateStorages(players), ActionCaches(players)
    reads ActionStorages(players)
  {
    |caches| == |players| &&
    forall i :: 0 <= i < |players| ==> players[i].Valid() && players[i].Actions() == caches[i]
  }

  function Queues(ps: seq<Player>): (queues: seq<seq<string>>)
    ensures |queues| == |ps|
  {
    seq(|ps|, i requires 0 <= i < |ps| => ps[i].pending)
  }

  /** The first n players popped, the others not yet. */
  function PoppedUpTo(ps: seq<Player>, n: nat): (r: seq<Player>)
    ensures |r| == |ps|
  {
    seq(|ps|, i requires 0 <= i < |ps| => if i < n then TickPlayer(ps[i], []) else ps[i])
  }

  function SentTo(p: Player, message: string): Player {
    if message == "" then p else p.(sent := p.sent + [message])
  }

  function SentUpTo(ps: seq<Player>, message: string, n: nat): (r: seq<Player>)
    ensures |r| == |ps|
  {
    seq(|ps|, i requires 0 <= i < |ps| => if i < n then SentTo(ps[i], message) else ps[i])
  }

  /** One whole tick. */
  function Ticked(ps: seq<Player>): (r: seq<Player>)
    ensures |r| == |ps|
  {
    seq(|ps|, i requires 0 <= i < |ps| => TickPlayer(ps[i], Messages(Queues(ps))))
  }

  /** Every player gave up its oldest waiting state, if it had one. */
  predicate EachGaveOldest(before: seq<Player>, after: seq<Player>) {
    |before| == |after| && forall i :: 0 <= i < |before| ==> OldestTaken(before[i], after[i])
  }

  /** Every player was sent the states all of them gave up, in roster order, as one message. */
  predicate AllSentWhatWasGivenUp(before: seq<Player>, after: seq<Player>)
    requires EachGaveOldest(before, after)
  {
    forall i :: 0 <= i < |before| ==> after[i].sent == before[i].sent + MessageOf(GivenUp(before, after))
  }

  lemma ShownOnce(players: seq<Session>, ps: seq<Player>)
    requires GoodPlayers(players) && Shows(players, ps)
    ensures forall qs :: Shows(players, qs) ==> qs == ps
  {}

  lemma PoppedExact(ps: seq<Player>)
    ensures EachGaveOldest(ps, PoppedUpTo(ps, |ps|))
    ensures Collected(Queues(ps)) == Concat(GivenUp(ps, PoppedUpTo(ps, |ps|)))
  {
    forall i | 0 <= i < |ps|
      ensures OldestTaken(ps[i], PoppedUpTo(ps, |ps|)[i])
    {
      AtMostOne(ps[i].pending);
    }
    CollectedIsTaken(ps, PoppedUpTo(ps, |ps|), Queues(ps));
  }

  /** In a tick every player gives up its oldest waiting state, and all are sent exactly the
      states given up, in roster order. */
  lemma TickedExact(ps: seq<Player>)
    ensures EachGaveOldest(ps, Ticked(ps))
    ensures AllSentWhatWasGivenUp(ps, Ticked(ps))
  {
    forall i | 0 <= i < |ps|
      ensures OldestTaken(ps[i], Ticked(ps)[i])
    {
      AtMostOne(ps[i].pending);
    }
    CollectedIsTaken(ps, Ticked(ps), Queues(ps));
  }

  /** Popping one player's state leaves the other players as they were. */
  method PopStateOf(s: Session, ghost players: seq<Session>, ghost ps: seq<Player>, ghost i: nat)
    returns (r: int, state: string)
    requires GoodPlayers(players) && Shows(players, ps) && i < |players| && s == players[i]
    modifies s`consumed, s.stateCache`head
    ensures GoodPlayers(players) && Shows(players, ps[i := TickPlayer(ps[i], [])])
    ensures r == if ps[i].pending == [] then -1 else 0
    ensures state == First(ps[i].pending)
  {
    forall t | t in players && t != s
      ensures t.stateCache != s.stateCache
    {
      assert t.Valid() && s.Valid();
    }
    r, state := s.PopState();
    forall t | t in players && t != s
      ensures t.Valid() && t.AsPlayer() == old(t.AsPlayer())
    {
    }
  }

  method SendStateTo(s: Session, frameMgr: FrameMgr, ghost players: seq<Session>, ghost ps: seq<Player>,
                     ghost i: nat)
    requires GoodPlayers(players) && Shows(players, ps) && i < |players| && s == players[i]
    modifies s`written
    ensures GoodPlayers(players) && Shows(players, ps[i := SentTo(ps[i], frameMgr.stateBuf)])
  {
    s.SendStateCacheToClient(frameMgr);
    forall t | t in players && t != s
      ensures t.Valid() && t.AsPlayer() == old(t.AsPlayer())
    {
    }
  }

  class Game {
    const room: Room
    const frameMgr: FrameMgr
    const curFrame: Frame
    var rid: nat
    var gid: nat
    var curState: string

    constructor (rid: nat, room: Room)
      ensures this.room == room && this.rid == rid && gid == 0 && frameMgr.stateBuf == ""
      ensures curFrame.Valid() && curFrame.Actions() == []
      ensures fresh(frameMgr) && fresh(curFrame)
    {
      this.room, this.rid, gid, curState := room, rid, 0, "";
      frameMgr := new FrameMgr();
      curFrame := new Frame(0);
    }

    /** Takes one state from every player that has one, in roster order. */
    method SspCalculateFrame(ghost ps: seq<Player>)
      requires GoodPlayers(room.playerList) && Shows(room.playerList, ps)
      modifies `curState
      modifies Members(room.playerList)`consumed, StateCaches(room.playerList)`head
      ensures GoodPlayers(room.playerList) && Shows(room.playerList, PoppedUpTo(ps, |ps|))
      ensures curState == Collected(Queues(ps))
      ensures forall after :: Shows(room.playerList, after) ==>
                EachGaveOldest(ps, after) && curState == Concat(GivenUp(ps, after))
    {
      hide Session.Valid, Session.AsPlayer, PoppedUpTo, Collected, TickPlayer, EachGaveOldest, GivenUp;
      var players := room.playerList;
      curState := "";
      var i := 0;
      PopNone(ps);
      ShowsAll(players, ps);
      while i < |players|
        invariant 0 <= i <= |players| && players == room.playerList
        invariant GoodPlayers(players) && Shows(players, PoppedUpTo(ps, i))
        invariant curState == Collected(Queues(ps)[..i])
      {
        PopOneMore(ps, i);
        var r, state := PopStateOf(players[i], players, PoppedUpTo(ps, i), i);
        if r == 0 {
          curState := curState + state;
        }
        i := i + 1;
      }
      assert Queues(ps)[..i] == Queues(ps);
      PoppedExact(ps);
      ShownOnce(players, PoppedUpTo(ps, |ps|));
    }

    /** Writes the buffered state to every player's socket, then empties the buffer. */
    method SendStateNtfToAll(ghost ps: seq<Player>)
      requires GoodPlayers(room.playerList) && Shows(room.playerList, ps)
      modifies frameMgr, Members(room.playerList)`written
      ensures GoodPlayers(room.playerList)
      ensures Shows(room.playerList, SentUpTo(ps, old(frameMgr.stateBuf), |ps|))
      ensures frameMgr.stateBuf == ""
    {
      hide Session.Valid, Session.AsPlayer, SentUpTo, SentTo;
      ghost var message := frameMgr.stateBuf;
      var players := room.playerList;
      var i := 0;
      SendNone(ps, message);
      while i < |players|
        invariant 0 <= i <= |players| && players == room.playerList
        invariant GoodPlayers(players) && Shows(players, SentUpTo(ps, message, i))
        invariant frameMgr.stateBuf == message
      {
        SendOneMore(ps, message, i);
        SendStateTo(players[i], frameMgr, players, SentUpTo(ps, message, i), i);
        i := i + 1;
      }
      frameMgr.ClearState();
    }

    /** One tick: every player gives up its oldest waiting state, and all of them are sent
        the same message, made of what was given up (`after` is what the protocol sees of
        the players then); the shared buffer is empty before and after. */
    method FrameTick(ghost ps: seq<Player>)
      requires GoodPlayers(room.playerList) && Shows(room.playerList, ps)
      requires frameMgr.stateBuf == ""
      modifies `curState, frameMgr, Members(room.playerList)`consumed
      modifies Members(room.playerList)`written, StateCaches(room.playerList)`head
      ensures GoodPlayers(room.playerList) && Shows(room.playerList, Ticked(ps))
      ensures frameMgr.stateBuf == ""
      ensures forall after :: Shows(room.playerList, after) ==>
                EachGaveOldest(ps, after) && AllSentWhatWasGivenUp(ps, after)
    {
      hide Session.Valid, Session.AsPlayer, SentUpTo, PoppedUpTo, Collected, Ticked, EachGaveOldest,
           AllSentWhatWasGivenUp;
      SspCalculateFrame(ps);
      var r := frameMgr.AddState(curState);
      TickIsBoth(ps, frameMgr.stateBuf);
      SendStateNtfToAll(PoppedUpTo(ps, |ps|));
      TickedExact(ps);
      ShownOnce(room.playerList, Ticked(ps));
    }

    /** The pass of the other protocol: up to five actions from every player's cache, oldest
        first. A player that runs out is erased from the list being walked, and the walk
        still reaches everyone; a full frame takes nothing. */
    method FspCalculateFrame(ghost caches: seq<seq<Action>>)
      requires GoodPlayers(room.playerList) && ShowsActions(room.playerList, caches)
      modifies Members(room.playerList)`maxCacheSize, ActionCaches(room.playerList)`head
      ensures GoodPlayers(room.playerList)
      ensures ShowsActions(room.playerList, PickedUpTo(caches, if curFrame.IsFull() then 0 else |caches|))
      ensures forall i :: 0 <= i < |caches| ==>
                room.playerList[i].Valid() &&
                room.playerList[i].Actions()
                == if curFrame.actionCount >= 40 then caches[i]
                   else caches[i][if |caches[i]| < 5 then |caches[i]| else 5..]
    {
      assert |caches| == |room.playerList|;
      hide GoodPlayers, ShowsActions, PickedUpTo, Picked, SameRest, Session.Valid, Session.Actions;
      ghost var players := room.playerList;
      var sessList := room.playerList;
      var iter := 0;
      ghost var done := 0;
      PickNone(caches);
      StartWalk(players);
      while iter < |sessList|
        invariant 0 <= iter && players == room.playerList && GoodPlayers(players)
        invariant SameRest(sessList, iter, players, done)
        invariant iter <= |sessList| && done <= |players| && (iter == |sessList| ==> done == |players|)
        invariant done > 0 ==> !curFrame.IsFull()
        invariant ShowsActions(players, PickedUpTo(caches, done))
        decreases |sessList| - iter
      {
        WalkOn(sessList, iter, players, done);
        PickOneMore(caches, done);
        var full, erase := PickFrom(sessList[iter], players, PickedUpTo(caches, done), done);
        if full {
          break;
        }
        if erase {
          sessList := sessList[..iter] + sessList[iter + 1..];
        } else {
          iter := iter + 1;
        }
        done := done + 1;
      }
      LeftAfterPass(players, caches, if curFrame.IsFull() then 0 else |caches|);
    }

    /** The inner loop: `full` is the jump out of both loops, `erase` says that the cache
        ran out before five actions were taken. */
    method PickFrom(s: Session, ghost players: seq<Session>, ghost caches: seq<seq<Action>>, ghost i: nat)
      returns (full: bool, erase: bool)
      requires GoodPlayers(players) && ShowsActions(players, caches)
      requires i < |players| && s == players[i]
      modifies s`maxCacheSize, s.actionCache`head
      ensures GoodPlayers(players) && full == curFrame.IsFull()
      ensures ShowsActions(players, if full then caches else caches[i := Picked(caches[i])])
      ensures !full ==>
                ShowsActions(players, caches[i := caches[i][if |caches[i]| < 5 then |caches[i]| else 5..]])
      ensures !full ==> (erase <==> |caches[i]| < 5)
    {
      hide Session.Valid, Session.Actions;
      full, erase := false, false;
      var count := 0;
      DropNone(caches, i);
      while count < PICK_ACTION_EVERY_PLAYER
        invariant 0 <= count <= PICK_ACTION_EVERY_PLAYER && count <= |caches[i]|
        invariant GoodPlayers(players) && ShowsActions(players, caches[i := caches[i][count..]])
        invariant count > 0 ==> !curFrame.IsFull()
        decreases PICK_ACTION_EVERY_PLAYER - count
      {
        if curFrame.IsFull() {
          full := true;
          return;
        }
        DropOneMore(caches, i, count);
        var r, action := PopActionOf(s, players, caches[i := caches[i][count..]], i);
        if r == 0 {
          AddActionToCurFrame(action);
          count := count + 1;
        } else {
          erase := true;
          break;
        }
      }
    }

    /** Unfinished in the source: it takes the action and does nothing with it. */
    method AddActionToCurFrame(action: Action)
    {
    }
  }

  /** Popping one player's action leaves the other players as they were. */
  method PopActionOf(s: Session, ghost players: seq<Session>, ghost caches: seq<seq<Action>>, ghost i: nat)
    returns (r: int, action: Action)
    requires GoodPlayers(players) && ShowsActions(players, caches) && i < |players| && s == players[i]
    modifies s`maxCacheSize, s.actionCache`head
    ensures GoodPlayers(players)
    ensures r == if caches[i] == [] then -1 else 0
    ensures ShowsActions(players, if r == 0 then caches[i := caches[i][1..]] else caches)
  {
    hide GoodPlayers, ShowsActions, Session.Actions;
    OwnActionCache(players, caches, i);
    r, action := s.PopAction();
    forall j | 0 <= j < |players| && j != i
      ensures players[j].Valid() && players[j].Actions() == caches[j]
    {
    }
    assert caches[i := caches[i]] == caches;
    PoppedShown(players, caches, i, if r == 0 then caches[i][1..] else caches[i]);
  }

  lemma OwnActionCache(players: seq<Session>, caches: seq<seq<Action>>, i: nat)
    requires GoodPlayers(players) && ShowsActions(players, caches) && i < |players|
    ensures |caches| == |players|
    ensures forall j :: 0 <= j < |players| ==> players[j].Valid() && players[j].Actions() == caches[j]
    ensures forall j :: 0 <= j < |players| && j != i ==>
              players[j] != players[i] && players[j].actionCache != players[i].actionCache
    ensures forall j, k :: 0 <= j < k < |players| ==> players[j] != players[k]
  {
    hide Session.Actions;
    forall j | 0 <= j < |players| && j != i
      ensures players[j].actionCache != players[i].actionCache
    {
      assert players[j].Valid() && players[i].Valid();
    }
  }

  lemma PoppedShown(players: seq<Session>, caches: seq<seq<Action>>, i: nat, rest: seq<Action>)
    requires |caches| == |players| && i < |players|
    requires forall j, k :: 0 <= j < k < |players| ==> players[j] != players[k]
    requires forall j :: 0 <= j < |players| ==>
               players[j].Valid() && players[j].Actions() == if j == i then rest else caches[j]
    ensures GoodPlayers(players) && ShowsActions(players, caches[i := rest])
  {
    hide Session.Actions;
  }

  /** What is left after taking up to five from the front. */
  function Picked(actions: seq<Action>): seq<Action> {
    if |actions| <= PICK_ACTION_EVERY_PLAYER then [] else actions[PICK_ACTION_EVERY_PLAYER..]
  }

  function PickedUpTo(caches: seq<seq<Action>>, n: nat): (r: seq<seq<Action>>)
    ensures |r| == |caches|
  {
    seq(|caches|, i requires 0 <= i < |caches| => if i < n then Picked(caches[i]) else caches[i])
  }

  lemma LeftAfterPass(players: seq<Session>, caches: seq<seq<Action>>, n: nat)
    requires GoodPlayers(players) && ShowsActions(players, PickedUpTo(caches, n))
    requires n == 0 || n == |caches|
    ensures forall i :: 0 <= i < |caches| ==>
              players[i].Valid() &&
              players[i].Actions()
              == if n == 0 then caches[i] else caches[i][if |caches[i]| < 5 then |caches[i]| else 5..]
  {
    hide Session.Actions;
    forall i | 0 <= i < |caches|
      ensures players[i].Valid() && players[i].Actions() == PickedUpTo(caches, n)[i]
    {
    }
  }

  /** What the walk has yet to reach is what the roster has yet to be served. */
  ghost predicate SameRest(list: seq<Session>, i: nat, roster: seq<Session>, j: nat) {
    i <= |list| && j <= |roster| && list[i..] == roster[j..]
  }

  lemma StartWalk(roster: seq<Session>)
    ensures SameRest(roster, 0, roster, 0)
  {}

  /** Stepping on and erasing the current element both lead to the next player. */
  lemma WalkOn(list: seq<Session>, i: nat, roster: seq<Session>, j: nat)
    requires i < |list| && SameRest(list, i, roster, j)
    ensures j < |roster| && list[i] == roster[j]
    ensures SameRest(list, i + 1, roster, j + 1)
    ensures SameRest(list[..i] + list[i + 1..], i, roster, j + 1)
    ensures i + 1 == |list| ==> j + 1 == |roster|
  {
    assert list[i..][0] == roster[j..][0] && list[i..][1..] == roster[j..][1..];
    assert (list[..i] + list[i + 1..])[i..] == list[i + 1..];
  }

  lemma DropNone(caches: seq<seq<Action>>, i: nat)
    requires i < |caches|
    ensures caches[i := caches[i][0..]] == caches
  {}

  lemma DropOneMore(caches: seq<seq<Action>>, i: nat, n: nat)
    requires i < |caches| && n <= |caches[i]|
    ensures caches[i := caches[i][n..]][i] == caches[i][n..]
    ensures n < |caches[i]| ==>
              caches[i := caches[i][n..]][i := caches[i][n..][1..]] == caches[i := caches[i][n + 1..]]
  {
    if n < |caches[i]| {
      assert caches[i][n..][1..] == caches[i][n + 1..];
    }
  }

  lemma PickNone(caches: seq<seq<Action>>)
    ensures PickedUpTo(caches, 0) == caches
  {}

  lemma PickOneMore(caches: seq<seq<Action>>, i: nat)
    requires i < |caches|
    ensures PickedUpTo(caches, i)[i] == caches[i]
    ensures PickedUpTo(caches, i)[i := Picked(caches[i])] == PickedUpTo(caches, i + 1)
  {}

  lemma SendNone(ps: seq<Player>, message: string)
    ensures SentUpTo(ps, message, 0) == ps
  {}

  lemma SendOneMore(ps: seq<Player>, message: string, i: nat)
    requires i < |ps|
    ensures SentUpTo(ps, message, i)[i] == ps[i]
    ensures SentUpTo(ps, message, i)[i := SentTo(ps[i], message)] == SentUpTo(ps, message, i + 1)
  {}

  /** Popping everyone and sending the buffer to everyone is the tick. */
  lemma TickIsBoth(ps: seq<Player>, buffer: string)
    requires buffer == if Collected(Queues(ps)) == "" then "" else "" + (Collected(Queues(ps)) + "$")
    ensures SentUpTo(PoppedUpTo(ps, |ps|), buffer, |PoppedUpTo(ps, |ps|)|) == Ticked(ps)
  {
    var l, r := SentUpTo(PoppedUpTo(ps, |ps|), buffer, |ps|), Ticked(ps);
    var said := Collected(Queues(ps));
    assert "" + (said + "$") == said + "$";
    forall i | 0 <= i < |ps|
      ensures l[i] == r[i]
    {
      assert ps[i].sent + [] == ps[i].sent;
      assert l[i] == SentTo(TickPlayer(ps[i], []), buffer);
      assert r[i] == TickPlayer(ps[i], Messages(Queues(ps)));
    }
  }

  lemma ShowsAll(players: seq<Session>, ps: seq<Player>)
    requires GoodPlayers(players) && Shows(players, ps)
    ensures |players| == |ps|
  {}

  lemma PopNone(ps: seq<Player>)
    ensures PoppedUpTo(ps, 0) == ps && Collected(Queues(ps)[..0]) == ""
  {}

  lemma PopOneMore(ps: seq<Player>, i: nat)
    requires i < |ps|
    ensures PoppedUpTo(ps, i)[i] == ps[i]
    ensures PoppedUpTo(ps, i)[i := TickPlayer(ps[i], [])] == PoppedUpTo(ps, i + 1)
    ensures Collected(Queues(ps)[..i + 1]) == Collected(Queues(ps)[..i]) + First(ps[i].pending)
    ensures ps[i].pending == [] ==> First(ps[i].pending) == ""
  {
    assert Queues(ps)[..i + 1][..i] == Queues(ps)[..i];
  }
}
