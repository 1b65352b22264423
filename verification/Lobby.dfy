/** Rooms and games of one server: players create and join rooms, and a room's game is
    started once. Ids are 32-bit counters. */
module Lobby {
  import opened Sessions
  import opened Games

  const ID_SPACE := 0x1_0000_0000

  class GameMgr {
    var gameMap: map<nat, Game>
    var nextGameId: nat

    constructor ()
      ensures gameMap == map[] && nextGameId == 1
    {
      gameMap, nextGameId := map[], 1;
    }

    method GetGame(gid: nat) returns (g: Game?)
      ensures g == if gid in gameMap then gameMap[gid] else null
    {
      g := null;
      if gid in gameMap {
        g := gameMap[gid];
      }
    }

    /** A game for a room that has none: NULL for no room or a fighting one. A new id that
        is still taken (after the counter wrapped) would leave the game out of the map. */
    method CreateGame(r: Room?) returns (g: Game?)
      modifies this, r
      ensures g == null <==> r == null || old(r.isFighting)
      ensures g == null ==> gameMap == old(gameMap) && nextGameId == old(nextGameId)
      ensures g == null && r != null ==> r.isFighting
      ensures r != null ==> r.rid == old(r.rid) && r.playerList == old(r.playerList) &&
                            r.maxPlayerNum == old(r.maxPlayerNum) &&
                            (old(r.Valid()) ==> r.Valid())
      ensures g != null ==>
                fresh(g) && r.isFighting && g.room == r && g.rid == r.rid &&
                g.gid == old(nextGameId) && nextGameId == (old(nextGameId) + 1) % ID_SPACE &&
                gameMap == if g.gid in old(gameMap) then old(gameMap) else old(gameMap)[g.gid := g]
    {
      if r == null || r.isFighting {
        return null;
      }
      r.isFighting := true;
      g := new Game(r.rid, r);
      g.gid := nextGameId;
      nextGameId := (nextGameId + 1) % ID_SPACE;
      if g.gid !in gameMap {
        gameMap := gameMap[g.gid := g];
      }
    }
  }

  class RoomMgr {
    var roomMap: map<nat, Room>
    var nextRoomId: nat
    const gameMgr: GameMgr

    /** Rooms are filed under their own ids, all below the counter. */
    ghost predicate RoomsFiled()
      reads this, roomMap.Values
    {
      1 <= nextRoomId < ID_SPACE &&
      forall rid :: rid in roomMap ==>
        roomMap[rid].rid == rid && 1 <= rid < nextRoomId && roomMap[rid].Valid()
    }

    /** Games are filed under their own ids, each for a fighting room of this lobby, no two
        for the same room; and every fighting room has its game. */
    ghost predicate GamesFiled()
      reads this, gameMgr, roomMap.Values, gameMgr.gameMap.Values
    {
      1 <= gameMgr.nextGameId < ID_SPACE &&
      (forall gid :: gid in gameMgr.gameMap ==>
         var g := gameMgr.gameMap[gid];
         g.gid == gid && 1 <= gid < gameMgr.nextGameId &&
         g.rid in roomMap && roomMap[g.rid] == g.room && g.room.isFighting) &&
      (forall g, h :: g in gameMgr.gameMap && h in gameMgr.gameMap && g != h ==>
         gameMgr.gameMap[g].room != gameMgr.gameMap[h].room) &&
      (forall rid :: rid in roomMap && roomMap[rid].isFighting ==>
         exists gid :: gid in gameMgr.gameMap && gameMgr.gameMap[gid].room == roomMap[rid])
    }

    ghost predicate Valid()
      reads this, gameMgr, roomMap.Values, gameMgr.gameMap.Values
    {
      RoomsFiled() && GamesFiled()
    }

    constructor ()
      ensures Valid() && roomMap == map[] && gameMgr.gameMap == map[]
      ensures fresh(gameMgr)
    {
      roomMap, nextRoomId := map[], 1;
      gameMgr := new GameMgr();
    }

    /** A new room with the next id, its creator inside. The lobby stays in order until
        the counter wraps to 0. */
    method CreateRoom(creator: Session, maxPlayerNum: nat) returns (r: Room)
      requires Valid()
      modifies this
      ensures fresh(r) && r.playerList == [creator] && !r.isFighting
      ensures r.rid == old(nextRoomId) && r.maxPlayerNum == maxPlayerNum
      ensures roomMap == old(roomMap)[r.rid := r] && r.rid !in old(roomMap)
      ensures nextRoomId == (old(nextRoomId) + 1) % ID_SPACE
      ensures nextRoomId != 0 ==> Valid()
      ensures unchanged(gameMgr)
    {
      r := new Room(creator, maxPlayerNum);
      assert r.Valid();
      hide Room.Valid;
      r.rid := nextRoomId;
      nextRoomId := (nextRoomId + 1) % ID_SPACE;
      if r.rid !in roomMap {
        roomMap := roomMap[r.rid := r];
      }
    }

    /** The room with that id, whether or not the player could be added; NULL if there is
        none. */
    method JoinRoom(player: Session, rid: nat) returns (r: Room?)
      requires Valid()
      modifies roomMap.Values`playerList
      ensures Valid()
      ensures r == if rid in roomMap then roomMap[rid] else null
      ensures forall q :: q in roomMap && q != rid ==> roomMap[q].playerList == old(roomMap[q].playerList)
      ensures r != null ==>
                r.playerList == if player in old(r.playerList) || |old(r.playerList)| >= r.maxPlayerNum
                                then old(r.playerList) else old(r.playerList) + [player]
    {
      r := null;
      if rid in roomMap {
        r := roomMap[rid];
        var result := r.AddPlayer(player);
      }
    }

    /** Starts the room's game unless there is no such room or it is fighting already. */
    method StartGame(rid: nat) returns (g: Game?)
      requires Valid()
      modifies gameMgr, roomMap.Values
      ensures g != null <==> rid in roomMap && !old(roomMap[rid].isFighting)
      ensures g == null ==> gameMgr.gameMap == old(gameMgr.gameMap)
      ensures g != null ==>
                fresh(g) && g.room == roomMap[rid] && g.gid == old(gameMgr.nextGameId) &&
                gameMgr.gameMap == old(gameMgr.gameMap)[g.gid := g] && g.gid !in old(gameMgr.gameMap)
      ensures gameMgr.nextGameId == if g == null then old(gameMgr.nextGameId)
                                    else (old(gameMgr.nextGameId) + 1) % ID_SPACE
      ensures gameMgr.nextGameId != 0 ==> Valid()
      ensures forall q :: q in roomMap ==>
                roomMap[q].playerList == old(roomMap[q].playerList) &&
                roomMap[q].maxPlayerNum == old(roomMap[q].maxPlayerNum) &&
                (roomMap[q].isFighting <==> old(roomMap[q].isFighting) || (g != null && q == rid))
      ensures g != null ==> g.rid == rid
      ensures Kept(old(gameMgr.gameMap), gameMgr.gameMap)
    {
      hide Room.Valid;
      if rid !in roomMap {
        return null;
      }
      var r := roomMap[rid];
      if !r.isFighting {
        g := gameMgr.CreateGame(r);
        assert gameMgr.gameMap[g.gid].room == r;
        forall q | q in roomMap && roomMap[q].isFighting
          ensures exists gid :: gid in gameMgr.gameMap && gameMgr.gameMap[gid].room == roomMap[q]
        {
          if roomMap[q] != r {
            ghost var gid :| gid in old(gameMgr.gameMap) && old(gameMgr.gameMap)[gid].room == roomMap[q];
            assert gameMgr.gameMap[gid].room == roomMap[q];
          }
        }
      } else {
        g := null;
      }
    }
  }

  datatype Request = Create(creator: Session, capacity: nat) | Join(player: Session, room: nat) | Start(room: nat)

  // ----- the lobby on values

  datatype RoomState = RoomState(capacity: nat, players: seq<Session>, fighting: bool)

  /** All rooms, the room of every game, and the two counters. */
  datatype LobbyState = LobbyState(rooms: map<nat, RoomState>, games: map<nat, nat>,
                                   nextRoom: nat, nextGame: nat)

  ghost function RoomView(r: Room): RoomState
    reads r
  {
    RoomState(r.maxPlayerNum, r.playerList, r.isFighting)
  }

  ghost function View(mgr: RoomMgr): LobbyState
    reads mgr, mgr.gameMgr, mgr.roomMap.Values, mgr.gameMgr.gameMap.Values
  {
    LobbyState(
      map rid | rid in mgr.roomMap :: RoomView(mgr.roomMap[rid]),
      map gid | gid in mgr.gameMgr.gameMap :: mgr.gameMgr.gameMap[gid].rid,
      mgr.nextRoomId, mgr.gameMgr.nextGameId)
  }

  function Serve(l: LobbyState, request: Request): LobbyState {
    match request
    case Create(creator, capacity) =>
      l.(rooms := l.rooms[l.nextRoom := RoomState(capacity, [creator], false)],
         nextRoom := (l.nextRoom + 1) % ID_SPACE)
    case Join(player, rid) =>
      if rid !in l.rooms || player in l.rooms[rid].players || |l.rooms[rid].players| >= l.rooms[rid].capacity
      then l
      else l.(rooms := l.rooms[rid := l.rooms[rid].(players := l.rooms[rid].players + [player])])
    case Start(rid) =>
      if rid !in l.rooms || l.rooms[rid].fighting then l
      else l.(rooms := l.rooms[rid := l.rooms[rid].(fighting := true)],
              games := l.games[l.nextGame := rid], nextGame := (l.nextGame + 1) % ID_SPACE)
  }

  function After(l: LobbyState, requests: seq<Request>): LobbyState
    decreases |requests|
  {
    if requests == [] then l
    else Serve(After(l, requests[..|requests| - 1]), requests[|requests| - 1])
  }

  /** What can be true of a lobby: a room is open, a player is in it, its game has begun, a
      game is filed for it. */
  datatype Fact = Open(room: nat) | Inside(room: nat, player: Session) | Begun(room: nat)
                | Filed(game: nat, room: nat)

  predicate Holds(l: LobbyState, fact: Fact) {
    match fact
    case Open(rid) => rid in l.rooms
    case Inside(rid, player) => rid in l.rooms && player in l.rooms[rid].players
    case Begun(rid) => rid in l.rooms && l.rooms[rid].fighting
    case Filed(gid, rid) => gid in l.games && l.games[gid] == rid
  }

  /** The request that makes a fact true, and what must be the case for it to do so. */
  predicate BringsAbout(l: LobbyState, request: Request, fact: Fact) {
    match fact
    case Open(rid) => request.Create? && rid == l.nextRoom
    case Inside(rid, player) =>
      (request.Create? && request.creator == player && rid == l.nextRoom) ||
      (request == Join(player, rid) && rid in l.rooms && |l.rooms[rid].players| < l.rooms[rid].capacity)
    case Begun(rid) => request == Start(rid) && rid in l.rooms
    case Filed(gid, rid) =>
      request == Start(rid) && rid in l.rooms && !l.rooms[rid].fighting && gid == l.nextGame
  }

  predicate BroughtAbout(l: LobbyState, requests: seq<Request>, fact: Fact)
    decreases |requests|
  {
    requests != [] &&
    var rest := requests[..|requests| - 1];
    (BroughtAbout(l, rest, fact) || BringsAbout(After(l, rest), requests[|requests| - 1], fact))
  }

  /** Ids in use lie below the counters, and the counters are `n` requests away from wrapping. */
  ghost predicate Orderly(l: LobbyState, n: nat) {
    (forall rid :: rid in l.rooms ==> rid < l.nextRoom) && (forall gid :: gid in l.games ==> gid < l.nextGame) &&
    l.nextRoom + n < ID_SPACE && l.nextGame + n < ID_SPACE
  }

  lemma ServeExact(l: LobbyState, request: Request, fact: Fact, n: nat)
    requires Orderly(l, n + 1)
    ensures Orderly(Serve(l, request), n)
    ensures Holds(Serve(l, request), fact) <==> Holds(l, fact) || BringsAbout(l, request, fact)
    ensures forall rid :: rid in l.rooms ==>
              rid in Serve(l, request).rooms &&
              Serve(l, request).rooms[rid].capacity == l.rooms[rid].capacity &&
              l.rooms[rid].players <= Serve(l, request).rooms[rid].players
  {}

  /** The whole history: after any run of requests exactly those rooms are open, players
      inside, games begun and games filed that were so before or that some request brought
      about; rooms keep their capacity, and their players in order of arrival. */
  lemma {:induction false} HistoryExact(l: LobbyState, requests: seq<Request>, fact: Fact, n: nat)
    requires Orderly(l, n + |requests|)
    ensures Orderly(After(l, requests), n)
    ensures Holds(After(l, requests), fact) <==> Holds(l, fact) || BroughtAbout(l, requests, fact)
    ensures forall rid :: rid in l.rooms ==>
              rid in After(l, requests).rooms &&
              After(l, requests).rooms[rid].capacity == l.rooms[rid].capacity &&
              l.rooms[rid].players <= After(l, requests).rooms[rid].players
    decreases |requests|
  {
    hide Serve, Holds, BringsAbout, Orderly;
    if requests != [] {
      var rest := requests[..|requests| - 1];
      HistoryExact(l, rest, fact, n + 1);
      ServeExact(After(l, rest), requests[|requests| - 1], fact, n);
    }
  }

  lemma History(l: LobbyState, requests: seq<Request>)
    requires Orderly(l, |requests|)
    ensures forall fact :: Holds(After(l, requests), fact) <==> Holds(l, fact) || BroughtAbout(l, requests, fact)
  {
    forall fact: Fact
      ensures Holds(After(l, requests), fact) <==> Holds(l, fact) || BroughtAbout(l, requests, fact)
    {
      HistoryExact(l, requests, fact, 0);
    }
  }

  lemma ViewOrderly(mgr: RoomMgr, n: nat)
    requires mgr.Valid() && mgr.nextRoomId + n < ID_SPACE && mgr.gameMgr.nextGameId + n < ID_SPACE
    ensures Orderly(View(mgr), n)
  {}

  /** Every run of requests on the objects is the run on values. If it is too short to wrap
      a counter it keeps the lobby in order: rooms and games once there stay under their
      ids, so a room that has its game keeps that one and never gets a second. */
  method RunRequests(mgr: RoomMgr, requests: seq<Request>)
    requires mgr.Valid()
    requires mgr.nextRoomId + |requests| < ID_SPACE && mgr.gameMgr.nextGameId + |requests| < ID_SPACE
    modifies mgr, mgr.gameMgr, mgr.roomMap.Values
    ensures mgr.Valid()
    ensures View(mgr) == After(old(View(mgr)), requests)
    ensures forall fact :: Holds(View(mgr), fact) <==>
              Holds(old(View(mgr)), fact) || BroughtAbout(old(View(mgr)), requests, fact)
    ensures Kept(old(mgr.roomMap), mgr.roomMap) && Kept(old(mgr.gameMgr.gameMap), mgr.gameMgr.gameMap)
    ensures forall gid, other :: gid in old(mgr.gameMgr.gameMap) && other in mgr.gameMgr.gameMap ==>
              (mgr.gameMgr.gameMap[other].room == old(mgr.gameMgr.gameMap)[gid].room ==> other == gid)
  {
    assert mgr.nextRoomId >= 1 && mgr.gameMgr.nextGameId >= 1;
    hide RoomMgr.RoomsFiled, RoomMgr.GamesFiled, Holds, BroughtAbout, Orderly, Kept, View, Serve;
    ghost var start := View(mgr);
    ViewOrderly(mgr, |requests|);
    KeptAtFirst(mgr.roomMap);
    KeptAtFirst(mgr.gameMgr.gameMap);
    var i := 0;
    while i < |requests|
      invariant 0 <= i <= |requests| && mgr.Valid()
      invariant 1 <= mgr.nextRoomId && mgr.nextRoomId + (|requests| - i) < ID_SPACE
      invariant 1 <= mgr.gameMgr.nextGameId && mgr.gameMgr.nextGameId + (|requests| - i) < ID_SPACE
      invariant Kept(old(mgr.roomMap), mgr.roomMap)
      invariant Kept(old(mgr.gameMgr.gameMap), mgr.gameMgr.gameMap)
      invariant View(mgr) == After(start, requests[..i])
      invariant forall r :: r in mgr.roomMap.Values ==> r in old(mgr.roomMap.Values) || fresh(r)
    {
      assert requests[..i + 1][..i] == requests[..i];
      ghost var rooms, games := mgr.roomMap, mgr.gameMgr.gameMap;
      ServeRequest(mgr, requests[i]);
      KeptTwice(old(mgr.roomMap), rooms, mgr.roomMap);
      KeptTwice(old(mgr.gameMgr.gameMap), games, mgr.gameMgr.gameMap);
      i := i + 1;
    }
    assert requests[..i] == requests;
    History(start, requests);
    OneGamePerRoom(mgr, old(mgr.gameMgr.gameMap));
  }

  method ServeRequest(mgr: RoomMgr, request: Request)
    requires mgr.Valid()
    requires mgr.nextRoomId + 1 < ID_SPACE && mgr.gameMgr.nextGameId + 1 < ID_SPACE
    modifies mgr, mgr.gameMgr, mgr.roomMap.Values
    ensures mgr.Valid()
    ensures View(mgr) == Serve(old(View(mgr)), request)
    ensures old(mgr.nextRoomId) <= mgr.nextRoomId <= old(mgr.nextRoomId) + 1
    ensures old(mgr.gameMgr.nextGameId) <= mgr.gameMgr.nextGameId <= old(mgr.gameMgr.nextGameId) + 1
    ensures Kept(old(mgr.roomMap), mgr.roomMap) && Kept(old(mgr.gameMgr.gameMap), mgr.gameMgr.gameMap)
    ensures forall r :: r in mgr.roomMap.Values ==> r in old(mgr.roomMap.Values) || fresh(r)
  {
    match request {
      case Create(creator, capacity) => ServeCreate(mgr, creator, capacity);
      case Join(player, room) => ServeJoin(mgr, player, room);
      case Start(room) => ServeStart(mgr, room);
    }
  }

  method ServeCreate(mgr: RoomMgr, creator: Session, capacity: nat)
    requires mgr.Valid() && mgr.nextRoomId + 1 < ID_SPACE
    modifies mgr
    ensures mgr.Valid() && View(mgr) == Serve(old(View(mgr)), Create(creator, capacity))
    ensures mgr.nextRoomId == old(mgr.nextRoomId) + 1 && unchanged(mgr.gameMgr)
    ensures Kept(old(mgr.roomMap), mgr.roomMap)
    ensures forall r :: r in mgr.roomMap.Values ==> r in old(mgr.roomMap.Values) || fresh(r)
  {
    hide RoomMgr.RoomsFiled, RoomMgr.GamesFiled;
    var r := mgr.CreateRoom(creator, capacity);
    assert View(mgr).rooms == Serve(old(View(mgr)), Create(creator, capacity)).rooms;
  }

  method ServeJoin(mgr: RoomMgr, player: Session, room: nat)
    requires mgr.Valid()
    modifies mgr.roomMap.Values`playerList
    ensures mgr.Valid() && View(mgr) == Serve(old(View(mgr)), Join(player, room))
  {
    hide RoomMgr.RoomsFiled, RoomMgr.GamesFiled, Serve;
    ghost var before := View(mgr);
    JoinSeen(mgr, player, room, before);
    JoinServed(before, View(mgr), player, room);
  }

  /** Joining a room, told for the whole lobby. */
  method JoinSeen(mgr: RoomMgr, player: Session, room: nat, ghost before: LobbyState)
    requires mgr.Valid() && View(mgr) == before
    modifies mgr.roomMap.Values`playerList
    ensures mgr.Valid() && View(mgr) == before.(rooms := View(mgr).rooms)
    ensures room !in before.rooms ==> View(mgr).rooms == before.rooms
    ensures room in before.rooms ==>
              var r := before.rooms[room];
              View(mgr).rooms == before.rooms[room :=
                if player in r.players || |r.players| >= r.capacity then r
                else r.(players := r.players + [player])]
  {
    hide RoomMgr.RoomsFiled, RoomMgr.GamesFiled, Room.Valid;
    var r := mgr.JoinRoom(player, room);
    if r != null {
      assert View(mgr).rooms == before.rooms[room := RoomView(r)];
    } else {
      assert View(mgr).rooms == before.rooms;
    }
  }

  lemma JoinServed(before: LobbyState, after: LobbyState, player: Session, room: nat)
    requires after == before.(rooms := after.rooms)
    requires room !in before.rooms ==> after.rooms == before.rooms
    requires room in before.rooms ==>
               var r := before.rooms[room];
               after.rooms == before.rooms[room :=
                 if player in r.players || |r.players| >= r.capacity then r
                 else r.(players := r.players + [player])]
    ensures after == Serve(before, Join(player, room))
  {
    assert room in before.rooms ==> before.rooms[room := before.rooms[room]] == before.rooms;
  }

  method ServeStart(mgr: RoomMgr, room: nat)
    requires mgr.Valid() && mgr.gameMgr.nextGameId + 1 < ID_SPACE
    modifies mgr.gameMgr, mgr.roomMap.Values
    ensures mgr.Valid() && View(mgr) == Serve(old(View(mgr)), Start(room))
    ensures old(mgr.gameMgr.nextGameId) <= mgr.gameMgr.nextGameId <= old(mgr.gameMgr.nextGameId) + 1
    ensures Kept(old(mgr.gameMgr.gameMap), mgr.gameMgr.gameMap)
  {
    assert mgr.gameMgr.nextGameId >= 1;
    hide RoomMgr.RoomsFiled, RoomMgr.GamesFiled, Serve;
    ghost var before := View(mgr);
    StartSeen(mgr, room, before);
    StartServed(before, View(mgr), room);
  }

  /** Starting a room's game, told for the whole lobby. */
  method StartSeen(mgr: RoomMgr, room: nat, ghost before: LobbyState)
    requires mgr.Valid() && 1 <= mgr.gameMgr.nextGameId < ID_SPACE - 1 && View(mgr) == before
    modifies mgr.gameMgr, mgr.roomMap.Values
    ensures mgr.Valid() && View(mgr).nextRoom == before.nextRoom
    ensures if room in before.rooms && !before.rooms[room].fighting then
              View(mgr).rooms == before.rooms[room := before.rooms[room].(fighting := true)] &&
              View(mgr).games == before.games[before.nextGame := room] &&
              View(mgr).nextGame == before.nextGame + 1
            else View(mgr) == before
    ensures Kept(old(mgr.gameMgr.gameMap), mgr.gameMgr.gameMap)
  {
    hide RoomMgr.Valid, Kept;
    var g := mgr.StartGame(room);
    StartShown(mgr, room, before, g);
  }

  lemma StartShown(mgr: RoomMgr, room: nat, before: LobbyState, g: Game?)
    requires mgr.roomMap.Keys == before.rooms.Keys && (g != null ==> room in before.rooms)
    requires forall q :: q in mgr.roomMap ==>
               RoomView(mgr.roomMap[q]) ==
               if g != null && q == room then before.rooms[q].(fighting := true) else before.rooms[q]
    requires forall gid :: gid in before.games ==>
               gid in mgr.gameMgr.gameMap && mgr.gameMgr.gameMap[gid].rid == before.games[gid]
    requires mgr.gameMgr.gameMap.Keys == before.games.Keys + if g == null then {} else {g.gid}
    requires g != null ==> g.gid !in before.games && mgr.gameMgr.gameMap[g.gid].rid == room
    ensures View(mgr).rooms
         == if g == null then before.rooms else before.rooms[room := before.rooms[room].(fighting := true)]
    ensures View(mgr).games == if g == null then before.games else before.games[g.gid := room]
  {}

  lemma StartServed(before: LobbyState, after: LobbyState, room: nat)
    requires after.nextRoom == before.nextRoom
    requires if room in before.rooms && !before.rooms[room].fighting then
               after.rooms == before.rooms[room := before.rooms[room].(fighting := true)] &&
               after.games == before.games[before.nextGame := room] &&
               after.nextGame == before.nextGame + 1 < ID_SPACE
             else after == before
    ensures after == Serve(before, Start(room))
  {}

  lemma OneGamePerRoom(mgr: RoomMgr, before: map<nat, Game>)
    requires mgr.Valid() && Kept(before, mgr.gameMgr.gameMap)
    ensures forall gid, other :: gid in before && other in mgr.gameMgr.gameMap ==>
              (mgr.gameMgr.gameMap[other].room == before[gid].room ==> other == gid)
  {}

  lemma KeptAtFirst<T>(now: map<nat, T>)
    ensures Kept(now, now)
  {}

  lemma KeptTwice<T>(a: map<nat, T>, b: map<nat, T>, c: map<nat, T>)
    requires Kept(a, b) && Kept(b, c)
    ensures Kept(a, c)
  {}

  /** Every entry of the old map is still there, unchanged. */
  ghost predicate Kept<T>(before: map<nat, T>, after: map<nat, T>) {
    forall id :: id in before ==> id in after && after[id] == before[id]
  }
}
