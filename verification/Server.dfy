/** All sessions and games of one server, running the state-sync protocol on the real
    objects: every event leaves them in the state the protocol says. */
module Server {
  import opened Frames
  import opened RingQueues
  import opened SyncSpec
  import opened Sessions
  import opened Games

  /** The sessions a roster names. */
  function Named(sessions: seq<Session>, roster: seq<nat>): (players: seq<Session>)
    requires GoodRoster(roster, |sessions|)
    ensures |players| == |roster|
  {
    seq(|roster|, j requires 0 <= j < |roster| => sessions[roster[j]])
  }

  ghost function Rooms(games: seq<Game>): set<Room> {
    set g | g in games :: g.room
  }

  ghost function FrameMgrs(games: seq<Game>): set<FrameMgr> {
    set g | g in games :: g.frameMgr
  }

  /** Every game sits in its own room, with its own empty buffer. */
  ghost predicate GoodGames(games: seq<Game>)
    reads Rooms(games), FrameMgrs(games)
  {
    (forall g :: g in games ==> g.room.Valid() && g.frameMgr.stateBuf == "") &&
    (forall i, j :: 0 <= i < j < |games| ==>
       games[i] != games[j] && games[i].room != games[j].room && games[i].frameMgr != games[j].frameMgr)
  }

  /** No two sessions share the storage of their state caches. */
  ghost predicate OwnStorage(sessions: seq<Session>) {
    forall s, t :: s in sessions && t in sessions && s != t ==> s.stateCache.storage != t.stateCache.storage
  }

  ghost predicate RostersShown(sessions: seq<Session>, games: seq<Game>, w: World)
    requires GoodRosters(w) && |w.players| == |sessions|
    reads Rooms(games)
  {
    |games| == |w.rosters| &&
    forall g :: 0 <= g < |games| ==>
      games[g].room.playerList == Named(sessions, w.rosters[g]) &&
      games[g].room.maxPlayerNum == w.capacities[g]
  }

  /** The objects are in state `w` of the protocol. */
  ghost predicate Represents(sessions: seq<Session>, games: seq<Game>, w: World)
    reads sessions, StateCaches(sessions), StateStorages(sessions), ActionCaches(sessions)
    reads Rooms(games), FrameMgrs(games)
  {
    GoodPlayers(sessions) && OwnStorage(sessions) && GoodGames(games) &&
    GoodRosters(w) && Shows(sessions, w.players) && RostersShown(sessions, games, w)
  }

  method Arrival(sessions: seq<Session>, games: seq<Game>, ghost w: World, i: nat, pkg: string)
    requires Represents(sessions, games, w)
    modifies Members(sessions)`accepted, StateCaches(sessions)`tail, StateStorages(sessions)
    ensures Represents(sessions, games, Step(w, Arrive(i, pkg)))
  {
    if i < |sessions| {
      var s := sessions[i];
      forall t | t in sessions && t != s
        ensures t.stateCache != s.stateCache && t.stateCache.storage != s.stateCache.storage
      {
        assert t.Valid() && s.Valid();
      }
      s.SspHandleStatePkg(pkg);
      forall t | t in sessions && t != s
        ensures t.Valid() && t.AsPlayer() == old(t.AsPlayer())
      {
      }
    }
  }

  method GameTick(sessions: seq<Session>, games: seq<Game>, ghost w: World, g: nat)
    requires Represents(sessions, games, w)
    modifies games, FrameMgrs(games), Members(sessions)`consumed, Members(sessions)`written
    modifies StateCaches(sessions)`head
    ensures Represents(sessions, games, Step(w, Tick(g)))
  {
    hide Session.Valid, Session.AsPlayer, TickPlayers;
    if g < |games| {
      TickOne(games[g], sessions, w.players, w.rosters[g]);
    }
  }

  /** The tick of one game, told for all sessions. */
  method TickOne(game: Game, sessions: seq<Session>, ghost all: seq<Player>, ghost roster: seq<nat>)
    requires GoodPlayers(sessions) && Shows(sessions, all) && GoodRoster(roster, |sessions|)
    requires game.room.playerList == Named(sessions, roster) && game.frameMgr.stateBuf == ""
    modifies game`curState, game.frameMgr, Members(sessions)`consumed, Members(sessions)`written
    modifies StateCaches(sessions)`head
    ensures GoodPlayers(sessions) && Shows(sessions, TickPlayers(all, roster))
    ensures game.frameMgr.stateBuf == ""
  {
    ghost var players := game.room.playerList;
    NamedAreGood(sessions, all, roster);
    CachesApart(sessions, players);
    hide Session.Valid, Session.AsPlayer, Ticked, TickPlayers, OnRoster;
    game.FrameTick(OnRoster(all, roster));
    forall i | 0 <= i < |sessions| && i !in roster
      ensures sessions[i].Valid() && sessions[i].AsPlayer() == all[i]
    {
      assert sessions[i] in sessions;
      NotNamed(sessions, roster, i);
    }
    forall j | 0 <= j < |roster|
      ensures sessions[roster[j]].Valid()
      ensures sessions[roster[j]].AsPlayer() == Ticked(OnRoster(all, roster))[j]
    {
      assert players[j] == sessions[roster[j]] && players[j] in players;
    }
    ShownAfterTick(sessions, all, roster);
  }

  lemma ShownAfterTick(sessions: seq<Session>, all: seq<Player>, roster: seq<nat>)
    requires |all| == |sessions| && GoodRoster(roster, |sessions|)
    requires forall i, j :: 0 <= i < j < |sessions| ==> sessions[i] != sessions[j]
    requires forall i :: 0 <= i < |sessions| && i !in roster ==>
               sessions[i].Valid() && sessions[i].AsPlayer() == all[i]
    requires forall j :: 0 <= j < |roster| ==>
               sessions[roster[j]].Valid() &&
               sessions[roster[j]].AsPlayer() == Ticked(OnRoster(all, roster))[j]
    ensures GoodPlayers(sessions) && Shows(sessions, TickPlayers(all, roster))
  {
    hide Session.Valid, Session.AsPlayer, Ticked, TickPlayers, OnRoster;
    forall i | 0 <= i < |sessions|
      ensures sessions[i].Valid() && sessions[i].AsPlayer() == TickPlayers(all, roster)[i]
    {
      TickedAt(all, roster, i);
      if i in roster {
        var j :| 0 <= j < |roster| && roster[j] == i;
      }
    }
  }

  lemma CachesApart(sessions: seq<Session>, players: seq<Session>)
    requires GoodPlayers(sessions) && forall s :: s in players ==> s in sessions
    ensures forall t :: t in sessions && t !in players ==> t.stateCache !in StateCaches(players)
  {
    forall t, s | t in sessions && t !in players && s in players
      ensures t.stateCache != s.stateCache
    {
      assert t.Valid() && s.Valid();
    }
  }

  /** The tick of a game, told for all players and told for its roster. */
  lemma TickedAt(ps: seq<Player>, roster: seq<nat>, i: nat)
    requires GoodRoster(roster, |ps|) && i < |ps|
    ensures forall j :: 0 <= j < |roster| && roster[j] == i ==>
              TickPlayers(ps, roster)[i] == Ticked(OnRoster(ps, roster))[j]
    ensures i !in roster ==> TickPlayers(ps, roster)[i] == ps[i]
  {
    assert Queues(OnRoster(ps, roster)) == Pendings(ps, roster);
  }

  lemma NotNamed(sessions: seq<Session>, roster: seq<nat>, i: nat)
    requires GoodRoster(roster, |sessions|) && i < |sessions| && i !in roster
    requires forall j, k :: 0 <= j < k < |sessions| ==> sessions[j] != sessions[k]
    ensures sessions[i] !in Named(sessions, roster)
  {}

  lemma NamedAreGood(sessions: seq<Session>, ps: seq<Player>, roster: seq<nat>)
    requires GoodPlayers(sessions) && Shows(sessions, ps) && GoodRoster(roster, |sessions|)
    ensures GoodPlayers(Named(sessions, roster)) && Shows(Named(sessions, roster), OnRoster(ps, roster))
  {
  }

  /** A player joins the room of a running game; the room decides. */
  method Joining(sessions: seq<Session>, games: seq<Game>, ghost w: World, g: nat, i: nat)
    requires Represents(sessions, games, w)
    modifies Rooms(games)`playerList
    ensures Represents(sessions, games, Step(w, Join(g, i)))
  {
    hide Session.Valid, Session.AsPlayer, OwnStorage;
    if g < |games| && i < |sessions| {
      ghost var roster := w.rosters[g];
      if i !in roster {
        NotNamed(sessions, roster, i);
        assert Named(sessions, roster + [i]) == Named(sessions, roster) + [sessions[i]];
      } else {
        var j :| 0 <= j < |roster| && roster[j] == i;
        assert Named(sessions, roster)[j] == sessions[i];
      }
      var r := games[g].room.AddPlayer(sessions[i]);
    }
  }

  /** Any interleaving of arrivals, ticks and joins, run on the objects, is the run of the
      protocol; so every law of protocol runs holds of the objects. */
  method RunEvents(sessions: seq<Session>, games: seq<Game>, ghost w: World, events: seq<Event>)
    requires Represents(sessions, games, w)
    modifies sessions, StateCaches(sessions), StateStorages(sessions), games
    modifies FrameMgrs(games), Rooms(games)
    ensures Represents(sessions, games, Run(w, events))
  {
    assert GoodRosters(w);
    hide Represents, Step;
    var i := 0;
    while i < |events|
      invariant 0 <= i <= |events|
      invariant Represents(sessions, games, Run(w, events[..i]))
    {
      ghost var now := Run(w, events[..i]);
      assert events[..i + 1][..i] == events[..i];
      match events[i] {
        case Arrive(who, pkg) => Arrival(sessions, games, now, who, pkg);
        case Tick(g) => GameTick(sessions, games, now, g);
        case Join(g, who) => Joining(sessions, games, now, g, who);
      }
      i := i + 1;
    }
    assert events[..i] == events;
  }
}
