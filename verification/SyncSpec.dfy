/** The state-sync protocol as a state machine: players queue states, and every tick of a
    game takes the oldest state of each of its players and sends them out together. */
module SyncSpec {

  const CACHE_SIZE := 100

  function First(queue: seq<string>): string {
    if queue == [] then "" else queue[0]
  }

  function Taken(queue: seq<string>): seq<string> {
    if queue == [] then [] else [queue[0]]
  }

  function Rest(queue: seq<string>): seq<string> {
    if queue == [] then [] else queue[1..]
  }

  /** One state of each player, in roster order: the new `m_cur_state`. */
  function Collected(queues: seq<seq<string>>): string {
    if queues == [] then ""
    else Collected(queues[..|queues| - 1]) + First(queues[|queues| - 1])
  }

  /** What a tick writes to every player's socket: nothing if there was nothing to say. */
  function Messages(queues: seq<seq<string>>): seq<string> {
    if Collected(queues) == "" then [] else [Collected(queues) + "$"]
  }

  /** Everything about one player. */
  datatype Player = Player(accepted: seq<string>, consumed: seq<string>,
                           pending: seq<string>, sent: seq<string>)

  /** All players, and the roster and capacity of every game's room. */
  datatype World = World(players: seq<Player>, rosters: seq<seq<nat>>, capacities: seq<nat>)

  datatype Event = Arrive(who: nat, pkg: string) | Tick(game: nat) | Join(game: nat, who: nat)

  ghost predicate WellFormed(w: World) {
    (forall i :: 0 <= i < |w.players| ==> Conserved(w.players[i])) && GoodRosters(w)
  }

  predicate GoodRosters(w: World) {
    |w.capacities| == |w.rosters| && forall g :: 0 <= g < |w.rosters| ==> GoodRoster(w.rosters[g], |w.players|)
  }

  /** Nothing is lost, made up or reordered between arrival and consumption. */
  predicate Conserved(p: Player) {
    p.accepted == p.consumed + p.pending && |p.pending| <= CACHE_SIZE
  }

  predicate GoodRoster(roster: seq<nat>, n: nat) {
    (forall j :: 0 <= j < |roster| ==> roster[j] < n) &&
    (forall j, k :: 0 <= j < k < |roster| ==> roster[j] != roster[k])
  }

  function Pendings(players: seq<Player>, roster: seq<nat>): (queues: seq<seq<string>>)
    requires GoodRoster(roster, |players|)
    ensures |queues| == |roster|
  {
    seq(|roster|, j requires 0 <= j < |roster| => players[roster[j]].pending)
  }

  function Receive(p: Player, pkg: string): Player {
    if |p.pending| < CACHE_SIZE then p.(pending := p.pending + [pkg], accepted := p.accepted + [pkg])
    else p
  }

  function TickPlayer(p: Player, messages: seq<string>): Player {
    Player(p.accepted, p.consumed + Taken(p.pending), Rest(p.pending), p.sent + messages)
  }

  function TickPlayers(players: seq<Player>, roster: seq<nat>): (r: seq<Player>)
    requires GoodRoster(roster, |players|)
    ensures |r| == |players|
  {
    var messages := Messages(Pendings(players, roster));
    seq(|players|, i requires 0 <= i < |players| =>
      if i in roster then TickPlayer(players[i], messages) else players[i])
  }

  /** Events that name no player or game do nothing. */
  function Step(w: World, e: Event): (w': World)
    requires GoodRosters(w)
    ensures |w'.players| == |w.players| && |w'.rosters| == |w.rosters| && GoodRosters(w')
    ensures w'.capacities == w.capacities
  {
    match e
    case Arrive(i, pkg) =>
      if i < |w.players| then w.(players := w.players[i := Receive(w.players[i], pkg)]) else w
    case Tick(g) =>
      if g < |w.rosters| then w.(players := TickPlayers(w.players, w.rosters[g])) else w
    case Join(g, i) =>
      if g < |w.rosters| && i < |w.players| && i !in w.rosters[g] && |w.rosters[g]| < w.capacities[g]
      then w.(rosters := w.rosters[g := w.rosters[g] + [i]]) else w
  }

  function Run(w: World, events: seq<Event>): (w': World)
    requires GoodRosters(w)
    ensures |w'.players| == |w.players| && |w'.rosters| == |w.rosters| && GoodRosters(w')
    ensures w'.capacities == w.capacities
    decreases |events|
  {
    if events == [] then w else Step(Run(w, events[..|events| - 1]), events[|events| - 1])
  }

  /** In every interleaving each player's accepted states are the consumed ones followed by
      the pending ones, and no queue outgrows its storage. */
  lemma {:induction false} RunConserves(w: World, events: seq<Event>)
    requires WellFormed(w)
    ensures WellFormed(Run(w, events))
    decreases |events|
  {
    if events != [] {
      var before := Run(w, events[..|events| - 1]);
      RunConserves(w, events[..|events| - 1]);
      StepConserves(before, events[|events| - 1]);
    }
  }

  lemma StepConserves(w: World, e: Event)
    requires WellFormed(w)
    ensures WellFormed(Step(w, e))
  {
    var w' := Step(w, e);
    forall i | 0 <= i < |w'.players|
      ensures Conserved(w'.players[i])
    {
      var p := w.players[i];
      assert Conserved(p);
      assert p.pending == Taken(p.pending) + Rest(p.pending);
      assert p.consumed + (Taken(p.pending) + Rest(p.pending))
          == (p.consumed + Taken(p.pending)) + Rest(p.pending);
      if e.Arrive? {
        assert (p.consumed + p.pending) + [e.pkg] == p.consumed + (p.pending + [e.pkg]);
      }
    }
  }

  // ----- service order and latency

  /** How many ticks served player i. */
  function Served(w: World, events: seq<Event>, i: nat): (n: nat)
    requires GoodRosters(w)
    decreases |events|
  {
    if events == [] then 0
    else
      var rest, e := events[..|events| - 1], events[|events| - 1];
      var before := Run(w, rest);
      Served(w, rest, i)
      + (if e.Tick? && e.game < |before.rosters| && i in before.rosters[e.game] then 1 else 0)
  }

  /** The packets addressed to player i, in order of arrival. */
  function Packets(events: seq<Event>, i: nat): seq<string>
    decreases |events|
  {
    if events == [] then []
    else
      var rest, e := events[..|events| - 1], events[|events| - 1];
      Packets(rest, i) + (if e.Arrive? && e.who == i then [e.pkg] else [])
  }

  /** t servings lead from p to q: at most one state each, oldest first, and exactly the
      first t of those waiting if there were that many. */
  predicate ServedInOrder(p: Player, q: Player, t: nat) {
    p.consumed <= q.consumed && |q.consumed| <= |p.consumed| + t &&
    (t <= |p.pending| ==>
       q.consumed == p.consumed + p.pending[..t] && p.pending[t..] <= q.pending) &&
    (t > |p.pending| ==> p.consumed + p.pending <= q.consumed)
  }

  /** First in, first out: while t ticks serve a player they take at most one state each,
      and exactly the first t that were waiting if there were that many, whatever arrives
      in between. */
  lemma {:induction false} ServiceOrder(w: World, events: seq<Event>, i: nat)
    requires WellFormed(w) && i < |w.players|
    ensures ServedInOrder(w.players[i], Run(w, events).players[i], Served(w, events, i))
    decreases |events|
  {
    if events != [] {
      var rest, e := events[..|events| - 1], events[|events| - 1];
      ServiceOrder(w, rest, i);
      var before := Run(w, rest);
      if e.Tick? && e.game < |before.rosters| && i in before.rosters[e.game] {
        TickServes(w.players[i], before.players[i], Served(w, rest, i),
                   Messages(Pendings(before.players, before.rosters[e.game])));
      } else if e.Arrive? && e.who == i {
        ArrivalWaits(w.players[i], before.players[i], Served(w, rest, i), e.pkg);
      }
    }
  }

  lemma TickServes(p: Player, q: Player, t: nat, messages: seq<string>)
    requires ServedInOrder(p, q, t)
    ensures ServedInOrder(p, TickPlayer(q, messages), t + 1)
  {
    if t < |p.pending| {
      var waiting := p.pending[t..];
      assert waiting[0] == p.pending[t] && waiting[1..] == p.pending[t + 1..];
      assert p.pending[..t + 1] == p.pending[..t] + [p.pending[t]];
      assert q.pending[0] == waiting[0] && waiting[1..] <= q.pending[1..];
    } else if t == |p.pending| {
      assert p.pending[..t] == p.pending;
    }
  }

  lemma ArrivalWaits(p: Player, q: Player, t: nat, pkg: string)
    requires ServedInOrder(p, q, t)
    ensures ServedInOrder(p, Receive(q, pkg), t)
  {}

  /** Packets are dropped only when the cache is full: if they all fit beside what is
      already waiting, every one is accepted, in order. */
  lemma {:induction false} NothingDropped(w: World, events: seq<Event>, i: nat)
    requires WellFormed(w) && i < |w.players|
    requires |w.players[i].pending| + |Packets(events, i)| <= CACHE_SIZE
    ensures Run(w, events).players[i].accepted == w.players[i].accepted + Packets(events, i)
    ensures |Run(w, events).players[i].pending| <= |w.players[i].pending| + |Packets(events, i)|
    decreases |events|
  {
    if events != [] {
      NothingDropped(w, events[..|events| - 1], i);
    }
  }

  /** A full cache drops the packet and nothing else. */
  lemma DroppedOnlyWhenFull(p: Player, pkg: string)
    requires Conserved(p)
    ensures Receive(p, pkg) == p <==> |p.pending| == CACHE_SIZE
    ensures |p.pending| < CACHE_SIZE ==> Receive(p, pkg).accepted == p.accepted + [pkg]
  {}

  // ----- what players see

  predicate Together(w: World, i: nat, j: nat) {
    forall g :: 0 <= g < |w.rosters| ==> (i in w.rosters[g] <==> j in w.rosters[g])
  }

  /** What a player has been sent since the start of a run. */
  function SentSince(w: World, events: seq<Event>, i: nat): seq<string>
    requires GoodRosters(w)
    requires i < |w.players|
    requires w.players[i].sent <= Run(w, events).players[i].sent
  {
    Run(w, events).players[i].sent[|w.players[i].sent|..]
  }

  lemma {:induction false} SentGrows(w: World, events: seq<Event>, i: nat)
    requires GoodRosters(w)
    requires i < |w.players|
    ensures w.players[i].sent <= Run(w, events).players[i].sent
    decreases |events|
  {
    if events != [] {
      SentGrows(w, events[..|events| - 1], i);
    }
  }

  /** Players that are in the same games all through a run are sent the same messages, in
      the same order. */
  lemma {:induction false} SameBroadcasts(w: World, events: seq<Event>, i: nat, j: nat)
    requires GoodRosters(w)
    requires i < |w.players| && j < |w.players|
    requires forall k :: 0 <= k <= |events| ==> Together(Run(w, events[..k]), i, j)
    ensures w.players[i].sent <= Run(w, events).players[i].sent
    ensures w.players[j].sent <= Run(w, events).players[j].sent
    ensures SentSince(w, events, i) == SentSince(w, events, j)
    decreases |events|
  {
    SentGrows(w, events, i);
    SentGrows(w, events, j);
    if events != [] {
      var rest, e := events[..|events| - 1], events[|events| - 1];
      forall k | 0 <= k <= |rest|
        ensures Together(Run(w, rest[..k]), i, j)
      {
        assert rest[..k] == events[..k];
      }
      SentGrows(w, rest, i);
      SentGrows(w, rest, j);
      SameBroadcasts(w, rest, i, j);
      assert events[..|rest|] == rest;
      var before := Run(w, rest);
      assert Together(before, i, j);
      SentByStep(w, rest, e, i);
      SentByStep(w, rest, e, j);
      assert rest + [e] == events;
    }
  }

  /** The messages one event sends to player i. */
  function StepMessages(w: World, e: Event, i: nat): seq<string>
    requires GoodRosters(w)
  {
    if e.Tick? && e.game < |w.rosters| && i in w.rosters[e.game]
    then Messages(Pendings(w.players, w.rosters[e.game])) else []
  }

  lemma SentByStep(w: World, rest: seq<Event>, e: Event, i: nat)
    requires GoodRosters(w)
    requires i < |w.players|
    requires w.players[i].sent <= Run(w, rest).players[i].sent
    requires w.players[i].sent <= Run(w, rest + [e]).players[i].sent
    ensures SentSince(w, rest + [e], i) == SentSince(w, rest, i) + StepMessages(Run(w, rest), e, i)
  {
    assert (rest + [e])[..|rest|] == rest;
    var n, q := |w.players[i].sent|, Run(w, rest).players[i].sent;
    var m := StepMessages(Run(w, rest), e, i);
    assert Run(w, rest + [e]).players[i].sent == q + m;
    assert (q + m)[n..] == q[n..] + m;
  }

  // ----- what was consumed is what was sent

  function Concat(texts: seq<string>): string {
    if texts == [] then "" else Concat(texts[..|texts| - 1]) + texts[|texts| - 1]
  }

  lemma ConcatNone()
    ensures Concat([]) == ""
  {}

  lemma ConcatOne(texts: seq<string>, more: seq<string>)
    requires |more| <= 1
    ensures Concat(texts + more) == Concat(texts) + (if more == [] then "" else more[0])
  {
    if more == [] {
      assert texts + more == texts;
    } else {
      assert (texts + more)[..|texts|] == texts;
    }
  }

  /** What a player's books gained between two moments. */
  function Gained(before: seq<string>, after: seq<string>): seq<string>
    requires |before| <= |after|
  {
    after[|before|..]
  }

  /** The states some players gave up between two moments, player by player. */
  function GivenUp(before: seq<Player>, after: seq<Player>): (texts: seq<string>)
    requires |before| == |after|
    requires forall i :: 0 <= i < |before| ==> |before[i].consumed| <= |after[i].consumed|
    decreases |before|
  {
    if before == [] then []
    else
      var n := |before| - 1;
      GivenUp(before[..n], after[..n]) + Gained(before[n].consumed, after[n].consumed)
  }

  /** One message for some states: all of them and a terminator, or none if they say nothing. */
  function MessageOf(texts: seq<string>): seq<string> {
    if Concat(texts) == "" then [] else [Concat(texts) + "$"]
  }

  /** The oldest state moves from a player's queue to the consumed ones. */
  predicate OldestTaken(p: Player, q: Player) {
    var n := if p.pending == [] then 0 else 1;
    q.consumed == p.consumed + p.pending[..n] && q.pending == p.pending[n..] && q.accepted == p.accepted
  }

  /** What a tick takes is what it says. */
  lemma {:induction false} CollectedIsTaken(before: seq<Player>, after: seq<Player>, queues: seq<seq<string>>)
    requires |before| == |after| == |queues|
    requires forall i :: 0 <= i < |before| ==>
               after[i].consumed == before[i].consumed + Taken(queues[i])
    ensures Collected(queues) == Concat(GivenUp(before, after))
    decreases |before|
  {
    hide Concat, Taken;
    if before == [] {
      ConcatNone();
    } else {
      var n := |before| - 1;
      CollectedIsTaken(before[..n], after[..n], queues[..n]);
      assert Gained(before[n].consumed, after[n].consumed) == Taken(queues[n]);
      AtMostOne(queues[n]);
      ConcatOne(GivenUp(before[..n], after[..n]), Taken(queues[n]));
    }
  }

  lemma AtMostOne(queue: seq<string>)
    ensures |Taken(queue)| <= 1 && (if Taken(queue) == [] then "" else Taken(queue)[0]) == First(queue)
    ensures Taken(queue) == queue[..if queue == [] then 0 else 1]
    ensures Rest(queue) == queue[if queue == [] then 0 else 1..]
  {}

  function OnRoster(players: seq<Player>, roster: seq<nat>): (r: seq<Player>)
    requires GoodRoster(roster, |players|)
    ensures |r| == |roster|
  {
    seq(|roster|, j requires 0 <= j < |roster| => players[roster[j]])
  }

  /** A tick takes the oldest waiting state of each of its players, and what it writes to
      each of them is exactly what it took, in roster order; nobody else is touched. */
  lemma TickSendsWhatItTakes(ps: seq<Player>, roster: seq<nat>)
    requires GoodRoster(roster, |ps|)
    ensures forall i :: i in roster ==> OldestTaken(ps[i], TickPlayers(ps, roster)[i])
    ensures forall i :: i in roster ==>
              TickPlayers(ps, roster)[i].sent
              == ps[i].sent + MessageOf(GivenUp(OnRoster(ps, roster), OnRoster(TickPlayers(ps, roster), roster)))
    ensures forall i :: 0 <= i < |ps| && i !in roster ==> TickPlayers(ps, roster)[i] == ps[i]
  {
    var after := TickPlayers(ps, roster);
    forall i | 0 <= i < |ps| && i in roster
      ensures OldestTaken(ps[i], after[i])
    {
      AtMostOne(ps[i].pending);
    }
    CollectedIsTaken(OnRoster(ps, roster), OnRoster(after, roster), Pendings(ps, roster));
  }

  /** The messages of one event for player i, told by what the players of the game gave up. */
  function HeardAt(w: World, e: Event, i: nat): seq<string>
    requires GoodRosters(w)
  {
    if e.Tick? && e.game < |w.rosters| && i in w.rosters[e.game] then
      var roster := w.rosters[e.game];
      TickSendsWhatItTakes(w.players, roster);
      MessageOf(GivenUp(OnRoster(w.players, roster), OnRoster(Step(w, e).players, roster)))
    else []
  }

  function Heard(w: World, events: seq<Event>, i: nat): seq<string>
    requires GoodRosters(w)
    decreases |events|
  {
    if events == [] then []
    else
      var rest := events[..|events| - 1];
      Heard(w, rest, i) + HeardAt(Run(w, rest), events[|events| - 1], i)
  }

  lemma HeardStep(w: World, e: Event, i: nat)
    requires GoodRosters(w) && i < |w.players|
    ensures Step(w, e).players[i].sent == w.players[i].sent + HeardAt(w, e, i)
  {
    if e.Tick? && e.game < |w.rosters| {
      TickSendsWhatItTakes(w.players, w.rosters[e.game]);
    }
  }

  /** Over whole runs: a player is sent exactly what the ticks of its games took from their
      players, message by message, and nothing else. */
  lemma {:induction false} SentIsConsumed(w: World, events: seq<Event>, i: nat)
    requires GoodRosters(w) && i < |w.players|
    ensures Run(w, events).players[i].sent == w.players[i].sent + Heard(w, events, i)
    decreases |events|
  {
    if events != [] {
      var rest, e := events[..|events| - 1], events[|events| - 1];
      SentIsConsumed(w, rest, i);
      HeardStep(Run(w, rest), e, i);
    }
  }

  // ----- who plays

  /** Whether event e lets player i into game g. */
  predicate LetsIn(w: World, e: Event, g: nat, i: nat) {
    e == Join(g, i) && i < |w.players| &&
    g < |w.rosters| && g < |w.capacities| && |w.rosters[g]| < w.capacities[g]
  }

  /** Whether some event of a run lets the player in. */
  predicate AskedInTime(w: World, events: seq<Event>, g: nat, i: nat)
    requires GoodRosters(w)
    decreases |events|
  {
    events != [] &&
    var rest := events[..|events| - 1];
    (AskedInTime(w, rest, g, i) || LetsIn(Run(w, rest), events[|events| - 1], g, i))
  }

  /** A roster only grows, at its end, and a player is on it exactly if it was there from the
      start or asked to join while there was room. */
  lemma {:induction false} RosterExact(w: World, events: seq<Event>, g: nat, i: nat)
    requires GoodRosters(w) && g < |w.rosters|
    ensures w.rosters[g] <= Run(w, events).rosters[g]
    ensures i in Run(w, events).rosters[g] <==>
              i in w.rosters[g] || AskedInTime(w, events, g, i)
    ensures |Run(w, events).rosters[g]| <=
              if |w.rosters[g]| <= w.capacities[g] then w.capacities[g] else |w.rosters[g]|
    decreases |events|
  {
    if events != [] {
      var n := |events| - 1;
      var rest := events[..n];
      RosterExact(w, rest, g, i);
      RosterStep(Run(w, rest), events[n], g, i);
    }
  }

  lemma RosterStep(w: World, e: Event, g: nat, i: nat)
    requires GoodRosters(w) && g < |w.rosters|
    ensures w.rosters[g] <= Step(w, e).rosters[g]
    ensures i in Step(w, e).rosters[g] <==> i in w.rosters[g] || LetsIn(w, e, g, i)
    ensures |Step(w, e).rosters[g]| <= |w.rosters[g]| || |Step(w, e).rosters[g]| <= w.capacities[g]
  {}
}
