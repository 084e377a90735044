/** The state of one room (server.js:69-81) and the changes that join, move,
    chat, disconnect and the idle sweep make to it (server.js:98-139,
    155-194). A room is a value here; the server keeps it in its map of
    rooms and replaces it after every change. */
module Rooms {
  import opened Common
  import opened Physics

  /** `{x, y, id, nickname}`; `x` is fixed by the slot, `y` is the paddle top. */
  datatype Player = Player(x: real, y: real, id: string, nickname: string)

  datatype Room = Room(
    players: map<string, Player>,      // slot id -> player
    spectators: map<string, string>,   // spectator id -> nickname
    ball: Ball,
    scores: (int, int),                // points of slot "0" and of slot "1"
    activity: map<string, int>,        // participant id -> time of its last message
    startTime: int,
    pending: map<string, real>)        // slot id -> requested paddle top

  /** A participant silent for longer than this many milliseconds is removed. */
  const IdleLimit: int := 15000
  /** Paddle top of a player who has just joined. */
  const StartY: real := 170.0

  /** `createRoom`'s initial value. */
  function NewRoom(now: int): Room
  {
    Room(map[], map[], StartBall, (0, 0), map[], now, map[])
  }

  /** Slot "0" plays on the left, every other slot on the right. */
  function SlotX(id: string): real
  {
    if id == "0" then LeftPaddleX else RightPaddleX
  }

  /** `` `s_${count}` `` */
  function SpectatorId(n: nat): string
  {
    "s_" + Decimal(n)
  }

  predicate IsSpectatorId(k: string)
  {
    |k| > 2 && k[0] == 's' && k[1] == '_'
  }

  /** The invariant every room of the server keeps: only slots "0" and "1",
      each paddle at its slot's x and within the field, spectator ids of the
      form s_<n>, buffered moves within the field, non-negative scores, and a
      ball that obeys `BallOk`. */
  ghost predicate RoomOk(r: Room)
  {
    && r.players.Keys <= {"0", "1"}
    && (forall k :: k in r.players ==>
          r.players[k].id == k && r.players[k].x == SlotX(k) && 0.0 <= r.players[k].y <= PaddleTop)
    && (forall k :: k in r.spectators ==> IsSpectatorId(k))
    && (forall k :: k in r.pending ==> 0.0 <= r.pending[k] <= PaddleTop)
    && r.scores.0 >= 0 && r.scores.1 >= 0
    && BallOk(r.ball)
  }

  /** No players and no spectators: the server deletes such a room. */
  predicate Deserted(r: Room)
  {
    r.players == map[] && r.spectators == map[]
  }

  lemma NewRoomOk(now: int)
    ensures RoomOk(NewRoom(now)) && Deserted(NewRoom(now))
  {
    ResetOk(StartBall, Draw(true, true));
  }

  /** A room never holds more than two players. */
  lemma AtMostTwoPlayers(r: Room)
    requires RoomOk(r)
    ensures |r.players| <= 2
  {
    var ks := r.players.Keys;
    if "0" in ks && "1" in ks {
      assert ks == {"0", "1"};
    } else if "0" in ks {
      assert ks == {"0"};
    } else if "1" in ks {
      assert ks == {"1"};
    } else {
      assert ks == {};
    }
  }

  datatype Admission = Full | Admitted(room: Room, id: string)

  /** The join branch of the message handler, once the room exists
      (server.js:104-121): a player gets the current player count as slot id
      unless the room already has two players; a spectator gets s_<count>.
      The new participant's activity is stamped. */
  function Admit(r: Room, nickname: string, spectator: bool, now: int): (a: Admission)
    ensures a.Full? <==> !spectator && |r.players| >= 2
    ensures a.Admitted? ==>
      && a.room.ball == r.ball && a.room.scores == r.scores
      && a.room.pending == r.pending && a.room.startTime == r.startTime
      && a.room.activity == r.activity[a.id := now]
    ensures a.Admitted? && !spectator ==>
      && a.id == (if |r.players| == 0 then "0" else "1")
      && a.room.spectators == r.spectators
      && a.room.players == r.players[a.id := Player(SlotX(a.id), StartY, a.id, nickname)]
    ensures a.Admitted? && spectator ==>
      && a.id == SpectatorId(|r.spectators|) && IsSpectatorId(a.id)
      && a.room.players == r.players
      && a.room.spectators == r.spectators[a.id := nickname]
  {
    if !spectator && |r.players| >= 2 then Full
    else
      var id := if spectator then SpectatorId(|r.spectators|) else Decimal(|r.players|);
      var r1 := if spectator then r.(spectators := r.spectators[id := nickname])
                else r.(players := r.players[id := Player(SlotX(id), StartY, id, nickname)]);
      Admitted(r1.(activity := r1.activity[id := now]), id)
  }

  /** An admitted participant leaves the room valid and not deserted; a
      player's slot stays within {"0", "1"}, so there are never more than
      two players. */
  lemma AdmitOk(r: Room, nickname: string, spectator: bool, now: int)
    requires RoomOk(r)
    requires Admit(r, nickname, spectator, now).Admitted?
    ensures var a := Admit(r, nickname, spectator, now);
      RoomOk(a.room) && !Deserted(a.room) && |a.room.players| <= 2
  {
    var a := Admit(r, nickname, spectator, now);
    if spectator {
      assert a.id in a.room.spectators;
    } else {
      assert a.id in a.room.players;
    }
    AtMostTwoPlayers(a.room);
  }

  /** The slot id is a count, not a free slot: when slot "0" has left and
      slot "1" stays, the next player is also given "1" and replaces the
      player there. */
  lemma SlotReuse(r: Room, nickname: string, now: int)
    requires r.players.Keys == {"1"}
    ensures var a := Admit(r, nickname, false, now);
      && a.Admitted? && a.id == "1"
      && a.room.players.Keys == {"1"}
      && a.room.players["1"].nickname == nickname
  {
  }

  /** Spectator ids are counts too: when s_0 has left and s_1 stays, the next
      spectator is also given s_1 and replaces the one there. */
  lemma SpectatorIdReuse(r: Room, nickname: string, now: int)
    requires r.spectators.Keys == {"s_1"}
    ensures var a := Admit(r, nickname, true, now);
      && a.Admitted? && a.id == "s_1"
      && a.room.spectators == map["s_1" := nickname]
  {
    assert |r.spectators| == 1;
    assert Decimal(1) == "1";
  }

  /** The move branch (server.js:125-127): the clamped paddle top is buffered
      for the slot and the slot's activity is stamped. */
  function BufferMove(r: Room, id: string, y: real, now: int): (r': Room)
    ensures r'.pending.Keys == r.pending.Keys + {id}
    ensures r'.pending[id] == Clamp(y) && 0.0 <= r'.pending[id] <= PaddleTop
    ensures 0.0 <= y <= PaddleTop ==> r'.pending[id] == y
    ensures y < 0.0 ==> r'.pending[id] == 0.0
    ensures y > PaddleTop ==> r'.pending[id] == PaddleTop
    ensures forall k :: k in r.pending && k != id ==> r'.pending[k] == r.pending[k]
    ensures r'.activity == r.activity[id := now]
    ensures r'.players == r.players && r'.spectators == r.spectators && r'.ball == r.ball
    ensures r'.scores == r.scores && r'.startTime == r.startTime
  {
    r.(pending := r.pending[id := Clamp(y)], activity := r.activity[id := now])
  }

  /** Within one tick the last move wins: a second move for the same slot
      replaces the first one's buffered value and time stamp. */
  lemma LastMoveWins(r: Room, id: string, y1: real, y2: real, t1: int, t2: int)
    ensures BufferMove(BufferMove(r, id, y1, t1), id, y2, t2) == BufferMove(r, id, y2, t2)
  {
  }

  lemma BufferMoveOk(r: Room, id: string, y: real, now: int)
    requires RoomOk(r)
    ensures RoomOk(BufferMove(r, id, y, now))
  {
  }

  /** A chat message only stamps the sender's activity (server.js:133, 139). */
  function Touch(r: Room, id: string, now: int): (r': Room)
    ensures r'.activity.Keys == r.activity.Keys + {id} && r'.activity[id] == now
    ensures forall k :: k in r.activity && k != id ==> r'.activity[k] == r.activity[k]
    ensures r' == r.(activity := r'.activity)
  {
    r.(activity := r.activity[id := now])
  }

  /** A chat message keeps the room valid. */
  lemma TouchOk(r: Room, id: string, now: int)
    requires RoomOk(r)
    ensures RoomOk(Touch(r, id, now)) && Deserted(Touch(r, id, now)) == Deserted(r)
  {
  }

  /** A participant who has just sent a message is not idle for the next
      15 seconds, and a message never makes anyone else idle. */
  lemma TouchKeepsAlive(r: Room, id: string, now: int, later: int)
    requires later - now <= IdleLimit
    ensures id !in Expired(Touch(r, id, now), later)
    ensures Expired(Touch(r, id, now), later) <= Expired(r, later)
  {
  }

  /** `handleDisconnect` on an existing room (server.js:158-165): the
      participant is removed from the map its connection was registered in
      (a player also loses its buffered move), its activity record goes, and
      the ball is reset. */
  function Leave(r: Room, id: string, spectator: bool, d: Draw): (r': Room)
    ensures id !in r'.activity
    ensures spectator ==> id !in r'.spectators && r'.players == r.players && r'.pending == r.pending
    ensures !spectator ==> id !in r'.players && id !in r'.pending && r'.spectators == r.spectators
    ensures r'.players.Keys == r.players.Keys - (if spectator then {} else {id})
    ensures r'.spectators.Keys == r.spectators.Keys - (if spectator then {id} else {})
    ensures r'.activity.Keys == r.activity.Keys - {id}
    ensures r'.activity == r.activity - {id}
    ensures spectator ==> r'.spectators == r.spectators - {id}
    ensures !spectator ==> r'.players == r.players - {id} && r'.pending == r.pending - {id}
    ensures r'.ball == Reset(r.ball, d) && r'.scores == r.scores && r'.startTime == r.startTime
  {
    var r1 := if spectator then r.(spectators := r.spectators - {id})
              else r.(players := r.players - {id}, pending := r.pending - {id});
    r1.(activity := r1.activity - {id}, ball := Reset(r1.ball, d))
  }

  lemma LeaveOk(r: Room, id: string, spectator: bool, d: Draw)
    requires RoomOk(r)
    ensures RoomOk(Leave(r, id, spectator, d))
  {
    ResetOk(r.ball, d);
  }

  /** The participants whose last message is older than the idle limit. */
  function Expired(r: Room, now: int): (e: set<string>)
    ensures e <= r.activity.Keys
    ensures forall id :: id in r.activity ==> (id in e <==> now - r.activity[id] > IdleLimit)
  {
    set id | id in r.activity && now - r.activity[id] > IdleLimit
  }

  /** Idleness only grows with time: whoever is idle now is idle later too,
      and nobody is idle before the idle limit has passed since their last
      message. */
  lemma ExpiredGrows(r: Room, now: int, later: int)
    requires now <= later
    ensures Expired(r, now) <= Expired(r, later)
    ensures forall id :: id in r.activity && r.activity[id] >= now - IdleLimit ==> id !in Expired(r, now)
  {
  }

  /** One turn of the sweep's inner loop for an idle id (server.js:180-187). */
  function RemoveIdle(r: Room, id: string, d: Draw): Room
  {
    var r1 := if id in r.players then r.(players := r.players - {id}, pending := r.pending - {id})
              else if id in r.spectators then r.(spectators := r.spectators - {id})
              else r;
    r1.(activity := r1.activity - {id}, ball := Reset(r1.ball, d))
  }

  /** The room after the idle ids `ids` have each been removed, in any order. */
  function Evict(r: Room, ids: set<string>, d: Draw): Room
  {
    r.(players := r.players - ids,
       pending := r.pending - (ids * r.players.Keys),
       spectators := r.spectators - (ids - r.players.Keys),
       activity := r.activity - ids,
       ball := if ids == {} then r.ball else Reset(r.ball, d))
  }

  /** The room after the idle sweep has looked at all of its activity records. */
  function Reap(r: Room, now: int, d: Draw): Room
  {
    Evict(r, Expired(r, now), d)
  }

  lemma EvictNone(r: Room, d: Draw)
    ensures Evict(r, {}, d) == r
  {
    assert r.players - {} == r.players;
    assert r.pending - {} == r.pending;
    assert r.spectators - {} == r.spectators;
    assert r.activity - {} == r.activity;
  }

  /** Removing one more idle id is the same as one more turn of the loop. */
  lemma EvictStep(r: Room, done: set<string>, id: string, d: Draw)
    requires id !in done
    ensures Evict(r, done + {id}, d) == RemoveIdle(Evict(r, done, d), id, d)
  {
    if id in r.players {
      EvictPlayer(r, done, id, d);
    } else if id in r.spectators {
      EvictSpectator(r, done, id, d);
    } else {
      EvictNeither(r, done, id, d);
    }
  }

  lemma EvictPlayer(r: Room, done: set<string>, id: string, d: Draw)
    requires id !in done && id in r.players
    ensures Evict(r, done + {id}, d) == RemoveIdle(Evict(r, done, d), id, d)
  {
    var a := Evict(r, done, d);
    var c := Evict(r, done + {id}, d);
    assert (done + {id}) * r.players.Keys == done * r.players.Keys + {id};
    assert (done + {id}) - r.players.Keys == done - r.players.Keys;
    assert c.players == a.players - {id};
    assert c.pending == a.pending - {id};
    assert c.spectators == a.spectators;
    assert c.activity == a.activity - {id};
  }

  lemma EvictSpectator(r: Room, done: set<string>, id: string, d: Draw)
    requires id !in done && id !in r.players && id in r.spectators
    ensures Evict(r, done + {id}, d) == RemoveIdle(Evict(r, done, d), id, d)
  {
    var a := Evict(r, done, d);
    var c := Evict(r, done + {id}, d);
    assert (done + {id}) * r.players.Keys == done * r.players.Keys;
    assert (done + {id}) - r.players.Keys == (done - r.players.Keys) + {id};
    assert c.players == a.players;
    assert c.pending == a.pending;
    assert c.spectators == a.spectators - {id};
    assert c.activity == a.activity - {id};
  }

  lemma EvictNeither(r: Room, done: set<string>, id: string, d: Draw)
    requires id !in done && id !in r.players && id !in r.spectators
    ensures Evict(r, done + {id}, d) == RemoveIdle(Evict(r, done, d), id, d)
  {
    var a := Evict(r, done, d);
    var c := Evict(r, done + {id}, d);
    assert (done + {id}) * r.players.Keys == done * r.players.Keys;
    assert c.players == a.players;
    assert c.pending == a.pending;
    assert c.spectators == a.spectators;
    assert c.activity == a.activity - {id};
  }

  /** The sweep's inner loop over one room's activity records
      (server.js:178-190). */
  method ReapRoom(r: Room, now: int, d: Draw) returns (r': Room)
    ensures r' == Reap(r, now, d)
  {
    r' := r;
    var todo := r.activity.Keys;
    EvictNone(r, d);
    assert Expired(r, now) - todo == {};
    while todo != {}
      invariant todo <= r.activity.Keys
      invariant r' == Evict(r, Expired(r, now) - todo, d)
      decreases |todo|
    {
      var id :| id in todo;
      ReapTurn(r, now, todo, id, d);
      assert id in r'.activity && r'.activity[id] == r.activity[id];
      if now - r'.activity[id] > IdleLimit {
        r' := RemoveIdle(r', id, d);
      }
      todo := todo - {id};
    }
    assert Expired(r, now) - todo == Expired(r, now);
  }

  /** Looking at one more activity record of the sweep's inner loop. */
  lemma ReapTurn(r: Room, now: int, todo: set<string>, id: string, d: Draw)
    requires id in todo && todo <= r.activity.Keys
    ensures var before := Evict(r, Expired(r, now) - todo, d);
      Evict(r, Expired(r, now) - (todo - {id}), d)
      == if now - r.activity[id] > IdleLimit then RemoveIdle(before, id, d) else before
  {
    var done := Expired(r, now) - todo;
    if now - r.activity[id] > IdleLimit {
      assert Expired(r, now) - (todo - {id}) == done + {id};
      EvictStep(r, done, id, d);
    } else {
      assert Expired(r, now) - (todo - {id}) == done;
    }
  }

  /** After the sweep no idle participant is left in the room: each one has
      lost its entry, its activity record and (a player) its buffered move,
      everyone else is kept, and the ball is reset when anyone was removed. */
  lemma ReapClearsIdle(r: Room, now: int, d: Draw)
    requires RoomOk(r)
    ensures var r' := Reap(r, now, d);
      && RoomOk(r')
      && r'.players.Keys == r.players.Keys - Expired(r, now)
      && r'.spectators.Keys == r.spectators.Keys - Expired(r, now)
      && r'.activity.Keys == r.activity.Keys - Expired(r, now)
      && (forall id :: id in r'.activity ==> now - r'.activity[id] <= IdleLimit)
      && (forall id :: id in r'.pending ==> id !in Expired(r, now) || id !in r.players)
      && (Expired(r, now) != {} ==> r'.ball == Reset(r.ball, d))
      && r'.scores == r.scores
  {
    var e := Expired(r, now);
    var r' := Reap(r, now, d);
    forall k | k in r.spectators
      ensures k !in r.players
    {
      assert IsSpectatorId(k);
    }
    assert r'.spectators.Keys == r.spectators.Keys - e;
    ResetOk(r.ball, d);
  }
}
