/** One turn of the game loop for one room (server.js:200-249): buffered
    moves are applied and cleared, the ball flies and bounces off the walls,
    paddles that touch it send it back 5% faster, and a ball past the left or
    right edge gives the other slot a point, credits the leaderboard and is
    reset. */
module GameLoop {
  import opened Common
  import opened Physics
  import opened Leaderboard
  import opened Rooms

  /** Every buffered paddle top copied into its player; nothing else about a
      player changes, and a buffered id without a player is skipped. */
  function ApplyPending(players: map<string, Player>, pending: map<string, real>): (ps: map<string, Player>)
    ensures ps.Keys == players.Keys
    ensures forall k :: k in ps ==>
      ps[k].x == players[k].x && ps[k].id == players[k].id && ps[k].nickname == players[k].nickname
    ensures forall k :: k in ps ==> ps[k].y == if k in pending then pending[k] else players[k].y
  {
    map k | k in players :: if k in pending then players[k].(y := pending[k]) else players[k]
  }

  /** The loop of server.js:204-206 as it is written: `players[id].y = ...`
      throws a TypeError for a buffered id that has no player, which ends the
      timer callback. `None` stands for that exception. */
  function ApplyPendingAsWritten(players: map<string, Player>, pending: map<string, real>): (r: Option<map<string, Player>>)
    ensures r.None? <==> exists k :: k in pending && k !in players
    ensures r.Some? ==> r.value == ApplyPending(players, pending)
  {
    if pending.Keys <= players.Keys then Some(ApplyPending(players, pending)) else None
  }

  /** `Object.keys(pendingUpdates).forEach(...)`, skipping ids without a player. */
  method ApplyMoves(players: map<string, Player>, pending: map<string, real>) returns (ps: map<string, Player>)
    ensures ps == ApplyPending(players, pending)
  {
    ps := players;
    var todo := pending.Keys;
    while todo != {}
      invariant todo <= pending.Keys
      invariant ps.Keys == players.Keys
      invariant forall k :: k in ps ==>
        ps[k] == if k in pending && k !in todo then players[k].(y := pending[k]) else players[k]
      decreases |todo|
    {
      var id :| id in todo;
      if id in ps {
        ps := ps[id := ps[id].(y := pending[id])];
      }
      todo := todo - {id};
    }
  }

  /** `Object.values(players)`: slot ids are integer-like keys, so "0" comes
      before "1". */
  function PlayerList(players: map<string, Player>): seq<Player>
  {
    (if "0" in players then [players["0"]] else []) + (if "1" in players then [players["1"]] else [])
  }

  /** The number of paddles among `ps` that the ball touches. */
  function HitCount(b: Ball, ps: seq<Player>): nat
  {
    if ps == [] then 0
    else (if Collides(b, ps[0].x, ps[0].y) then 1 else 0) + HitCount(b, ps[1..])
  }

  /** The horizontal speed after every touched paddle has bounced the ball:
      each hit reverses it and makes it 5% faster. */
  function PaddleDx(dx: real, b: Ball, ps: seq<Player>): (r: real)
    ensures HitCount(b, ps) == 0 ==> r == dx
    ensures HitCount(b, ps) == 1 ==> r == Bounce(dx)
    ensures Abs(r) >= Abs(dx)
    ensures dx != 0.0 ==> (r > 0.0 <==> ((dx > 0.0) <==> HitCount(b, ps) % 2 == 0))
    ensures dx != 0.0 ==> r != 0.0
    decreases |ps|
  {
    if ps == [] then dx
    else PaddleDx(if Collides(b, ps[0].x, ps[0].y) then Bounce(dx) else dx, b, ps[1..])
  }

  /** The paddle loop of server.js:217-228. */
  method PaddleHits(b: Ball, ps: seq<Player>) returns (dx: real, hit: bool)
    ensures dx == PaddleDx(b.dx, b, ps)
    ensures hit <==> HitCount(b, ps) > 0
  {
    dx, hit := b.dx, false;
    assert ps[0..] == ps;
    for i := 0 to |ps|
      invariant PaddleDx(dx, b, ps[i..]) == PaddleDx(b.dx, b, ps)
      invariant HitCount(b, ps[i..]) <= HitCount(b, ps)
      invariant hit <==> HitCount(b, ps[i..]) < HitCount(b, ps)
    {
      assert ps[i..][1..] == ps[i + 1..];
      if Collides(b, ps[i].x, ps[i].y) {
        dx := Bounce(dx);
        hit := true;
      }
    }
    assert ps[|ps|..] == [];
  }

  /** With paddles at their slots' x and the game's ball, at most one paddle
      is touched in a tick, so a hit reverses `dx` exactly once. */
  lemma AtMostOneHit(b: Ball, players: map<string, Player>)
    requires b.radius == BallRadius
    requires forall k :: k in players ==> players[k].x == SlotX(k)
    ensures HitCount(b, PlayerList(players)) <= 1
  {
    var ps := PlayerList(players);
    if "0" in players && "1" in players {
      assert ps == [players["0"], players["1"]];
      assert ps[1..][1..] == [];
      NoDoubleHit(b, players["0"].y, players["1"].y);
      assert HitCount(b, ps) == HitCount(b, ps[..1]) + HitCount(b, ps[1..]) by {
        assert HitCount(b, ps[1..][1..]) == 0;
      }
    } else if "0" in players || "1" in players {
      assert |ps| == 1 && ps[1..] == [];
    } else {
      assert ps == [];
    }
  }

  /** `updateLeaderboard(room, winnerId)`: a point for the winning slot's
      nickname, or nothing when that slot is empty. */
  function Award(board: seq<Entry>, players: map<string, Player>, winner: string): (r: seq<Entry>)
    ensures winner !in players ==> r == board
    ensures winner in players ==> r == RecordWin(board, players[winner].nickname)
  {
    if winner in players then RecordWin(board, players[winner].nickname) else board
  }

  /** A goal keeps the leaderboard valid. */
  lemma AwardOk(board: seq<Entry>, players: map<string, Player>, winner: string)
    requires BoardOk(board)
    ensures BoardOk(Award(board, players, winner))
    ensures |Award(board, players, winner)| <= Capacity
  {
    if winner in players {
      RecordWinOk(board, players[winner].nickname);
    }
  }

  datatype Stepped = Stepped(room: Room, board: seq<Entry>, hit: bool)

  /** One room's turn of the game loop. */
  function Step(r: Room, board: seq<Entry>, d: Draw): (s: Stepped)
    ensures s.room.players == ApplyPending(r.players, r.pending) && s.room.pending == map[]
    ensures s.room.spectators == r.spectators && s.room.activity == r.activity
    ensures s.room.startTime == r.startTime
    ensures s.hit <==> HitCount(Reflect(Advance(r.ball)), PlayerList(s.room.players)) > 0
    ensures r.ball.x + r.ball.dx < 0.0 ==>
      && s.room.scores == (r.scores.0, r.scores.1 + 1)
      && s.room.ball == Reset(r.ball, d)
      && s.board == Award(board, s.room.players, "1")
    ensures r.ball.x + r.ball.dx > FieldWidth ==>
      && s.room.scores == (r.scores.0 + 1, r.scores.1)
      && s.room.ball == Reset(r.ball, d)
      && s.board == Award(board, s.room.players, "0")
    ensures 0.0 <= r.ball.x + r.ball.dx <= FieldWidth ==>
      && s.room.scores == r.scores && s.board == board
      && s.room.ball.x == r.ball.x + r.ball.dx
      && s.room.ball.y == r.ball.y + r.ball.dy
      && s.room.ball.radius == r.ball.radius
      && s.room.ball.dy == (if OutsideWalls(Advance(r.ball)) then -r.ball.dy else r.ball.dy)
      && s.room.ball.dx == PaddleDx(r.ball.dx, Reflect(Advance(r.ball)), PlayerList(s.room.players))
  {
    var players := ApplyPending(r.players, r.pending);
    var flown := Reflect(Advance(r.ball));
    var ps := PlayerList(players);
    var ball := flown.(dx := PaddleDx(flown.dx, flown, ps));
    var hit := HitCount(flown, ps) > 0;
    var r1 := r.(players := players, pending := map[], ball := ball);
    if ball.x < 0.0 then
      Stepped(r1.(scores := (r.scores.0, r.scores.1 + 1), ball := Reset(ball, d)), Award(board, players, "1"), hit)
    else if ball.x > FieldWidth then
      Stepped(r1.(scores := (r.scores.0 + 1, r.scores.1), ball := Reset(ball, d)), Award(board, players, "0"), hit)
    else
      Stepped(r1, board, hit)
  }

  /** The game-loop body for one room, field by field (server.js:201-240). */
  method TickRoom(r: Room, board: seq<Entry>, d: Draw) returns (r': Room, board': seq<Entry>, hit: bool)
    ensures Stepped(r', board', hit) == Step(r, board, d)
  {
    var players := ApplyMoves(r.players, r.pending);
    var ball := r.ball;
    ball := ball.(x := ball.x + ball.dx);
    ball := ball.(y := ball.y + ball.dy);
    if ball.y + ball.radius > FieldHeight || ball.y - ball.radius < 0.0 {
      ball := ball.(dy := -ball.dy);
    }
    ghost var flown := Reflect(Advance(r.ball));
    assert ball == flown;
    var dx;
    dx, hit := PaddleHits(ball, PlayerList(players));
    ball := ball.(dx := dx);
    ghost var s := Step(r, board, d);
    assert ball == flown.(dx := PaddleDx(flown.dx, flown, PlayerList(players)));
    var scores := r.scores;
    board' := board;
    if ball.x < 0.0 {
      scores := (scores.0, scores.1 + 1);
      board' := Award(board, players, "1");
      ball := Reset(ball, d);
    } else if ball.x > FieldWidth {
      scores := (scores.0 + 1, scores.1);
      board' := Award(board, players, "0");
      ball := Reset(ball, d);
    }
    assert scores == s.room.scores && ball == s.room.ball && board' == s.board;
    r' := r.(players := players, pending := map[], ball := ball, scores := scores);
  }

  /** A turn of the game loop keeps the room valid, keeps its participants,
      and keeps the leaderboard valid. In particular the ball's centre never
      leaves the field: it is reset once it passes the left or right edge,
      and the walls keep it within [5, 395] vertically. */
  lemma StepOk(r: Room, board: seq<Entry>, d: Draw)
    requires RoomOk(r) && BoardOk(board)
    ensures var s := Step(r, board, d);
      && RoomOk(s.room) && BoardOk(s.board)
      && s.room.players.Keys == r.players.Keys
      && s.room.spectators == r.spectators
  {
    var s := Step(r, board, d);
    FlightKeepsHeight(r.ball);
    ResetOk(r.ball, d);
    var players := ApplyPending(r.players, r.pending);
    if "1" in players {
      RecordWinOk(board, players["1"].nickname);
    }
    if "0" in players {
      RecordWinOk(board, players["0"].nickname);
    }
  }

  /** A paddle hit in a tick without a goal reverses the ball's horizontal
      direction and makes it 5% faster; without a hit `dx` is unchanged. */
  lemma StepHit(r: Room, board: seq<Entry>, d: Draw)
    requires RoomOk(r)
    requires 0.0 <= r.ball.x + r.ball.dx <= FieldWidth
    ensures var s := Step(r, board, d);
      && (s.hit ==> s.room.ball.dx == Bounce(r.ball.dx) && (s.room.ball.dx > 0.0 <==> r.ball.dx < 0.0))
      && (!s.hit ==> s.room.ball.dx == r.ball.dx)
  {
    var s := Step(r, board, d);
    AtMostOneHit(Reflect(Advance(r.ball)), s.room.players);
  }
}
