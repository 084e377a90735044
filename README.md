# Pong room server: a Dafny model

This project models the authoritative state of `server.js`, the WebSocket server of a
two-player paddle game with spectators. It also proves properties of that model.

What the model covers:

- The server keeps a `rooms` object. Each room holds:
  - the players in slots "0" and "1";
  - the spectators, with ids `s_<n>`;
  - the ball and the two scores;
  - a last-activity time stamp per participant;
  - the paddle moves buffered since the last game tick;
  - the room's start time.
- It also keeps the leaderboard list, and each connection's remembered nickname, room, role and id.

`PongServer.Server` is a class with these as fields (`rooms`, `order`, `board`, `conns`). Its
methods are the message branches and the two timers:

- `CreateRoom`, `Join`, `Move`, `Chat`, `SpectatorChat`, `GetRooms`, `Disconnect`;
- the idle sweep `Sweep`, every second;
- the game loop `Tick`, 30 times a second;
- `ResetLeaderboard`.

Each method states its whole new state. It keeps `Valid()`:

- the key order lists every room once;
- every room keeps `RoomOk`: slot keys within {"0", "1"}, paddles at their slot's x and inside the field, spectator ids starting with `s_` and longer than the prefix, and a ball whose centre stays inside the field;
- the leaderboard is ranked by score, has one entry per nickname, positive scores, and at most ten entries.

After a join, a disconnect, a sweep or a tick, no room is left with neither players nor
spectators.

The pieces below the class are values and functions:

| module | what it models |
|---|---|
| `Physics` | ball flight, wall reflection, paddle collision and `resetBall` |
| `Rooms` | the per-room transitions: join, move, chat, leave and idle eviction |
| `GameLoop` | one room's turn of the game loop |
| `Leaderboard` | `updateLeaderboard` |
| `Broadcast` | who a broadcast reaches, and the room directory |

The loops of the source are methods proved against these functions:

- `Rooms.ReapRoom` is the sweep's inner loop.
- `PongServer.Server.ReapAll` is the sweep's outer loop.
- `GameLoop.ApplyMoves` is the buffered-move loop.
- `GameLoop.PaddleHits` is the paddle loop.
- `GameLoop.TickRoom` is one room's game-loop body.
- `PongServer.Server.Tick` is the loop over rooms.

`server.js` has none of these, and neither does the model:

- session tokens and reconnection to a held slot;
- a hit debounce;
- a speed clamp;
- a pause while fewer than two players are present.

In the code, a disconnect removes the participant at once, except in a room named "" (server.js:157),
where nothing changes (`PongServer.EmptyRoomIgnored`). The slot id is the current player
count, so a join can overwrite a player who is still there (`Rooms.SlotReuse`); spectator ids
can collide the same way (`Rooms.SpectatorIdReuse`). The model keeps these behaviours as
written.

## Model

| member | source | states |
|---|---|---|
| Common.OrDefault | server.js:99-100 | `raw \|\| fallback` on a string never yields an empty string when the fallback is non-empty |
| Common.Truncate | server.js:99-100 | `slice(0, n)`: the longest prefix of length at most n |
| Common.Decimal | server.js:111 | `toString()` of a count: decimal digits only, a single digit exactly below 10 |
| Common.DecimalInjective | server.js:111 | different player counts give different slot ids |
| PongServer.NameOf | server.js:99-100 | `sanitizeHtml(raw \|\| fallback).slice(0, 20)` for any sanitiser: a prefix of at most 20 characters of the cleaned text, whole when it fits, and empty exactly when the cleaned text is empty |
| PongServer.NameOfPlain | server.js:99-100 | for text the sanitiser keeps as it is, the name is never empty: the fallback ("Widz" or "default") for a missing value, otherwise a prefix of the value sent, whole when it fits |
| PongServer.CleanedAway | server.js:100 | a value sent that the sanitiser removes entirely gives the empty name; the default does not replace it |
| Physics.Clamp | server.js:126 | the buffered paddle top lies in [0, 340], equals the request when the request is inside, and is 0 or 340 when it is outside |
| Physics.Reflect | server.js:213-215 | wall reflection keeps x, y, dx and radius, keeps \|dy\|, and flips dy exactly when the ball lies beyond a wall |
| Physics.Bounce | server.js:225 | a paddle hit reverses the sign of dx and multiplies \|dx\| by 1.05 |
| Physics.Reset | server.js:252-258 | the reset ball is at (400, 200) with \|dx\| = \|dy\| = 5, its signs come from the two draws, and its radius is kept |
| Physics.ResetOk | server.js:252-258 | a reset ball satisfies the ball invariant |
| Physics.FlightKeepsHeight | server.js:210-215 | flight (`Advance`) plus wall reflection keeps the ball's centre within [5, 395] on the 5-unit grid, with \|dy\| = 5 |
| Physics.NoDoubleHit | server.js:218-228 | the game's ball cannot touch (`Collides`) both the left and the right paddle in one tick |
| Leaderboard.Find | server.js:313 | `find` by nickname: the first matching position, or the length when no entry matches |
| Leaderboard.Insert | server.js:319 | one insertion step of the stable sort: one more element, same multiset |
| Leaderboard.SortByScore | server.js:319 | the sort is a permutation |
| Leaderboard.RecordWin | server.js:309-323 | the list after a win has at most ten entries |
| Leaderboard.InsertSorted | server.js:319 | insertion keeps the list ranked |
| Leaderboard.InsertUnique | server.js:319 | insertion of a new nickname keeps nicknames unique |
| Leaderboard.InsertStable | server.js:319 | insertion keeps the order among equal scores and puts the new entry first among its score |
| Leaderboard.SortSorted | server.js:319 | the sort ranks by non-increasing score |
| Leaderboard.SortStable | server.js:319 | the sort is stable: equal scores keep their input order |
| Leaderboard.SortUnique | server.js:319 | the sort keeps nicknames unique |
| Leaderboard.SortOfSorted | server.js:319 | sorting a ranked list changes nothing |
| Leaderboard.SortPositive | server.js:319 | the sort keeps every score positive |
| Leaderboard.TopOk | server.js:320 | `Top`, the first ten of a ranked, unique, positive list are a valid leaderboard |
| Leaderboard.RecordWinOk | server.js:309-323 | a win keeps the leaderboard ranked, unique, positive and at most ten long |
| Leaderboard.CreditKnown | server.js:313-315 | `Credit` of a listed nickname raises exactly its entry by one point and leaves every other entry in place |
| Leaderboard.RecordWinKnown | server.js:313-320 | for a listed nickname the list keeps its length and holds exactly the credited entries, ranked by score, with tied entries in their earlier order |
| Leaderboard.RecordWinNewcomer | server.js:316-320 | a new nickname is appended with one point when the list has room; on a full list of ten it is cut off and the list is unchanged |
| Leaderboard.ResetThenTwoWins | server.js:309-323 | after a reset, two wins for one nickname leave exactly that entry with two points |
| Rooms.NewRoomOk | server.js:69-81 | a new room is valid and has no participants |
| Rooms.AtMostTwoPlayers | server.js:104-112 | a valid room holds at most two players |
| Rooms.Admit | server.js:104-121 | a player join is refused exactly when two players are present; otherwise the slot is the player count ("0" or "1") at its side's x and y = 170; a spectator gets the id `s_<spectator count>`; the newcomer is added to its role's map with its nickname, its activity is stamped, and nothing else changes |
| Rooms.AdmitOk | server.js:104-121 | an admitted participant leaves the room valid, not deserted, with at most two players |
| Rooms.SlotReuse | server.js:105-112 | with only slot "1" present, the next player is also given "1" and replaces that player |
| Rooms.SpectatorIdReuse | server.js:114-115 | with only `s_1` present, the next spectator is also given `s_1` and replaces that spectator |
| Rooms.BufferMove | server.js:125-127 | a move buffers `Clamp(y)` for the slot: y itself inside [0, 340], 0 below, 340 above; other buffered moves are kept, the activity is stamped and nothing else changes |
| Rooms.LastMoveWins | server.js:126-127 | two moves for one slot within a tick leave only the second |
| Rooms.BufferMoveOk | server.js:126 | buffering a move keeps the room valid |
| Rooms.Touch | server.js:133 | a chat message stamps the sender's activity with now, keeps every other activity record and changes nothing else |
| Rooms.TouchOk | server.js:133 | a chat message keeps the room valid and does not change whether it is deserted |
| Rooms.TouchKeepsAlive | server.js:133 | a participant who has just chatted is not idle for the next 15000 ms, and chatting makes nobody else idle |
| Rooms.Leave | server.js:158-165 | a disconnect removes exactly the id from its role's map and leaves the other map as it was (a player also loses exactly its buffered move), removes exactly its activity record, resets the ball, and keeps scores and start time |
| Rooms.LeaveOk | server.js:158-165 | a disconnect keeps the room valid |
| Rooms.ExpiredGrows | server.js:179 | idleness (`Expired`) only grows with time, and an id whose last activity is at most 15000 ms old is not idle |
| Rooms.EvictNone | server.js:178-190 | a sweep that finds no idle id leaves the room unchanged |
| Rooms.EvictStep | server.js:180-187 | removing the idle ids one by one (`RemoveIdle`) gives the same room as removing them all at once |
| Rooms.ReapRoom | server.js:178-190 | the inner sweep loop computes `Reap` (`Evict` of the `Expired` ids): it leaves the room with all its idle ids evicted, whatever order it visits them in |
| Rooms.ReapClearsIdle | server.js:178-190 | after the sweep each idle id has lost its entry, activity record and buffered move; everyone else stays; the ball is reset when anyone went; the room stays valid |
| GameLoop.ApplyPending | server.js:204-207 | every buffered y is copied into its player; no other player field changes, and no player is added or removed |
| GameLoop.ApplyMoves | server.js:204-207 | the buffered-move loop computes `ApplyPending` |
| GameLoop.PaddleDx | server.js:217-228 | with no hit dx is kept; with one hit it is bounced once; \|dx\| never shrinks; an odd number of hits reverses its sign |
| GameLoop.PaddleHits | server.js:217-228 | the paddle loop computes `PaddleDx`, and `hit` holds exactly when some paddle is touched |
| GameLoop.AtMostOneHit | server.js:217-228 | with the game's paddles and ball, at most one paddle is touched per tick |
| GameLoop.AwardOk | server.js:309-323 | `Award`, a goal's leaderboard update (nothing for an empty winning slot, otherwise a win for the slot's nickname), keeps the leaderboard valid |
| GameLoop.Step | server.js:201-240 | a room's turn: moves applied and cleared; a ball past x < 0 gives slot 1 a point and a reset; past x > 800 slot 0 gets a point and a reset; otherwise the ball flies, reflects off the walls and bounces off the touched paddles |
| GameLoop.TickRoom | server.js:201-240 | the game-loop body, field by field, computes `Step` |
| GameLoop.StepOk | server.js:201-240 | a turn keeps the room and the leaderboard valid and keeps the room's participants |
| GameLoop.StepHit | server.js:217-228 | without a goal, a hit reverses dx and makes it 5% faster; without a hit dx is unchanged |
| Broadcast.RoomRecipientsAsWritten | server.js:261-272 | the room broadcast as written reaches exactly the open sockets whose stored id is a participant id of the room, whatever room they joined; nothing for a missing room |
| Broadcast.SpectatorRecipientsAsWritten | server.js:274-285 | the spectator broadcast as written reaches exactly the open sockets whose stored id is a spectator id of the room, a subset of the room broadcast; nothing for a missing room |
| Broadcast.RoomRecipients | server.js:261-272 | the corrected room broadcast also checks the socket's stored room |
| Broadcast.SpectatorRecipients | server.js:274-285 | the corrected spectator broadcast also checks the socket's stored room, and reaches a subset of the room broadcast |
| Broadcast.RecipientsDisjoint | server.js:261-272 | corrected broadcasts to two different rooms never reach the same socket |
| Broadcast.CrossRoomLeak | server.js:264 | as written, a player of room B with slot "0" receives room A's broadcasts |
| Broadcast.CrossRoomSpectatorLeak | server.js:277 | as written, spectator `s_0` of room B receives room A's spectator chat |
| PongServer.DirectoryCovers | server.js:288-292 | with a consistent key order, the directory (`Directory`) has one entry per room and names every room and nothing else |
| PongServer.DirectoryDistinct | server.js:288-292 | with a consistent key order, the directory names no room twice |
| PongServer.DirectoryLively | server.js:288-292 | when no room is deserted, every room in the directory has a player or a spectator |
| PongServer.KeepInElements | server.js:191-193 | deleting rooms keeps the key order of the remaining rooms, each once |
| PongServer.TickAllOk | server.js:199-250 | the game loop (`TickAll`) keeps every room and its participants, keeps every room and the leaderboard valid, and keeps rooms non-deserted |
| PongServer.Swept | server.js:177-195 | after a sweep a room remains exactly when it is not deserted once its idle ids are evicted, and it is then the reaped room |
| PongServer.SweepOverSome | server.js:177-195 | visiting the room names in key order, one at a time, gives the same rooms as `Swept` |
| PongServer.Vacated | server.js:157-169 | the corrected disconnect, for any room name: a joined socket's id leaves the map its role names, and the room is deleted exactly when it is then empty, otherwise replaced by the room after `Leave`; nothing changes for a socket that joined no existing room |
| PongServer.EmptyRoomIgnored | server.js:157 | as written (`Departed`), the disconnect of a participant of room "" changes nothing, while `Vacated` removes it |
| PongServer.DepartedOk | server.js:155-172 | a disconnect (`Departed`) keeps the rooms valid, non-deserted and consistently ordered |
| PongServer.SweptOk | server.js:175-196 | after a sweep every room is valid and non-deserted, and the key order lists the rooms that remain |
| PongServer.Server.constructor | server.js:66 | the server starts with no rooms, no connections and an empty leaderboard |
| PongServer.Server.Connect | server.js:83-87 | a new socket is open and remembers nothing |
| PongServer.Server.CreateRoom | server.js:69-81 | an existing room is left alone; a new room gets ball (400, 200, 5, 5, 10), scores (0, 0), empty maps and start time now, and goes last in key order |
| PongServer.Server.Join | server.js:98-124 | the socket remembers nickname, room and role; a room name inherited from `Object.prototype` throws and leaves every room as it was; a player join into a full room is refused, the socket is closed and the rooms are unchanged; otherwise the participant is admitted as `Admit` says and the socket stores its id, room and role |
| PongServer.Server.Seat | server.js:102-121 | `createRoom` followed by the admission, for any room name: the room is created when missing (last in key order) and the participant admitted as `Admit` says |
| PongServer.Server.Enter | server.js:104-121 | the admission into an existing room |
| PongServer.Server.Move | server.js:125-127 | only a joined non-spectator whose room exists buffers a move; any other move changes nothing |
| PongServer.Server.Chat | server.js:128-133 | a non-empty message reaches the room's participants that joined the room, all of them also reached as written; the sender's activity is stamped either way |
| PongServer.Server.SpectatorChat | server.js:134-139 | only a spectator's non-empty message is sent, and only to the room's spectators that joined the room, all of them also reached as written |
| PongServer.Server.GetRooms | server.js:287-302 | the directory has one entry per room in key order with its counts, names each room once, goes to every open socket (`OpenConns`), and lists no empty room while no room is deserted |
| PongServer.Server.Disconnect | server.js:155-172 | the socket closes and the rooms become `Departed`: a joined socket's id leaves its room, and the room is deleted exactly when it is then empty; except for room "" (server.js:157), where nothing changes (`PongServer.EmptyRoomIgnored`) |
| PongServer.Server.Depart | server.js:157-170 | the room part of `handleDisconnect` |
| PongServer.Server.Sweep | server.js:175-196 | the rooms become `Swept`, the remaining rooms keep their key order, and no room is left deserted |
| PongServer.Server.ReapAll | server.js:177-195 | the outer sweep loop computes `SweepOver` (`Reap` of each room, deleted when deserted) over the key order |
| PongServer.Server.Tick | server.js:199-250 | the game loop computes `TickAll`: it applies `Step` to every room in key order, each turn seeing the leaderboard left by the previous one |
| PongServer.Server.ResetLeaderboard | server.js:32-40 | the leaderboard becomes empty |
| PongServer.StaleMoveScenario | server.js:204-206 | a player evicted by the sweep from a room a spectator keeps alive can still buffer a move, and the game loop as written then throws |
| PongServer.ScenarioJoins | server.js:104-121 | the scenario's joins give slot "0" and `s_0` |
| PongServer.ScenarioSweep | server.js:177-193 | the scenario's sweep evicts the player only and keeps the room |
| PongServer.InheritedNamesKept | server.js:100 | every inherited property name is a room name a join can send: when the sanitiser keeps plain text, it passes the 20-character cut unchanged |
| PongServer.StaleMoveThrows | server.js:204-206 | in a room without players, a move for slot "0" is still buffered, and the move copy as written (`ApplyPendingAsWritten`) then throws on it |

## Left out

- HTTP: the express routes and static file serving are not modelled. Of `/reset-leaderboard`, only the reset of the list is kept.
- Persistence: lowdb loading, file creation and `db.write` are not modelled. The leaderboard starts empty and lives in memory.
- `sanitizeHtml` is a foreign library. `PongServer.Server.Join`, `PongServer.Server.Chat` and `PongServer.Server.SpectatorChat` take it as a parameter `clean`, a function from text to text about which nothing is assumed; the `slice(0, 20)` and `slice(0, 100)` cuts are kept.
- Transport: JSON parsing and parse errors are not modelled, and neither is the content of any message sent (`init`, `update`, `score`, `chat`, `rooms`, `error`). A broadcast is modelled as the set of sockets it reaches.
- Timers: `setInterval` is not modelled. The sweep and the game loop are methods that take the current time and the random draws as arguments. The model has no concurrency.
- `Date.now()` is a parameter `now`.
- Randomness: `Math.random()` in `resetBall` becomes a `Draw` of the two signs, and the game loop and sweep take one draw per room.
- `PongServer.Server.Connect`: takes the new socket's id from its caller. The WebSocket library allocates sockets, so fresh ids are not modelled.
- Numbers: the model uses Dafny `real` in place of IEEE doubles. The factor 1.05 is exact, and rounding is not modelled.
- Inputs: `data.y` is a real number. Non-numeric values and NaN are not modelled. `data.isSpectator || false` becomes a boolean.
- `PongServer.Server.Join`: sends nothing. The reply to the joiner and the broadcasts after a join are not modelled; only the rooms and the socket's fields change.
- Key order: `order` lists room names in insertion order. JavaScript puts integer-like keys first, in numeric order; that is not modelled, so for integer-like room names the order in `Directory` and of the game-loop and sweep turns can differ from the source.
- `PongServer.Server.Tick`: uses the corrected move copy (`GameLoop.ApplyPending`), which skips a buffered id that has no player. As written, the loop throws in that case (see Findings).
- `GameLoop.Step`: uses the corrected move copy, as `PongServer.Server.Tick` does.
- `GameLoop.TickRoom`: uses the corrected move copy (`GameLoop.ApplyMoves`), as `PongServer.Server.Tick` does.
- `PongServer.Server.Chat`: returns the recipients of the corrected room broadcast (`Broadcast.RoomRecipients`). As written, `broadcast` also reaches sockets of other rooms whose id matches (see Findings); the contract states that the corrected set is contained in the as-written one.
- `PongServer.Server.SpectatorChat`: returns the recipients of the corrected spectator broadcast (`Broadcast.SpectatorRecipients`). As written, `broadcastSpectators` also reaches spectators of other rooms whose id matches (see Findings).
- `broadcastScore` and the per-tick `update` payload are not modelled. As written, their recipients are those of `Broadcast.RoomRecipientsAsWritten`.
- `PongServer.Server.CreateRoom`: models `createRoom` on a map, so it creates a room for any name. For a name inherited from `Object.prototype`, server.js:70 creates nothing; `PongServer.Server.Join` never calls it with such a name and models the throw instead (see Findings).
- `PongServer.Server.Join`: after `Throws` the real process has ended (see Findings). The model's later calls continue from the unchanged rooms, which the source never reaches.
- `Common.Truncate`: counts characters of a Dafny string. JavaScript's `slice` counts UTF-16 code units, so a name or message with characters outside the Basic Multilingual Plane is cut at a different place.
- A failed `send` to one socket is logged and is not modelled. Logging (`console.*`) is not modelled.

## Findings

| source | as written | input that shows it | evidently intended | confidence | as-written member | corrected member |
|---|---|---|---|---|---|---|
| server.js:204-206 | the game loop sets `players[id].y` for every buffered id, but the move branch (server.js:125) buffers a move for the socket's remembered slot without checking that the slot still has a player | Ann joins room "A" at 0 ms and Eve watches from 10000 ms. The sweep at 15001 ms evicts Ann only. Ann's socket then sends a move, which is buffered for slot "0". `players["0"]` is undefined, so the next tick throws a TypeError out of the `setInterval` callback. `server.js` installs no `uncaughtException` handler, so the Node process ends; the rooms after "A" in key order never get that turn. | a buffered move for a missing player is skipped | not executed | GameLoop.ApplyPendingAsWritten, PongServer.StaleMoveScenario | GameLoop.ApplyPending, GameLoop.ApplyMoves |
| server.js:264 | `broadcast` selects sockets by stored client id alone, and slot ids "0"/"1" repeat in every room | A socket of room "B" with slot "0" gets every update and chat of room "A" whenever "A" has a slot "0". | a socket gets only the broadcasts of the room it joined | not executed | Broadcast.RoomRecipientsAsWritten, Broadcast.CrossRoomLeak | Broadcast.RoomRecipients, Broadcast.RecipientsDisjoint |
| server.js:70 | `createRoom` tests `!rooms[room]` on a plain object, so a name inherited from `Object.prototype` counts as an existing room and no room is created | A join with room "toString": `rooms["toString"]` is the inherited function, `rooms["toString"].players` is undefined and `Object.keys(undefined)` throws a TypeError out of the message handler; the Node process ends. A spectator join throws the same way at `.spectators`. | any room name, including these, gets a room of its own | not executed | PongServer.Server.Join, PongServer.InheritedNamesKept | PongServer.Server.Seat |
| server.js:157 | `handleDisconnect` tests `roomName` for truthiness, but `sanitizeHtml` runs after the `\|\| 'default'` of server.js:100, so a room name can be "" | A player joins with room `<script></script>`. The sanitiser drops the element with its text, so the room name is "" and `createRoom("")` creates room "" with the player in slot "0". When the socket closes, `clientId && roomName && rooms[roomName]` is false: the player stays in the room, the ball is not reset, and the room lives on until the idle sweep evicts the player 15 s after the last message. | a disconnect removes the participant whatever the room is called | not executed | PongServer.Departed, PongServer.EmptyRoomIgnored, PongServer.CleanedAway | PongServer.Vacated |
| server.js:277 | `broadcastSpectators` selects sockets by stored spectator id alone, and `s_<n>` ids repeat in every room | Spectator `s_0` of room "B" gets the spectator chat of room "A" whenever "A" has a spectator `s_0`. | only the room's own spectators get its spectator chat | not executed | Broadcast.SpectatorRecipientsAsWritten, Broadcast.CrossRoomSpectatorLeak | Broadcast.SpectatorRecipients, Broadcast.RecipientsDisjoint |
