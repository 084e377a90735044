/** The authoritative state of server.js: the `rooms` object with its key
    order, the leaderboard list, and the open WebSocket connections with
    what each one's message handler remembers. The timers of server.js
    become the methods `Sweep` (every second) and `Tick` (30 times a second),
    which take the current time and the random draws as arguments. */
module PongServer {
  import opened Common
  import opened Physics
  import opened Leaderboard
  import opened Rooms
  import opened GameLoop
  import opened Broadcast

  /** `.slice(0, 20)` of nickname and room name. */
  const NameLimit: nat := 20
  /** `.slice(0, 100)` of a chat message. */
  const MessageLimit: nat := 100

  /** The defaults of `data.nickname || 'Widz'` and `data.room || 'default'`. */
  const DefaultNickname: string := "Widz"
  const DefaultRoom: string := "default"

  /** `sanitizeHtml(raw || fallback).slice(0, 20)` (server.js:99-100). The
      sanitiser is a foreign library, so it is the parameter `clean` and
      nothing is assumed about it: the name is a prefix of at most 20
      characters of the cleaned text, and it is empty exactly when the
      cleaned text is. */
  function NameOf(raw: string, fallback: string, clean: string -> string): (name: string)
    ensures var text := clean(OrDefault(raw, fallback));
      && |name| <= NameLimit && |name| <= |text| && name == text[..|name|]
      && (name == "" <==> text == "")
      && (|text| <= NameLimit ==> name == text)
  {
    Truncate(clean(OrDefault(raw, fallback)), NameLimit)
  }

  /** For plain text, which the sanitiser leaves as it is, the name is never
      empty: the fallback for a missing value, otherwise a prefix of the
      value sent, kept whole when it fits. */
  lemma NameOfPlain(raw: string, fallback: string, clean: string -> string)
    requires clean(OrDefault(raw, fallback)) == OrDefault(raw, fallback)
    requires 0 < |fallback| <= NameLimit
    ensures var name := NameOf(raw, fallback, clean);
      && name != ""
      && (raw == "" ==> name == fallback)
      && (raw != "" ==> |name| <= |raw| && name == raw[..|name|])
      && (raw != "" && |raw| <= NameLimit ==> name == raw)
  {
  }

  /** The default only replaces a missing value: a value sent that the
      sanitiser removes entirely, such as `<script></script>`, gives the
      empty name, whatever the fallback. */
  lemma CleanedAway(raw: string, fallback: string, clean: string -> string)
    requires raw != "" && clean(raw) == ""
    ensures NameOf(raw, fallback, clean) == ""
  {
  }

  /** The property names every plain JavaScript object inherits from
      `Object.prototype`. `rooms[name]` finds one of these on the empty
      `rooms` object, so `createRoom` (server.js:70) sees a room that is not
      there and creates nothing. */
  const Inherited: set<string> := {
    "constructor", "__proto__", "toString", "toLocaleString", "valueOf",
    "hasOwnProperty", "isPrototypeOf", "propertyIsEnumerable",
    "__defineGetter__", "__defineSetter__", "__lookupGetter__", "__lookupSetter__"}

  /** Every inherited property name reaches `createRoom` unchanged when the
      sanitiser leaves plain text as it is: it is not empty and fits the
      20-character cut. */
  lemma InheritedNamesKept(clean: string -> string)
    requires forall n :: n in Inherited ==> clean(n) == n
    ensures forall n :: n in Inherited ==> NameOf(n, DefaultRoom, clean) == n
  {
    forall n | n in Inherited
      ensures NameOf(n, DefaultRoom, clean) == n
    {
      assert 0 < |n| <= NameLimit;
    }
  }

  /** A join either throws (the inherited room names), is refused (a full
      room) or gives the joiner an id. */
  datatype JoinResult = Throws | Rejected | Joined(id: string)

  /** The names listed in `s`. */
  function Elements(s: seq<string>): set<string>
    decreases |s|
  {
    if s == [] then {} else Elements(s[..|s| - 1]) + {s[|s| - 1]}
  }

  lemma {:induction false} ElementsIn(s: seq<string>)
    ensures forall n :: n in Elements(s) <==> n in s
    decreases |s|
  {
    if s != [] {
      ElementsIn(s[..|s| - 1]);
      assert s == s[..|s| - 1] + [s[|s| - 1]];
    }
  }

  lemma {:induction false} ElementsSize(s: seq<string>)
    ensures |Elements(s)| <= |s|
    decreases |s|
  {
    if s != [] {
      ElementsSize(s[..|s| - 1]);
    }
  }

  lemma ElementsAppend(s: seq<string>, n: string)
    ensures Elements(s + [n]) == Elements(s) + {n}
  {
    assert (s + [n])[..|s|] == s;
  }

  /** In a list without repetitions no name occurs before its position. */
  lemma {:induction false} PrefixFresh(s: seq<string>, i: nat)
    requires |Elements(s)| == |s| && i < |s|
    ensures s[i] !in Elements(s[..i])
    decreases |s|
  {
    var init := s[..|s| - 1];
    ElementsSize(init);
    if i == |s| - 1 {
      assert init == s[..i];
    } else {
      assert init[..i] == s[..i];
      PrefixFresh(init, i);
    }
  }

  /** The names of `s` that are in `keep`, in their order: `Object.keys`
      after some keys were deleted. */
  function KeepIn(s: seq<string>, keep: set<string>): seq<string>
    decreases |s|
  {
    if s == [] then []
    else KeepIn(s[..|s| - 1], keep) + (if s[|s| - 1] in keep then [s[|s| - 1]] else [])
  }

  /** Deleting keys from a list without repetitions keeps the other keys,
      each once. */
  lemma {:induction false} KeepInElements(s: seq<string>, keep: set<string>)
    requires |Elements(s)| == |s|
    ensures Elements(KeepIn(s, keep)) == Elements(s) * keep
    ensures |KeepIn(s, keep)| == |Elements(s) * keep|
    decreases |s|
  {
    if s != [] {
      var init := s[..|s| - 1];
      var last := s[|s| - 1];
      ElementsSize(init);
      assert last !in Elements(init);
      KeepInElements(init, keep);
      if last in keep {
        ElementsAppend(KeepIn(init, keep), last);
        assert Elements(s) * keep == Elements(init) * keep + {last};
      } else {
        assert KeepIn(init, keep) + [] == KeepIn(init, keep);
        assert KeepIn(s, keep) == KeepIn(init, keep);
        assert Elements(s) * keep == Elements(init) * keep;
      }
    }
  }

  /** The game loop over all rooms in key order; each room's turn sees the
      leaderboard left by the previous one. */
  function TickAll(rooms: map<string, Room>, names: seq<string>, board: seq<Entry>, draw: string -> Draw): (map<string, Room>, seq<Entry>)
    decreases |names|
  {
    if names == [] then (rooms, board)
    else if names[0] !in rooms then TickAll(rooms, names[1..], board, draw)
    else
      var s := Step(rooms[names[0]], board, draw(names[0]));
      TickAll(rooms[names[0] := s.room], names[1..], s.board, draw)
  }

  /** The game loop keeps every room, keeps its participants, keeps every
      room valid, and keeps the leaderboard valid. */
  lemma {:induction false} TickAllOk(rooms: map<string, Room>, names: seq<string>, board: seq<Entry>, draw: string -> Draw)
    requires AllOk(rooms) && BoardOk(board)
    ensures var (rooms', board') := TickAll(rooms, names, board, draw);
      && rooms'.Keys == rooms.Keys
      && AllOk(rooms')
      && (forall n :: n in rooms' ==>
            rooms'[n].players.Keys == rooms[n].players.Keys && rooms'[n].spectators == rooms[n].spectators)
      && (Lively(rooms) ==> Lively(rooms'))
      && BoardOk(board')
    decreases |names|
  {
    if names != [] {
      if names[0] !in rooms {
        TickAllOk(rooms, names[1..], board, draw);
      } else {
        var n0 := names[0];
        var s := Step(rooms[n0], board, draw(n0));
        assert RoomOk(rooms[n0]);
        StepOk(rooms[n0], board, draw(n0));
        var next := rooms[n0 := s.room];
        Replace(rooms, [], n0, s.room);
        TickAllOk(next, names[1..], s.board, draw);
      }
    }
  }

  /** The sweep's outer loop (server.js:177-195) over the names `names`, in
      order: each room still present is reaped, and deleted when it ends up
      deserted. */
  function SweepOver(rooms: map<string, Room>, names: seq<string>, now: int, draw: string -> Draw): map<string, Room>
    decreases |names|
  {
    if names == [] then rooms
    else
      var m := SweepOver(rooms, names[..|names| - 1], now, draw);
      var n := names[|names| - 1];
      if n !in m then m
      else
        var r := Reap(m[n], now, draw(n));
        if Deserted(r) then m - {n} else m[n := r]
  }

  /** The rooms after the sweep has handled the rooms in `done`: each of
      those is reaped, and deleted when it ends up deserted. */
  function SweptSome(rooms: map<string, Room>, done: set<string>, now: int, draw: string -> Draw): map<string, Room>
  {
    map n | n in rooms && (n in done ==> !Deserted(Reap(rooms[n], now, draw(n))))
      :: if n in done then Reap(rooms[n], now, draw(n)) else rooms[n]
  }

  /** The rooms after a whole sweep: a room is kept exactly when it is not
      deserted once its idle participants are removed. */
  function Swept(rooms: map<string, Room>, now: int, draw: string -> Draw): (m: map<string, Room>)
    ensures forall n :: n in m <==> n in rooms && !Deserted(Reap(rooms[n], now, draw(n)))
    ensures forall n :: n in m ==> m[n] == Reap(rooms[n], now, draw(n))
  {
    SweptSome(rooms, rooms.Keys, now, draw)
  }

  lemma SweptSomeStep(rooms: map<string, Room>, done: set<string>, name: string, now: int, draw: string -> Draw)
    requires name !in done
    ensures var before := SweptSome(rooms, done, now, draw);
      name in before <==> name in rooms
    ensures var before := SweptSome(rooms, done, now, draw);
      name in rooms ==> before[name] == rooms[name]
    ensures var before := SweptSome(rooms, done, now, draw);
      var after := SweptSome(rooms, done + {name}, now, draw);
      if name !in rooms then after == before
      else
        var r := Reap(rooms[name], now, draw(name));
        after == if Deserted(r) then before - {name} else before[name := r]
  {
  }

  /** Visiting the names of a list without repetitions, one after the other,
      handles exactly the rooms named in it, whatever their order. */
  lemma {:induction false} SweepOverSome(rooms: map<string, Room>, names: seq<string>, now: int, draw: string -> Draw)
    requires |Elements(names)| == |names|
    ensures SweepOver(rooms, names, now, draw) == SweptSome(rooms, Elements(names), now, draw)
    decreases |names|
  {
    if names == [] {
      assert SweptSome(rooms, {}, now, draw) == rooms;
    } else {
      var init := names[..|names| - 1];
      var last := names[|names| - 1];
      ElementsSize(init);
      assert last !in Elements(init);
      SweepOverSome(rooms, init, now, draw);
      SweptSomeStep(rooms, Elements(init), last, now, draw);
    }
  }

  /** `order` lists every room name, each once. */
  ghost predicate OrderOk(order: seq<string>, rooms: map<string, Room>)
  {
    Elements(order) == rooms.Keys && |order| == |rooms|
  }

  ghost predicate AllOk(rooms: map<string, Room>)
  {
    forall n {:trigger RoomOk(rooms[n])} :: n in rooms ==> RoomOk(rooms[n])
  }

  ghost predicate Lively(rooms: map<string, Room>)
  {
    forall n :: n in rooms ==> !Deserted(rooms[n])
  }

  /** Replacing a room by a valid room keeps the rooms valid, and keeps them
      lively when the new room is not deserted. */
  lemma Replace(rooms: map<string, Room>, order: seq<string>, name: string, r: Room)
    requires AllOk(rooms) && RoomOk(r)
    ensures AllOk(rooms[name := r])
    ensures OrderOk(order, rooms) && name in rooms ==> OrderOk(order, rooms[name := r])
    ensures Lively(rooms) && !Deserted(r) ==> Lively(rooms[name := r])
  {
    var m := rooms[name := r];
    forall n | n in m
      ensures RoomOk(m[n])
    {
      if n != name {
        assert RoomOk(rooms[n]);
      }
    }
  }

  /** Deleting a room keeps the others valid and lively, and `KeepIn` keeps
      the key order of the others. */
  lemma Delete(rooms: map<string, Room>, order: seq<string>, name: string)
    requires AllOk(rooms) && OrderOk(order, rooms)
    ensures AllOk(rooms - {name})
    ensures OrderOk(KeepIn(order, (rooms - {name}).Keys), rooms - {name})
    ensures Lively(rooms) ==> Lively(rooms - {name})
  {
    forall n | n in rooms - {name}
      ensures RoomOk((rooms - {name})[n])
    {
      assert RoomOk(rooms[n]);
    }
    KeepInElements(order, (rooms - {name}).Keys);
  }

  lemma UpdateTwice(m: map<string, Room>, k: string, a: Room, b: Room)
    ensures m[k := a][k := b] == m[k := b]
  {
  }

  /** A list whose names are as many as its length repeats no name. */
  lemma Distinct(s: seq<string>)
    requires |Elements(s)| == |s|
    ensures forall i, j :: 0 <= i < j < |s| ==> s[i] != s[j]
  {
    forall i, j | 0 <= i < j < |s|
      ensures s[i] != s[j]
    {
      PrefixFresh(s, j);
      ElementsIn(s[..j]);
      assert s[i] == s[..j][i];
    }
  }

  /** With a consistent key order, the room directory names every room and
      nothing else. */
  lemma DirectoryCovers(rooms: map<string, Room>, order: seq<string>)
    requires OrderOk(order, rooms)
    ensures forall i :: 0 <= i < |order| ==> order[i] in rooms
    ensures |Directory(rooms, order)| == |rooms|
    ensures forall n :: n in rooms <==> exists i :: 0 <= i < |order| && Directory(rooms, order)[i].room == n
  {
    ElementsIn(order);
    var dir := Directory(rooms, order);
    forall n | n in rooms
      ensures exists i :: 0 <= i < |order| && dir[i].room == n
    {
      var i :| 0 <= i < |order| && order[i] == n;
      assert dir[i].room == n;
    }
  }

  /** With a consistent key order, the room directory names no room twice. */
  lemma DirectoryDistinct(rooms: map<string, Room>, order: seq<string>)
    requires OrderOk(order, rooms)
    ensures forall i :: 0 <= i < |order| ==> order[i] in rooms
    ensures forall i, j :: 0 <= i < j < |order| ==> Directory(rooms, order)[i].room != Directory(rooms, order)[j].room
  {
    ElementsIn(order);
    Distinct(order);
  }

  /** When no room is deserted, every room in the directory has someone in it. */
  lemma DirectoryLively(rooms: map<string, Room>, order: seq<string>)
    requires forall i :: 0 <= i < |order| ==> order[i] in rooms
    requires Lively(rooms)
    ensures forall i :: 0 <= i < |order| ==>
      Directory(rooms, order)[i].players + Directory(rooms, order)[i].spectators > 0
  {
    forall i | 0 <= i < |order|
      ensures Directory(rooms, order)[i].players + Directory(rooms, order)[i].spectators > 0
    {
      assert !Deserted(rooms[order[i]]);
    }
  }

  lemma AllAtMostTwo(rooms: map<string, Room>)
    requires AllOk(rooms)
    ensures forall n :: n in rooms ==> |rooms[n].players| <= 2
  {
    forall n | n in rooms
      ensures |rooms[n].players| <= 2
    {
      AtMostTwoPlayers(rooms[n]);
    }
  }

  /** The rooms and their key order after a socket with stored fields `t`
      disconnects, whatever its room is called: a socket that joined a room
      that still exists takes its id out of the map its role names, and the
      room is deleted exactly when it then has neither players nor
      spectators. */
  function Vacated(rooms: map<string, Room>, order: seq<string>, t: Tag, d: Draw): (res: (map<string, Room>, seq<string>))
    ensures t.Tagged? && t.id != "" && t.room in rooms ==>
      if Deserted(Leave(rooms[t.room], t.id, t.spectator, d)) then res.0 == rooms - {t.room} && res.1 == KeepIn(order, res.0.Keys)
      else res.0 == rooms[t.room := Leave(rooms[t.room], t.id, t.spectator, d)] && res.1 == order
    ensures !(t.Tagged? && t.id != "" && t.room in rooms) ==> res == (rooms, order)
    ensures t.Tagged? && t.id != "" && t.room in res.0 ==>
      if t.spectator then t.id !in res.0[t.room].spectators else t.id !in res.0[t.room].players
  {
    if t.Tagged? && t.id != "" && t.room in rooms then
      var r := Leave(rooms[t.room], t.id, t.spectator, d);
      if Deserted(r) then (rooms - {t.room}, KeepIn(order, (rooms - {t.room}).Keys))
      else (rooms[t.room := r], order)
    else (rooms, order)
  }

  /** `handleDisconnect` as written: `roomName &&` (server.js:157) is false
      for the room name "", so a socket of that room changes nothing. */
  function Departed(rooms: map<string, Room>, order: seq<string>, t: Tag, d: Draw): (map<string, Room>, seq<string>)
  {
    if t.Tagged? && t.room == "" then (rooms, order) else Vacated(rooms, order, t, d)
  }

  /** The disconnect as written ignores a participant of room "", who stays
      in the room with the ball where it was; `Vacated` takes it out. */
  lemma EmptyRoomIgnored(rooms: map<string, Room>, order: seq<string>, id: string, spectator: bool, d: Draw)
    requires "" in rooms && id != ""
    requires if spectator then id in rooms[""].spectators else id in rooms[""].players
    ensures Departed(rooms, order, Tagged(id, "", spectator), d) == (rooms, order)
    ensures var m := Vacated(rooms, order, Tagged(id, "", spectator), d).0;
      "" in m ==> (if spectator then id !in m[""].spectators else id !in m[""].players)
  {
  }

  /** A disconnect keeps the rooms valid and lively and their key order
      consistent. */
  lemma DepartedOk(rooms: map<string, Room>, order: seq<string>, t: Tag, d: Draw)
    requires AllOk(rooms) && OrderOk(order, rooms)
    ensures var (m, o) := Departed(rooms, order, t, d);
      AllOk(m) && OrderOk(o, m) && (Lively(rooms) ==> Lively(m))
  {
    if t.Tagged? && t.id != "" && t.room != "" && t.room in rooms {
      var r := Leave(rooms[t.room], t.id, t.spectator, d);
      assert RoomOk(rooms[t.room]);
      LeaveOk(rooms[t.room], t.id, t.spectator, d);
      if Deserted(r) {
        Delete(rooms, order, t.room);
      } else {
        Replace(rooms, order, t.room, r);
      }
    }
  }

  /** After a sweep every room is valid and lively, and `KeepIn` gives the
      key order of the rooms left. */
  lemma SweptOk(rooms: map<string, Room>, order: seq<string>, now: int, draw: string -> Draw)
    requires AllOk(rooms) && OrderOk(order, rooms)
    ensures var m := Swept(rooms, now, draw);
      AllOk(m) && Lively(m) && OrderOk(KeepIn(order, m.Keys), m)
  {
    var m := Swept(rooms, now, draw);
    forall n | n in m
      ensures RoomOk(m[n])
    {
      assert RoomOk(rooms[n]);
      ReapClearsIdle(rooms[n], now, draw(n));
    }
    KeepInElements(order, m.Keys);
  }

  class Server {
    var rooms: map<string, Room>
    /** The key order of `rooms`. */
    var order: seq<string>
    /** `db.data.scores` */
    var board: seq<Entry>
    var conns: map<ConnId, Conn>

    ghost predicate Valid()
      reads this
    {
      && OrderOk(order, rooms)
      && AllOk(rooms)
      && BoardOk(board)
    }

    /** Every room has a player or a spectator. It holds after every join,
        disconnect, sweep and tick; only `CreateRoom` on its own breaks it,
        for the moment before the join that called it adds the participant. */
    ghost predicate NoDesertedRoom()
      reads this
    {
      Lively(rooms)
    }

    constructor ()
      ensures Valid() && NoDesertedRoom()
      ensures rooms == map[] && order == [] && board == [] && conns == map[]
    {
      rooms, order, board, conns := map[], [], [], map[];
    }

    /** `wss.on('connection', ...)`: the WebSocket library hands over a new
        open socket `c`, whose closure state starts empty. */
    method Connect(c: ConnId)
      requires Valid() && c !in conns
      modifies this`conns
      ensures Valid()
      ensures conns == old(conns)[c := Accepted]
    {
      conns := conns[c := Accepted];
    }

    /** `createRoom` (server.js:69-81): a room that exists is left alone; a new
        one gets the ball at the centre moving (5, 5), no points, empty maps
        and the current time as start time, and goes last in key order. */
    method CreateRoom(name: string, now: int)
      requires Valid()
      modifies this`rooms, this`order
      ensures Valid() && name in rooms
      ensures old(name in rooms) ==> rooms == old(rooms) && order == old(order)
      ensures old(name !in rooms) ==>
        && rooms == old(rooms)[name := Room(map[], map[], Ball(400.0, 200.0, 5.0, 5.0, 10.0), (0, 0), map[], now, map[])]
        && order == old(order) + [name]
    {
      if name !in rooms {
        NewRoomOk(now);
        Replace(rooms, order, name, NewRoom(now));
        ElementsAppend(order, name);
        assert |rooms[name := NewRoom(now)]| == |rooms| + 1;
        rooms := rooms[name := NewRoom(now)];
        order := order + [name];
      }
    }

    /** The join branch of the message handler (server.js:98-124). The
        closure remembers nickname, room and role even when the join is
        refused; a room name inherited from `Object.prototype` makes the
        handler throw before any room changes; a player join into a room
        that already has two players is refused and the socket closed,
        leaving every room as it was; otherwise the participant is admitted
        and the socket remembers its id, room and role. */
    method Join(c: ConnId, nickname: string, room: string, spectator: bool, now: int, clean: string -> string) returns (res: JoinResult)
      requires Valid() && c in conns
      modifies this`rooms, this`order, this`conns
      ensures Valid() && (old(NoDesertedRoom()) ==> NoDesertedRoom())
      ensures var name := NameOf(room, DefaultRoom, clean);
        var k := old(conns)[c].(nickname := Some(NameOf(nickname, DefaultNickname, clean)), roomName := Some(name), isSpectator := spectator);
        name in Inherited ==> res == Throws && rooms == old(rooms) && order == old(order) && conns == old(conns)[c := k]
      ensures var nick := NameOf(nickname, DefaultNickname, clean);
        var name := NameOf(room, DefaultRoom, clean);
        var a := Admit(if name in old(rooms) then old(rooms)[name] else NewRoom(now), nick, spectator, now);
        var k := old(conns)[c].(nickname := Some(nick), roomName := Some(name), isSpectator := spectator);
        name !in Inherited ==>
        && order == (if name in old(rooms) then old(order) else old(order) + [name])
        && (a.Full? ==> res == Rejected && rooms == old(rooms) && conns == old(conns)[c := k.(open := false)])
        && (a.Admitted? ==>
              && res == Joined(a.id)
              && rooms == old(rooms)[name := a.room]
              && conns == old(conns)[c := k.(clientId := Some(a.id), tag := Tagged(a.id, name, spectator))])
      ensures res.Throws? <==> NameOf(room, DefaultRoom, clean) in Inherited
      ensures res.Rejected? <==>
        NameOf(room, DefaultRoom, clean) !in Inherited && !spectator && NameOf(room, DefaultRoom, clean) in old(rooms) && |old(rooms)[NameOf(room, DefaultRoom, clean)].players| >= 2
      ensures res.Joined? && !spectator ==> res.id in {"0", "1"}
      ensures forall n :: n in rooms ==> |rooms[n].players| <= 2
    {
      var nick := NameOf(nickname, DefaultNickname, clean);
      var name := NameOf(room, DefaultRoom, clean);
      var k := conns[c].(nickname := Some(nick), roomName := Some(name), isSpectator := spectator);
      if name in Inherited {
        // `rooms[name].players` (or `.spectators`) is undefined, and
        // `Object.keys` of it throws a TypeError out of the message handler.
        conns := conns[c := k];
        AllAtMostTwo(rooms);
        return Throws;
      }
      var a := Seat(name, nick, spectator, now);
      if a.Full? {
        conns := conns[c := k.(open := false)];
        res := Rejected;
      } else {
        conns := conns[c := k.(clientId := Some(a.id), tag := Tagged(a.id, name, spectator))];
        res := Joined(a.id);
      }
    }

    /** The room part of the join branch: `createRoom`, then the admission
        (server.js:102-121). */
    method Seat(name: string, nick: string, spectator: bool, now: int) returns (a: Admission)
      requires Valid()
      modifies this`rooms, this`order
      ensures Valid() && (old(NoDesertedRoom()) ==> NoDesertedRoom())
      ensures a == Admit(if name in old(rooms) then old(rooms)[name] else NewRoom(now), nick, spectator, now)
      ensures order == (if name in old(rooms) then old(order) else old(order) + [name])
      ensures a.Full? ==> name in old(rooms) && rooms == old(rooms)
      ensures a.Admitted? ==> rooms == old(rooms)[name := a.room]
      ensures a.Admitted? && !spectator ==> a.id in {"0", "1"}
      ensures forall n :: n in rooms ==> |rooms[n].players| <= 2
    {
      ghost var r0 := if name in rooms then rooms[name] else NewRoom(now);
      CreateRoom(name, now);
      assert rooms[name] == r0;
      a := Enter(name, nick, spectator, now);
      AllAtMostTwo(rooms);
      if a.Admitted? {
        UpdateTwice(old(rooms), name, NewRoom(now), a.room);
        assert rooms == old(rooms)[name := a.room];
        Replace(old(rooms), order, name, a.room);
      }
    }

    /** The admission once the room exists (server.js:104-121). */
    method Enter(name: string, nick: string, spectator: bool, now: int) returns (a: Admission)
      requires Valid() && name in rooms
      modifies this`rooms
      ensures Valid()
      ensures a == Admit(old(rooms)[name], nick, spectator, now)
      ensures a.Full? ==> rooms == old(rooms)
      ensures a.Admitted? ==> rooms == old(rooms)[name := a.room] && RoomOk(a.room) && !Deserted(a.room)
    {
      a := Admit(rooms[name], nick, spectator, now);
      if a.Admitted? {
        assert RoomOk(rooms[name]);
        AdmitOk(rooms[name], nick, spectator, now);
        Replace(rooms, order, name, a.room);
        rooms := rooms[name := a.room];
      }
    }

    /** The move branch (server.js:125-127): only a joined non-spectator
        whose room still exists buffers a move; anything else changes nothing. */
    method Move(c: ConnId, y: real, now: int)
      requires Valid() && c in conns
      modifies this`rooms
      ensures Valid() && (old(NoDesertedRoom()) ==> NoDesertedRoom())
      ensures var k := conns[c];
        if Truthy(k.clientId) && !k.isSpectator && k.roomName.Some? && k.roomName.value in old(rooms)
        then rooms == old(rooms)[k.roomName.value := BufferMove(old(rooms)[k.roomName.value], k.clientId.value, y, now)]
        else rooms == old(rooms)
    {
      var k := conns[c];
      if Truthy(k.clientId) && !k.isSpectator && k.roomName.Some? && k.roomName.value in rooms {
        var name := k.roomName.value;
        BufferMoveOk(rooms[name], k.clientId.value, y, now);
        assert RoomOk(rooms[name]);
        Replace(rooms, order, name, BufferMove(rooms[name], k.clientId.value, y, now));
        rooms := rooms[name := BufferMove(rooms[name], k.clientId.value, y, now)];
      }
    }

    /** The chat branch (server.js:128-133): a non-empty message (after the
        100-character cut) goes to the room's participants; the sender's
        activity is stamped either way. The recipients are those of the
        corrected room broadcast, which the broadcast as written also
        reaches. */
    method Chat(c: ConnId, message: string, now: int, clean: string -> string) returns (to: set<ConnId>)
      requires Valid() && c in conns
      modifies this`rooms
      ensures Valid() && (old(NoDesertedRoom()) ==> NoDesertedRoom())
      ensures var k := conns[c];
        if Truthy(k.clientId) && k.roomName.Some? && k.roomName.value in old(rooms) then
          && rooms == old(rooms)[k.roomName.value := Touch(old(rooms)[k.roomName.value], k.clientId.value, now)]
          && to == (if Truncate(clean(message), MessageLimit) == "" then {} else RoomRecipients(old(rooms), conns, k.roomName.value))
          && to <= RoomRecipientsAsWritten(old(rooms), conns, k.roomName.value)
        else rooms == old(rooms) && to == {}
    {
      var k := conns[c];
      to := {};
      if Truthy(k.clientId) && k.roomName.Some? && k.roomName.value in rooms {
        var name := k.roomName.value;
        var text := Truncate(clean(message), MessageLimit);
        if text != "" {
          to := RoomRecipients(rooms, conns, name);
        }
        assert RoomOk(rooms[name]);
        Replace(rooms, order, name, Touch(rooms[name], k.clientId.value, now));
        rooms := rooms[name := Touch(rooms[name], k.clientId.value, now)];
      }
    }

    /** The spectator-chat branch (server.js:134-139): only a spectator's
        message, and it reaches only the room's spectators (the corrected
        spectator broadcast). */
    method SpectatorChat(c: ConnId, message: string, now: int, clean: string -> string) returns (to: set<ConnId>)
      requires Valid() && c in conns
      modifies this`rooms
      ensures Valid() && (old(NoDesertedRoom()) ==> NoDesertedRoom())
      ensures var k := conns[c];
        if Truthy(k.clientId) && k.isSpectator && k.roomName.Some? && k.roomName.value in old(rooms) then
          && rooms == old(rooms)[k.roomName.value := Touch(old(rooms)[k.roomName.value], k.clientId.value, now)]
          && to == (if Truncate(clean(message), MessageLimit) == "" then {} else SpectatorRecipients(old(rooms), conns, k.roomName.value))
          && to <= SpectatorRecipientsAsWritten(old(rooms), conns, k.roomName.value)
        else rooms == old(rooms) && to == {}
    {
      var k := conns[c];
      to := {};
      if Truthy(k.clientId) && k.isSpectator && k.roomName.Some? && k.roomName.value in rooms {
        var name := k.roomName.value;
        var text := Truncate(clean(message), MessageLimit);
        if text != "" {
          to := SpectatorRecipients(rooms, conns, name);
        }
        assert RoomOk(rooms[name]);
        Replace(rooms, order, name, Touch(rooms[name], k.clientId.value, now));
        rooms := rooms[name := Touch(rooms[name], k.clientId.value, now)];
      }
    }

    /** `getRooms` and every `broadcastRooms`: the directory and the sockets
        it goes to. With no deserted room, every listed room has someone in it. */
    method GetRooms() returns (dir: seq<RoomInfo>, to: set<ConnId>)
      requires Valid()
      ensures |dir| == |rooms|
      ensures forall i :: 0 <= i < |order| ==> order[i] in rooms
      ensures dir == Directory(rooms, order) && to == OpenConns(conns)
      ensures forall n :: n in rooms <==> exists i :: 0 <= i < |dir| && dir[i].room == n
      ensures forall i, j :: 0 <= i < j < |dir| ==> dir[i].room != dir[j].room
      ensures NoDesertedRoom() ==> forall i :: 0 <= i < |dir| ==> dir[i].players + dir[i].spectators > 0
    {
      DirectoryCovers(rooms, order);
      DirectoryDistinct(rooms, order);
      if NoDesertedRoom() {
        DirectoryLively(rooms, order);
      }
      dir := Directory(rooms, order);
      to := OpenConns(conns);
    }

    /** `handleDisconnect` (server.js:155-172), for a socket's close or error
        event: the socket is closed, and one that joined a room takes its
        stored id out of that room. */
    method Disconnect(c: ConnId, d: Draw)
      requires Valid() && c in conns
      modifies this`rooms, this`order, this`conns
      ensures Valid() && (old(NoDesertedRoom()) ==> NoDesertedRoom())
      ensures conns == old(conns)[c := old(conns)[c].(open := false)]
      ensures (rooms, order) == Departed(old(rooms), old(order), old(conns)[c].tag, d)
    {
      var t := conns[c].tag;
      conns := conns[c := conns[c].(open := false)];
      Depart(t, d);
    }

    /** The room part of `handleDisconnect` (server.js:157-170). */
    method Depart(t: Tag, d: Draw)
      requires Valid()
      modifies this`rooms, this`order
      ensures Valid() && (old(NoDesertedRoom()) ==> NoDesertedRoom())
      ensures (rooms, order) == Departed(old(rooms), old(order), t, d)
    {
      DepartedOk(rooms, order, t, d);
      if t.Tagged? && t.id != "" && t.room != "" && t.room in rooms {
        var r := Leave(rooms[t.room], t.id, t.spectator, d);
        if Deserted(r) {
          rooms := rooms - {t.room};
          order := KeepIn(order, rooms.Keys);
        } else {
          rooms := rooms[t.room := r];
        }
      }
    }

    /** The idle sweep (server.js:175-196): every room is reaped in key
        order and deleted when it ends up deserted, so afterwards no room is
        deserted; the remaining names keep their order. */
    method Sweep(now: int, draw: string -> Draw)
      requires Valid()
      modifies this`rooms, this`order
      ensures Valid() && NoDesertedRoom()
      ensures rooms == Swept(old(rooms), now, draw)
      ensures order == KeepIn(old(order), rooms.Keys)
    {
      ReapAll(now, draw);
      SweepOverSome(old(rooms), order, now, draw);
      assert Elements(order) == old(rooms).Keys;
      order := KeepIn(order, rooms.Keys);
      SweptOk(old(rooms), old(order), now, draw);
    }

    /** The outer loop of the sweep, over the room names in key order. */
    method ReapAll(now: int, draw: string -> Draw)
      modifies this`rooms
      ensures rooms == SweepOver(old(rooms), order, now, draw)
    {
      for i := 0 to |order|
        invariant rooms == SweepOver(old(rooms), order[..i], now, draw)
      {
        var name := order[i];
        assert order[..i + 1][..i] == order[..i];
        if name in rooms {
          var r := ReapRoom(rooms[name], now, draw(name));
          if Deserted(r) {
            rooms := rooms - {name};
          } else {
            rooms := rooms[name := r];
          }
        }
      }
      assert order[..|order|] == order;
    }

    /** The game loop (server.js:199-250): every room takes its turn in key
        order. */
    method Tick(draw: string -> Draw)
      requires Valid()
      modifies this`rooms, this`board
      ensures Valid() && (old(NoDesertedRoom()) ==> NoDesertedRoom())
      ensures (rooms, board) == TickAll(old(rooms), order, old(board), draw)
    {
      ElementsIn(order);
      for i := 0 to |order|
        invariant rooms.Keys == old(rooms).Keys
        invariant TickAll(rooms, order[i..], board, draw) == TickAll(old(rooms), order, old(board), draw)
      {
        var name := order[i];
        assert name in order;
        assert order[i..][1..] == order[i + 1..];
        var r, b, hit := TickRoom(rooms[name], board, draw(name));
        rooms := rooms[name := r];
        board := b;
      }
      assert order[|order|..] == [];
      TickAllOk(old(rooms), order, old(board), draw);
    }

    /** `/reset-leaderboard`: the list becomes empty. */
    method ResetLeaderboard()
      requires Valid()
      modifies this`board
      ensures Valid() && board == []
    {
      board := [];
    }
  }

  /** A player timed out by the idle sweep keeps its socket, and the socket
      still knows its slot and room. When a spectator keeps the room alive, a
      move from that socket is buffered for a slot that has no player, and
      the next turn of the game loop as written throws on it: Ann joins room
      "A" at 0 ms, Eve watches from 10000 ms, the sweep at 15001 ms removes
      Ann only, and Ann's move at 15002 ms is buffered for slot "0". */
  lemma StaleMoveScenario(draw: string -> Draw)
    ensures var ann := Admit(NewRoom(0), "Ann", false, 0);
      var eve := Admit(ann.room, "Eve", true, 10000);
      var swept := Swept(map["A" := eve.room], 15001, draw);
      && ann.Admitted? && ann.id == "0" && eve.Admitted?
      && "A" in swept && swept["A"].players == map[]
      && ApplyPendingAsWritten(swept["A"].players, BufferMove(swept["A"], ann.id, 100.0, 15002).pending).None?
  {
    var ann := Admit(NewRoom(0), "Ann", false, 0);
    var eve := Admit(ann.room, "Eve", true, 10000);
    ScenarioJoins();
    ScenarioSweep(eve.room, draw);
    var swept := Swept(map["A" := eve.room], 15001, draw);
    StaleMoveThrows(swept["A"], 100.0, 15002);
  }

  /** Ann takes slot "0" of a new room at 0 ms and Eve watches as s_0 from
      10000 ms. */
  lemma ScenarioJoins()
    ensures var ann := Admit(NewRoom(0), "Ann", false, 0);
      var eve := Admit(ann.room, "Eve", true, 10000);
      && ann.Admitted? && ann.id == "0" && eve.Admitted?
      && eve.room.players.Keys == {"0"} && eve.room.spectators.Keys == {"s_0"}
      && eve.room.activity == map["0" := 0, "s_0" := 10000]
  {
    var ann := Admit(NewRoom(0), "Ann", false, 0);
    assert Decimal(0) == "0";
    assert ann.id == "0";
    var eve := Admit(ann.room, "Eve", true, 10000);
    assert SpectatorId(0) == "s_0";
    assert eve.id == "s_0";
  }

  /** The sweep at 15001 ms removes Ann only, so Eve keeps the room. */
  lemma ScenarioSweep(b: Room, draw: string -> Draw)
    requires b.players.Keys == {"0"} && b.spectators.Keys == {"s_0"}
    requires b.activity == map["0" := 0, "s_0" := 10000]
    ensures var swept := Swept(map["A" := b], 15001, draw);
      "A" in swept && swept["A"].players == map[]
  {
    assert Expired(b, 15001) == {"0"};
    var r := Reap(b, 15001, draw("A"));
    assert "s_0" in r.spectators;
  }

  /** In a room without players, the move of a stale slot is buffered and
      makes the game loop's move copy as written throw. */
  lemma StaleMoveThrows(r: Room, y: real, now: int)
    requires r.players == map[]
    ensures ApplyPendingAsWritten(r.players, BufferMove(r, "0", y, now).pending).None?
  {
    assert "0" in BufferMove(r, "0", y, now).pending;
  }
}
