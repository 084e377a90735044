/** The connections of the WebSocket server and who a message reaches
    (server.js:83-153, 261-302). A connection keeps two records: the
    variables of its message handler's closure (`clientId`, `roomName`,
    `nickname`, `isSpectator`), which every message branch reads, and the
    fields stored on the socket (`ws.clientId`, `ws.roomName`,
    `ws.isSpectator`) at a successful join, which disconnect handling and the
    broadcast filters read. No message is sent here: a broadcast is the set
    of connections it reaches. */
module Broadcast {
  import opened Common
  import opened Rooms

  type ConnId = nat

  /** The fields stored on the socket by a successful join. */
  datatype Tag = Untagged | Tagged(id: string, room: string, spectator: bool)

  datatype Conn = Conn(
    clientId: Option<string>,
    roomName: Option<string>,
    nickname: Option<string>,
    isSpectator: bool,
    tag: Tag,
    open: bool)          // readyState === OPEN

  /** A connection that has just been accepted. */
  const Accepted: Conn := Conn(None, None, None, false, Untagged, true)

  predicate Participant(r: Room, id: string)
  {
    id in r.players || id in r.spectators
  }

  /** `broadcast(room, ...)` as written (server.js:261-272): every open socket
      whose stored client id is a player or spectator id of the room,
      whatever room the socket joined. */
  function RoomRecipientsAsWritten(rooms: map<string, Room>, conns: map<ConnId, Conn>, name: string): (to: set<ConnId>)
    ensures to <= conns.Keys
    ensures name !in rooms ==> to == {}
    ensures forall c :: c in to <==>
      && c in conns && conns[c].open && conns[c].tag.Tagged?
      && name in rooms && Participant(rooms[name], conns[c].tag.id)
  {
    if name !in rooms then {}
    else set c | c in conns && conns[c].open && conns[c].tag.Tagged? && Participant(rooms[name], conns[c].tag.id)
  }

  /** `broadcastSpectators(room, ...)` as written (server.js:274-285). */
  function SpectatorRecipientsAsWritten(rooms: map<string, Room>, conns: map<ConnId, Conn>, name: string): (to: set<ConnId>)
    ensures to <= conns.Keys
    ensures name !in rooms ==> to == {}
    ensures to <= RoomRecipientsAsWritten(rooms, conns, name)
    ensures forall c :: c in to <==>
      && c in conns && conns[c].open && conns[c].tag.Tagged?
      && name in rooms && conns[c].tag.id in rooms[name].spectators
  {
    if name !in rooms then {}
    else set c | c in conns && conns[c].open && conns[c].tag.Tagged? && conns[c].tag.id in rooms[name].spectators
  }

  /** The open sockets that joined room `name` and whose id is still one of
      its participants: the room broadcast with the socket's own room
      checked as well. */
  function RoomRecipients(rooms: map<string, Room>, conns: map<ConnId, Conn>, name: string): (to: set<ConnId>)
    ensures to <= RoomRecipientsAsWritten(rooms, conns, name)
    ensures forall c :: c in to <==>
      && c in conns && conns[c].open && conns[c].tag.Tagged? && conns[c].tag.room == name
      && name in rooms && Participant(rooms[name], conns[c].tag.id)
  {
    if name !in rooms then {}
    else set c | c in conns && conns[c].open && conns[c].tag.Tagged? && conns[c].tag.room == name
                 && Participant(rooms[name], conns[c].tag.id)
  }

  /** The spectator broadcast with the socket's own room checked as well. */
  function SpectatorRecipients(rooms: map<string, Room>, conns: map<ConnId, Conn>, name: string): (to: set<ConnId>)
    ensures to <= SpectatorRecipientsAsWritten(rooms, conns, name)
    ensures to <= RoomRecipients(rooms, conns, name)
    ensures forall c :: c in to <==>
      && c in conns && conns[c].open && conns[c].tag.Tagged? && conns[c].tag.room == name
      && name in rooms && conns[c].tag.id in rooms[name].spectators
  {
    if name !in rooms then {}
    else set c | c in conns && conns[c].open && conns[c].tag.Tagged? && conns[c].tag.room == name
                 && conns[c].tag.id in rooms[name].spectators
  }

  /** Two different rooms' broadcasts never reach the same connection. */
  lemma RecipientsDisjoint(rooms: map<string, Room>, conns: map<ConnId, Conn>, a: string, b: string)
    requires a != b
    ensures RoomRecipients(rooms, conns, a) !! RoomRecipients(rooms, conns, b)
  {
  }

  /** The filter as written leaks: a player in room "B" registered as "0"
      receives room "A"'s broadcasts because "A" also has a player "0". */
  lemma CrossRoomLeak(pa: Rooms.Player, pb: Rooms.Player, ra: Room, rb: Room)
    requires ra.players == map["0" := pa] && rb.players == map["0" := pb]
    ensures var rooms := map["A" := ra, "B" := rb];
      var conns := map[1 := Conn(Some("0"), Some("B"), Some("Bob"), false, Tagged("0", "B", false), true)];
      && 1 in RoomRecipientsAsWritten(rooms, conns, "A")
      && 1 !in RoomRecipients(rooms, conns, "A")
  {
  }

  /** The same leak for spectator chat: spectator ids restart at s_0 in every room. */
  lemma CrossRoomSpectatorLeak(ra: Room, rb: Room)
    requires "s_0" in ra.spectators && "s_0" in rb.spectators
    ensures var rooms := map["A" := ra, "B" := rb];
      var conns := map[1 := Conn(Some("s_0"), Some("B"), Some("Eve"), true, Tagged("s_0", "B", true), true)];
      && 1 in SpectatorRecipientsAsWritten(rooms, conns, "A")
      && 1 !in SpectatorRecipients(rooms, conns, "A")
  {
  }

  /** `broadcastRooms` sends the directory to every open socket (server.js:293-301). */
  function OpenConns(conns: map<ConnId, Conn>): (to: set<ConnId>)
    ensures forall c :: c in to <==> c in conns && conns[c].open
  {
    set c | c in conns && conns[c].open
  }

  /** `{room, players, spectators}` */
  datatype RoomInfo = RoomInfo(room: string, players: nat, spectators: nat)

  /** The directory of `broadcastRooms` (server.js:288-292): every room in
      key order with its number of players and of spectators. */
  function Directory(rooms: map<string, Room>, order: seq<string>): (dir: seq<RoomInfo>)
    requires forall i :: 0 <= i < |order| ==> order[i] in rooms
    ensures |dir| == |order|
    ensures forall i :: 0 <= i < |dir| ==>
      dir[i] == RoomInfo(order[i], |rooms[order[i]].players|, |rooms[order[i]].spectators|)
  {
    seq(|order|, i requires 0 <= i < |order| =>
      RoomInfo(order[i], |rooms[order[i]].players|, |rooms[order[i]].spectators|))
  }
}
