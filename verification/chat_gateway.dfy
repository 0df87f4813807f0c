/** The live-chat gateway: a registry from user id to the id of that user's socket,
    the user each live socket authenticated as, the rooms each socket joined, and the
    log of events the gateway emitted. Each handler is a transition of that state. */
module ChatGateway {
  import opened Wrappers
  import opened Strings
  import opened Identity
  import JsMap

  type SocketId = string

  /** A live socket: the user stored at handshake (`client.data.user`) and its rooms. */
  datatype Socket = Socket(user: Option<Payload>, rooms: set<string>)

  /** Emitted events. A `chatCreated` goes to one socket; a `newMessage` goes to a room,
      and `recipients` records the sockets that were in the room at that moment. */
  datatype Event =
    | ChatCreated(socket: SocketId, requestId: int, partnerId: Option<int>, partnerRole: string, message: string)
    | NewMessage(room: string, recipients: set<SocketId>, requestId: int, message: string,
                 senderId: int, senderRole: Option<string>, timestamp: int)

  datatype Gateway = Gateway(
    connectedUsers: JsMap.JsMap<SocketId>,
    sockets: map<SocketId, Socket>,
    emitted: seq<Event>)

  /** The acknowledgement returned to the sender of `sendMessage`. */
  datatype Ack = ErrorAck(error: string) | StatusAck(status: string)

  function Init(): (g: Gateway)
    ensures Valid(g) && g.connectedUsers.entries == map[] && g.sockets == map[] && g.emitted == []
  {
    Gateway(JsMap.Empty(), map[], [])
  }

  /** Every registry entry names a live socket that authenticated as that very user. */
  ghost predicate Valid(g: Gateway) {
    && JsMap.Valid(g.connectedUsers)
    && forall u :: u in g.connectedUsers.entries ==>
      && g.connectedUsers.entries[u] in g.sockets
      && g.sockets[g.connectedUsers.entries[u]].user.Some?
      && g.sockets[g.connectedUsers.entries[u]].user.value.userId == u
  }

  /** `connectedUsers.get(u)`; an undefined user id finds nothing. */
  function Lookup(g: Gateway, u: Option<int>): Option<SocketId> {
    if u.Some? && u.value in g.connectedUsers.entries then Some(g.connectedUsers.entries[u.value]) else None
  }

  /** The room of a request, `chat-${requestId}`. */
  function RoomName(requestId: int): string {
    "chat-" + IntToString(requestId)
  }

  /** Different requests never share a room. */
  lemma RoomNameInjective(a: int, b: int)
    requires RoomName(a) == RoomName(b)
    ensures a == b
  {
    assert IntToString(a) == RoomName(a)[5..];
    assert IntToString(b) == RoomName(b)[5..];
    IntToStringInjective(a, b);
  }

  /** Live sockets currently joined to `room`. */
  function Members(g: Gateway, room: string): (m: set<SocketId>)
    ensures forall s :: s in m <==> s in g.sockets && room in g.sockets[s].rooms
  {
    set s | s in g.sockets && room in g.sockets[s].rooms
  }

  /** `handleConnection` for a socket the transport has just accepted. Without a token,
      or with one that fails verification, the socket is disconnected before anything is
      stored; otherwise the payload is attached to it and the registry maps its user to it,
      replacing any earlier socket of that user. */
  function HandleConnection(g: Gateway, sid: SocketId, token: Option<string>,
                            verify: string -> Option<Payload>): (r: Gateway)
    requires Valid(g) && sid !in g.sockets
    ensures Valid(r) && r.emitted == g.emitted
    ensures (token.None? || token == Some("") || verify(token.value).None?) ==> r == g
    ensures token.Some? && token.value != "" && verify(token.value).Some? ==>
      var u := verify(token.value).value;
      && r.sockets == g.sockets[sid := Socket(Some(u), {})]
      && Lookup(r, Some(u.userId)) == Some(sid)
      && forall v :: v != u.userId ==> Lookup(r, Some(v)) == Lookup(g, Some(v))
  {
    if token.None? || token.value == "" then g
    else
      match verify(token.value)
      case None => g
      case Some(u) =>
        Gateway(JsMap.Set(g.connectedUsers, u.userId, sid), g.sockets[sid := Socket(Some(u), {})], g.emitted)
  }

  /** `handleDisconnect`: the socket leaves the server and its rooms; if it had
      authenticated, its user's registry entry is deleted, whichever socket it named.
      A socket refused at handshake is never stored (`HandleConnection` leaves the state
      as it was), so its disconnect, which in the source finds no user and changes
      nothing, needs no call here; the unauthenticated case below is therefore not
      reachable from `Init` and is kept only so that the function is total on stored
      sockets. */
  function HandleDisconnect(g: Gateway, sid: SocketId): (r: Gateway)
    requires Valid(g) && sid in g.sockets
    ensures Valid(r)
    ensures sid !in r.sockets && r.sockets.Keys == g.sockets.Keys - {sid}
    ensures forall s :: s in r.sockets ==> r.sockets[s] == g.sockets[s]
    ensures r.emitted == g.emitted
    ensures g.sockets[sid].user.None? ==> r.connectedUsers == g.connectedUsers
    ensures g.sockets[sid].user.Some? ==>
      var u := g.sockets[sid].user.value.userId;
      && Lookup(r, Some(u)) == None
      && forall v :: v != u ==> Lookup(r, Some(v)) == Lookup(g, Some(v))
  {
    var s := g.sockets[sid];
    var users := if s.user.Some? then JsMap.Delete(g.connectedUsers, s.user.value.userId) else g.connectedUsers;
    Gateway(users, g.sockets - {sid}, g.emitted)
  }

  /** Joins the socket the registry named, if any and if it is still live, to `room`
      and sends it `ev`. */
  function JoinAndNotify(g: Gateway, sid: Option<SocketId>, room: string, ev: SocketId -> Event): (r: Gateway)
    ensures r.connectedUsers == g.connectedUsers && r.sockets.Keys == g.sockets.Keys
    ensures Online(g, sid) ==>
      && r.sockets[sid.value] == g.sockets[sid.value].(rooms := g.sockets[sid.value].rooms + {room})
      && r.emitted == g.emitted + [ev(sid.value)]
    ensures !Online(g, sid) ==> r == g
    ensures forall s :: s in g.sockets && Some(s) != sid ==> r.sockets[s] == g.sockets[s]
  {
    if Online(g, sid) then
      var sock := g.sockets[sid.value];
      Gateway(g.connectedUsers, g.sockets[sid.value := sock.(rooms := sock.rooms + {room})], g.emitted + [ev(sid.value)])
    else g
  }

  /** The registry returned a (truthy) socket id and the server still holds that socket. */
  predicate Online(g: Gateway, sid: Option<SocketId>) {
    sid.Some? && sid.value != "" && sid.value in g.sockets
  }

  function ClientNotice(requestId: int, driverId: int): SocketId -> Event {
    s => ChatCreated(s, requestId, Some(driverId), "driver", "Chat creado con tu driver")
  }

  function DriverNotice(requestId: int, clientId: Option<int>): SocketId -> Event {
    s => ChatCreated(s, requestId, clientId, "client", "Chat creado con tu cliente")
  }

  /** `createChatForRequest`: each of client and driver whose socket is registered and live
      joins the request's room and gets one `chatCreated` naming the other party; an offline
      party is skipped silently. Both sockets are looked up before either joins. */
  function CreateChatForRequest(g: Gateway, requestId: int, clientId: Option<int>, driverId: int): (r: Gateway)
    ensures r.connectedUsers == g.connectedUsers && r.sockets.Keys == g.sockets.Keys
    ensures Valid(g) ==> Valid(r)
    ensures
      var c := Lookup(g, clientId);
      var d := Lookup(g, Some(driverId));
      r.emitted == g.emitted
        + (if Online(g, c) then [ChatCreated(c.value, requestId, Some(driverId), "driver", "Chat creado con tu driver")] else [])
        + (if Online(g, d) then [ChatCreated(d.value, requestId, clientId, "client", "Chat creado con tu cliente")] else [])
    ensures forall s :: s in g.sockets ==>
      r.sockets[s].user == g.sockets[s].user
      && r.sockets[s].rooms == g.sockets[s].rooms
           + (if Some(s) in {Lookup(g, clientId), Lookup(g, Some(driverId))} && s != "" then {RoomName(requestId)} else {})
  {
    var room := RoomName(requestId);
    var clientSocket := Lookup(g, clientId);
    var driverSocket := Lookup(g, Some(driverId));
    var g1 := JoinAndNotify(g, clientSocket, room, ClientNotice(requestId, driverId));
    JoinAndNotify(g1, driverSocket, room, DriverNotice(requestId, clientId))
  }

  /** `sendMessage`: a socket that never authenticated gets `{ error: 'No autenticado' }`
      and nothing is emitted. Otherwise one `newMessage` goes to the request's room,
      carrying the text unchanged and the sender's id and role from its token; the sender's
      own membership of the room is not checked. */
  function HandleSendMessage(g: Gateway, sid: SocketId, requestId: int, message: string, now: int): (res: (Gateway, Ack))
    requires sid in g.sockets
    ensures res.0.connectedUsers == g.connectedUsers && res.0.sockets == g.sockets
    ensures g.sockets[sid].user.None? ==> res == (g, ErrorAck("No autenticado"))
    ensures g.sockets[sid].user.Some? ==>
      var u := g.sockets[sid].user.value;
      && res.1 == StatusAck("Mensaje enviado")
      && res.0.emitted == g.emitted
           + [NewMessage(RoomName(requestId), Members(g, RoomName(requestId)), requestId, message, u.userId, u.role, now)]
  {
    match g.sockets[sid].user
    case None => (g, ErrorAck("No autenticado"))
    case Some(u) =>
      var room := RoomName(requestId);
      var ev := NewMessage(room, Members(g, room), requestId, message, u.userId, u.role, now);
      (g.(emitted := g.emitted + [ev]), StatusAck("Mensaje enviado"))
  }

  /** `getOnlineUsers`: every registered user id once, in the registry's insertion
      order (see `ConnectionListOrder` and `DisconnectListOrder`). */
  function HandleGetOnlineUsers(g: Gateway): (ids: seq<int>)
    requires Valid(g)
    ensures forall u :: u in ids <==> Lookup(g, Some(u)).Some?
    ensures JsMap.Distinct(ids)
  {
    JsMap.Keys(g.connectedUsers)
  }

  /** A newly registered user is listed last; a user who connects again while still
      registered keeps its place. */
  lemma ConnectionListOrder(g: Gateway, sid: SocketId, token: string, verify: string -> Option<Payload>)
    requires Valid(g) && sid !in g.sockets
    requires token != "" && verify(token).Some?
    ensures var u := verify(token).value.userId;
      var after := HandleGetOnlineUsers(HandleConnection(g, sid, Some(token), verify));
      after == if Lookup(g, Some(u)).Some? then HandleGetOnlineUsers(g) else HandleGetOnlineUsers(g) + [u]
  {
    JsMap.SetThenKeys(g.connectedUsers, verify(token).value.userId, sid);
  }

  /** A disconnecting socket's user is cut out of the listing, whichever socket the
      registry named for it; everybody else keeps their place, so a user who reconnects
      afterwards is listed last. */
  lemma DisconnectListOrder(g: Gateway, sid: SocketId)
    requires Valid(g) && sid in g.sockets && g.sockets[sid].user.Some?
    ensures var u := g.sockets[sid].user.value.userId;
      var before := HandleGetOnlineUsers(g);
      var after := HandleGetOnlineUsers(HandleDisconnect(g, sid));
      && (u in before ==> after == before[..JsMap.IndexOf(before, u)] + before[JsMap.IndexOf(before, u) + 1..])
      && (u !in before ==> after == before)
  {
    JsMap.DeleteThenKeys(g.connectedUsers, g.sockets[sid].user.value.userId);
  }

  /** The handshake of a fresh socket that presents `token`; whether it authenticates
      depends on `verify`. */
  function Connect(g: Gateway, sid: SocketId, token: string, verify: string -> Option<Payload>): (r: Gateway)
    requires Valid(g) && sid !in g.sockets
    ensures Valid(r)
  {
    HandleConnection(g, sid, Some(token), verify)
  }

  /** Last connection wins: when a user opens a second socket, the registry names the
      second one, while the first stays live and authenticated but unreachable. */
  lemma LastConnectionWins(g: Gateway, s1: SocketId, s2: SocketId, t1: string, t2: string,
                           verify: string -> Option<Payload>)
    requires Valid(g) && s1 !in g.sockets && s2 !in g.sockets && s1 != s2
    requires t1 != "" && t2 != "" && verify(t1).Some? && verify(t2).Some?
    requires verify(t1).value.userId == verify(t2).value.userId
    ensures var g1 := Connect(g, s1, t1, verify);
      var g2 := Connect(g1, s2, t2, verify);
      && Lookup(g1, Some(verify(t1).value.userId)) == Some(s1)
      && Lookup(g2, Some(verify(t1).value.userId)) == Some(s2)
      && s1 in g2.sockets && g2.sockets[s1].user == verify(t1)
  {
    var g1 := Connect(g, s1, t1, verify);
    assert s2 !in g1.sockets;
  }

  /** A registry hit names a live socket that authenticated as the looked-up user. */
  lemma LookupNamesOwner(g: Gateway, u: Option<int>)
    requires Valid(g) && Lookup(g, u).Some?
    ensures var s := Lookup(g, u).value;
      s in g.sockets && g.sockets[s].user.Some? && g.sockets[s].user.value.userId == u.value
  {
    var k := u.value;
    assert k in g.connectedUsers.entries;
    assert Lookup(g, u).value == g.connectedUsers.entries[k];
    assert g.connectedUsers.entries[k] in g.sockets;
  }

  /** A stale disconnect: when the older of two sockets of one user goes away, the user
      disappears from the registry although the newer socket is still live and
      authenticated, so a chat created afterwards does not reach that user. */
  lemma StaleDisconnectUnregistersLiveUser(g: Gateway, s1: SocketId, s2: SocketId, t1: string, t2: string,
                                           verify: string -> Option<Payload>, requestId: int, clientId: Option<int>)
    requires Valid(g) && s1 !in g.sockets && s2 !in g.sockets && s1 != s2 && s2 != ""
    requires t1 != "" && t2 != "" && verify(t1).Some? && verify(t2).Some?
    requires verify(t1).value.userId == verify(t2).value.userId
    requires clientId != Some(verify(t1).value.userId)
    ensures var u := verify(t1).value.userId;
      var g2 := Connect(Connect(g, s1, t1, verify), s2, t2, verify);
      var g3 := HandleDisconnect(g2, s1);
      && s2 in g3.sockets && g3.sockets[s2].user == verify(t2)
      && Lookup(g3, Some(u)) == None
      && RoomName(requestId) !in CreateChatForRequest(g3, requestId, clientId, u).sockets[s2].rooms
  {
    var u := verify(t1).value.userId;
    var g1 := Connect(g, s1, t1, verify);
    var g2 := Connect(g1, s2, t2, verify);
    var g3 := HandleDisconnect(g2, s1);
    assert g3.sockets[s2].user == Some(verify(t2).value);
    if Lookup(g3, clientId).Some? {
      LookupNamesOwner(g3, clientId);
    }
  }

  /** Once a chat is created for two online parties, a message either of them sends to
      that request reaches both of their sockets. */
  lemma ChatThenMessageReachesBoth(g: Gateway, requestId: int, clientId: int, driverId: int,
                                   message: string, now: int)
    requires Valid(g)
    requires Online(g, Lookup(g, Some(clientId))) && Online(g, Lookup(g, Some(driverId)))
    ensures var cs, ds := Lookup(g, Some(clientId)).value, Lookup(g, Some(driverId)).value;
      var g1 := CreateChatForRequest(g, requestId, Some(clientId), driverId);
      var (g2, ack) := HandleSendMessage(g1, cs, requestId, message, now);
      && ack == StatusAck("Mensaje enviado")
      && g2.emitted[|g2.emitted| - 1].NewMessage?
      && {cs, ds} <= g2.emitted[|g2.emitted| - 1].recipients
      && g2.emitted[|g2.emitted| - 1].message == message
      && g2.emitted[|g2.emitted| - 1].senderId == clientId
  {
    var cs, ds := Lookup(g, Some(clientId)).value, Lookup(g, Some(driverId)).value;
    var g1 := CreateChatForRequest(g, requestId, Some(clientId), driverId);
    assert RoomName(requestId) in g1.sockets[cs].rooms;
    assert RoomName(requestId) in g1.sockets[ds].rooms;
  }

  /** Creating the chat of one request adds nobody to the room of another. */
  lemma ChatsStayApart(g: Gateway, requestId: int, other: int, clientId: Option<int>, driverId: int)
    requires requestId != other
    ensures Members(CreateChatForRequest(g, requestId, clientId, driverId), RoomName(other))
         == Members(g, RoomName(other))
  {
    if RoomName(requestId) == RoomName(other) {
      RoomNameInjective(requestId, other);
    }
  }
}
