/** The realtime router. The socket server is an ordered registry of connections, each with
    the user its handshake authenticated and the rooms it joined; every emitted event is
    appended to a log as a (connection, event) delivery. Each handler runs as one sequential
    step over the registry and the database. Room names are conversation ids. */
module SocketGateway {

  import opened Wrappers
  import opened Store
  import Sequences
  import JsString
  import ParticipantService
  import MessageService
  import ConversationService

  const NotParticipantOfConversation := "Not a participant of this conversation"

  /** What a client sends when it connects: the `authorization` header and `auth.token`. */
  datatype Handshake = Handshake(authorization: Option<string>, authToken: Option<string>)

  /** A socket: whether it is still connected, the user bound to it, the rooms it joined. */
  datatype Connection = Connection(live: bool, userId: Option<nat>, rooms: set<nat>)

  /** The `sender` of a `new_message`: the whole user row, or only the username. */
  datatype Sender = SenderRecord(user: User) | SenderName(username: string)

  datatype Event =
    | Error(message: string)
    | JoinedConversation(conversationId: nat)
    | UserAddedToConversation(conversationId: nat, addedUserId: nat, addedBy: nat)
    | NewMessage(id: nat, content: string, createdAt: int, sender: Sender, conversationId: nat)
    | ConversationUpdated(conversations: seq<ParticipantService.DirectoryEntry>)

  datatype Delivery = Delivery(connection: nat, event: Event)

  // ---------------------------------------------------------------------------------------
  // Authentication on connection

  /** `headers.authorization?.split(' ')[1]`. */
  function HeaderToken(h: Handshake): Option<string>
  {
    if h.authorization.None? then None
    else JsString.ElementAt(JsString.SplitOnSpace(h.authorization.value), 1)
  }

  /** The header's second word, or else `auth.token`; an absent or empty string is falsy, and
      a falsy token is no token. */
  function ExtractToken(h: Handshake): (r: Option<string>)
    ensures r.Some? ==> r.value != ""
  {
    var fromHeader := HeaderToken(h);
    if fromHeader.Some? && fromHeader.value != "" then fromHeader
    else if h.authToken.Some? && h.authToken.value != "" then h.authToken
    else None
  }

  /** A `<scheme> <token>` header yields its token, and an empty token falls back to
      `auth.token`. */
  lemma BearerHeaderToken(scheme: string, token: string, authToken: Option<string>)
    requires ' ' !in scheme && ' ' !in token
    ensures ExtractToken(Handshake(Some(scheme + " " + token), authToken)) ==
      if token != "" then Some(token)
      else if authToken.Some? && authToken.value != "" then authToken
      else None
  {
    JsString.SplitAfterWord(scheme, token);
    JsString.SplitNoSpace(token);
  }

  /** Without a second word in the header the token is `auth.token`, when it is non-empty. */
  lemma TokenWithoutHeaderWord(h: Handshake)
    requires h.authorization.None? || ' ' !in h.authorization.value
    ensures ExtractToken(h) == if h.authToken.Some? && h.authToken.value != "" then h.authToken else None
  {
    if h.authorization.Some? {
      JsString.SplitNoSpace(h.authorization.value);
    }
  }

  /** The user a handshake authenticates, where `verify` stands for the token verifier: it
      maps each token it accepts to the `sub` of its payload. */
  function Authenticate(h: Handshake, verify: map<string, nat>): (r: Option<nat>)
    ensures r.Some? <==> ExtractToken(h).Some? && ExtractToken(h).value in verify
    ensures r.Some? ==> r.value == verify[ExtractToken(h).value]
  {
    match ExtractToken(h)
    case None => None
    case Some(token) => if token in verify then Some(verify[token]) else None
  }

  // ---------------------------------------------------------------------------------------
  // The registry

  /** A connected socket bound to the user. */
  predicate Serves(c: Connection, userId: nat)
  {
    c.live && c.userId == Some(userId)
  }

  /** `(await fetchSockets()).find(s => s.data.userId === userId)`: the first connected socket
      of the user. */
  function FirstLive(conns: seq<Connection>, userId: nat): (r: Option<nat>)
    ensures r.Some? ==> r.value < |conns| && Serves(conns[r.value], userId)
    ensures r.Some? ==> forall j :: 0 <= j < r.value ==> !Serves(conns[j], userId)
    ensures r.None? <==> forall j :: 0 <= j < |conns| ==> !Serves(conns[j], userId)
  {
    if conns == [] then None
    else if Serves(conns[0], userId) then Some(0)
    else
      match FirstLive(conns[1..], userId)
      case None =>
        assert forall j :: 1 <= j < |conns| ==> conns[j] == conns[1..][j - 1];
        None
      case Some(k) => Some(k + 1)
  }

  /** Two registries that differ at most in room sets. */
  predicate SameSockets(a: seq<Connection>, b: seq<Connection>)
  {
    |a| == |b| && forall i :: 0 <= i < |a| ==> a[i].live == b[i].live && a[i].userId == b[i].userId
  }

  /** No room set shrinks. */
  predicate RoomsOnlyGrow(a: seq<Connection>, b: seq<Connection>)
  {
    SameSockets(a, b) && forall i :: 0 <= i < |a| ==> a[i].rooms <= b[i].rooms
  }

  lemma RoomsOnlyGrowTransitive(a: seq<Connection>, b: seq<Connection>, c: seq<Connection>)
    requires RoomsOnlyGrow(a, b) && RoomsOnlyGrow(b, c)
    ensures RoomsOnlyGrow(a, c)
  {
  }

  /** Joining rooms does not change which socket `find` picks. */
  lemma FirstLiveSameSockets(a: seq<Connection>, b: seq<Connection>, userId: nat)
    requires SameSockets(a, b)
    ensures FirstLive(a, userId) == FirstLive(b, userId)
  {
    var ra, rb := FirstLive(a, userId), FirstLive(b, userId);
    if ra.Some? {
      assert Serves(b[ra.value], userId);
    }
    if rb.Some? {
      assert Serves(a[rb.value], userId);
    }
  }

  /** `socket.join(room)` on one connection. */
  function Join(conns: seq<Connection>, i: nat, room: nat): (r: seq<Connection>)
    requires i < |conns|
  {
    conns[i := conns[i].(rooms := conns[i].rooms + {room})]
  }

  /** The user's first connected socket joins the room, when there is one. */
  function JoinOne(conns: seq<Connection>, userId: nat, room: nat): (r: seq<Connection>)
  {
    match FirstLive(conns, userId)
    case None => conns
    case Some(i) => Join(conns, i, room)
  }

  /** The loop over users that makes the first connected socket of each join the room. */
  function JoinFirst(conns: seq<Connection>, userIds: seq<nat>, room: nat): (r: seq<Connection>)
    decreases |userIds|
  {
    if userIds == [] then conns
    else JoinOne(JoinFirst(conns, userIds[..|userIds| - 1], room), userIds[|userIds| - 1], room)
  }

  /** Connection `i` is the first connected socket of one of the users. */
  predicate FirstOfSome(conns: seq<Connection>, userIds: seq<nat>, i: nat)
    requires i < |conns|
  {
    conns[i].live && conns[i].userId.Some? && conns[i].userId.value in userIds &&
    FirstLive(conns, conns[i].userId.value) == Some(i)
  }

  /** Joining a socket to a room adds that room to it and changes nothing else. */
  lemma JoinAddsRoom(conns: seq<Connection>, i: nat, room: nat)
    requires i < |conns|
    ensures RoomsOnlyGrow(conns, Join(conns, i, room))
    ensures forall j :: 0 <= j < |conns| ==>
      Join(conns, i, room)[j].rooms == conns[j].rooms + (if j == i then {room} else {})
  {
  }

  /** After the loop, exactly the first connected socket of each listed user has joined the
      room; every other room set is as it was, and no socket appears or goes away. */
  lemma {:induction false} JoinFirstRooms(conns: seq<Connection>, userIds: seq<nat>, room: nat)
    ensures SameSockets(conns, JoinFirst(conns, userIds, room))
    ensures forall i :: 0 <= i < |conns| ==>
      JoinFirst(conns, userIds, room)[i].rooms == conns[i].rooms + (if FirstOfSome(conns, userIds, i) then {room} else {})
    decreases |userIds|
  {
    if userIds != [] {
      var init, u := userIds[..|userIds| - 1], userIds[|userIds| - 1];
      assert userIds == init + [u];
      JoinFirstRooms(conns, init, room);
      var mid := JoinFirst(conns, init, room);
      FirstLiveSameSockets(conns, mid, u);
      match FirstLive(mid, u)
      case None =>
        forall i | 0 <= i < |conns| ensures FirstOfSome(conns, userIds, i) == FirstOfSome(conns, init, i) {
          if FirstOfSome(conns, userIds, i) {
            assert conns[i].userId.value != u;
          }
        }
      case Some(k) =>
        JoinAddsRoom(mid, k, room);
        forall i | 0 <= i < |conns| ensures FirstOfSome(conns, userIds, i) == (FirstOfSome(conns, init, i) || i == k) {
          if FirstOfSome(conns, userIds, i) && conns[i].userId.value == u {
            assert i == k;
          }
        }
    }
  }

  /** Rooms are only ever added by the loop. */
  lemma JoinFirstOnlyGrows(conns: seq<Connection>, userIds: seq<nat>, room: nat)
    ensures RoomsOnlyGrow(conns, JoinFirst(conns, userIds, room))
  {
    JoinFirstRooms(conns, userIds, room);
  }

  /** Running the loop again changes nothing: joins are idempotent on room sets. */
  lemma JoinFirstIdempotent(conns: seq<Connection>, userIds: seq<nat>, room: nat)
    ensures JoinFirst(JoinFirst(conns, userIds, room), userIds, room) == JoinFirst(conns, userIds, room)
  {
    var once := JoinFirst(conns, userIds, room);
    var twice := JoinFirst(once, userIds, room);
    JoinFirstRooms(conns, userIds, room);
    JoinFirstRooms(once, userIds, room);
    forall i | 0 <= i < |conns| ensures twice[i] == once[i] {
      if once[i].userId.Some? {
        FirstLiveSameSockets(conns, once, once[i].userId.value);
      }
      assert FirstOfSome(once, userIds, i) == FirstOfSome(conns, userIds, i);
    }
  }

  // ---------------------------------------------------------------------------------------
  // Emitting

  predicate InRoom(c: Connection, room: nat)
  {
    c.live && room in c.rooms
  }

  /** `server.to(room).emit(e)`: one delivery to each connected socket in the room, in
      registry order. */
  function RoomFanout(conns: seq<Connection>, room: nat, e: Event): (r: seq<Delivery>)
    ensures forall d :: d in r <==> d.event == e && d.connection < |conns| && InRoom(conns[d.connection], room)
  {
    if conns == [] then []
    else
      var n := |conns| - 1;
      var init := RoomFanout(conns[..n], room, e);
      assert forall j :: 0 <= j < n ==> conns[..n][j] == conns[j];
      init + (if InRoom(conns[n], room) then [Delivery(n, e)] else [])
  }

  /** The deliveries go to sockets in strictly increasing registry order. */
  predicate InSocketOrder(r: seq<Delivery>)
  {
    forall i, j :: 0 <= i < j < |r| ==> r[i].connection < r[j].connection
  }

  /** A room emit reaches each socket at most once. */
  lemma {:induction false} RoomFanoutOnce(conns: seq<Connection>, room: nat, e: Event)
    ensures InSocketOrder(RoomFanout(conns, room, e))
  {
    if conns != [] {
      var n := |conns| - 1;
      RoomFanoutOnce(conns[..n], room, e);
      var init := RoomFanout(conns[..n], room, e);
      var r := RoomFanout(conns, room, e);
      assert r == init + (if InRoom(conns[n], room) then [Delivery(n, e)] else []);
      forall i, j | 0 <= i < j < |r| ensures r[i].connection < r[j].connection {
        assert i < |init| && r[i] == init[i];
        if j < |init| {
          assert r[j] == init[j];
          assert init[i].connection < init[j].connection;
        } else {
          assert init[i] in init;
          assert init[i].connection < n;
          assert r[j] == Delivery(n, e);
        }
      }
    }
  }

  /** After the join loop, a room emit reaches exactly the connected sockets that were in the
      room already and the first connected socket of each listed user. */
  lemma JoinThenFanout(conns: seq<Connection>, userIds: seq<nat>, room: nat, e: Event)
    ensures var r := RoomFanout(JoinFirst(conns, userIds, room), room, e);
      forall i: nat :: Delivery(i, e) in r <==>
        i < |conns| && conns[i].live && (room in conns[i].rooms || FirstOfSome(conns, userIds, i))
  {
    JoinFirstRooms(conns, userIds, room);
  }

  /** Only the first socket of a user joins: a user connected twice, in no room yet, gets a
      message on the first socket and not on the second. */
  lemma SecondSocketMissesMessage(e: Event)
    ensures var conns := [Connection(true, Some(1), {}), Connection(true, Some(1), {})];
      var r := RoomFanout(JoinFirst(conns, [1], 7), 7, e);
      Delivery(0, e) in r && Delivery(1, e) !in r
  {
    var conns := [Connection(true, Some(1), {}), Connection(true, Some(1), {})];
    JoinThenFanout(conns, [1], 7, e);
    assert FirstLive(conns, 1) == Some(0);
    assert FirstOfSome(conns, [1], 0);
    assert !FirstOfSome(conns, [1], 1);
  }

  /** Each user's own list of conversations with their last messages. */
  function DirectoryOf(t: Tables): nat -> seq<ParticipantService.DirectoryEntry>
  {
    (userId: nat) => if Integrity(t) then ParticipantService.GetUserConversationsWithLastMessage(t, userId) else []
  }

  /** The `conversation_updated` notice for one user: its directory, on its first connected
      socket, if it has one. */
  function Notice(conns: seq<Connection>, userId: nat, directory: nat -> seq<ParticipantService.DirectoryEntry>)
    : (r: seq<Delivery>)
  {
    match FirstLive(conns, userId)
    case None => []
    case Some(i) => [Delivery(i, ConversationUpdated(directory(userId)))]
  }

  /** The notice carries the directory looked up for the user. */
  lemma NoticeOf(conns: seq<Connection>, userId: nat, directory: nat -> seq<ParticipantService.DirectoryEntry>,
                 conversations: seq<ParticipantService.DirectoryEntry>)
    requires conversations == directory(userId)
    ensures FirstLive(conns, userId).None? ==> Notice(conns, userId, directory) == []
    ensures FirstLive(conns, userId).Some? ==>
      Notice(conns, userId, directory) == [Delivery(FirstLive(conns, userId).value, ConversationUpdated(conversations))]
  {
  }

  /** The notices of `updateConversationList`, one user after the other. */
  function Updates(conns: seq<Connection>, userIds: seq<nat>, directory: nat -> seq<ParticipantService.DirectoryEntry>)
    : (r: seq<Delivery>)
    decreases |userIds|
  {
    if userIds == [] then []
    else Updates(conns, userIds[..|userIds| - 1], directory) + Notice(conns, userIds[|userIds| - 1], directory)
  }

  /** The delivery goes to the first connected socket of a listed user and carries the
      directory of the user bound to that socket. */
  predicate UpdateFor(conns: seq<Connection>, userIds: seq<nat>, directory: nat -> seq<ParticipantService.DirectoryEntry>,
                      d: Delivery)
  {
    && d.connection < |conns| && FirstOfSome(conns, userIds, d.connection)
    && d.event == ConversationUpdated(directory(conns[d.connection].userId.value))
  }

  /** A user's notice is the one for the first connected socket bound to it. */
  lemma NoticeExact(conns: seq<Connection>, userId: nat, directory: nat -> seq<ParticipantService.DirectoryEntry>)
    ensures forall d :: d in Notice(conns, userId, directory) <==> UpdateFor(conns, [userId], directory, d)
  {
    forall d ensures d in Notice(conns, userId, directory) <==> UpdateFor(conns, [userId], directory, d) {
      if UpdateFor(conns, [userId], directory, d) {
        assert conns[d.connection].userId.value == userId;
      }
    }
  }

  /** A notice goes exactly to the first connected socket of a listed user, and carries the
      directory of the user bound to that socket; users with no connected socket get none. */
  lemma {:induction false} UpdatesExact(conns: seq<Connection>, userIds: seq<nat>,
                                        directory: nat -> seq<ParticipantService.DirectoryEntry>)
    ensures forall d :: d in Updates(conns, userIds, directory) <==> UpdateFor(conns, userIds, directory, d)
    decreases |userIds|
  {
    if userIds != [] {
      var init, u := userIds[..|userIds| - 1], userIds[|userIds| - 1];
      assert userIds == init + [u];
      UpdatesExact(conns, init, directory);
      NoticeExact(conns, u, directory);
      forall d ensures UpdateFor(conns, userIds, directory, d) <==>
        UpdateFor(conns, init, directory, d) || UpdateFor(conns, [u], directory, d) {
      }
    }
  }

  /** One more record adds the notice of its user. */
  lemma UpdatesStep(conns: seq<Connection>, records: seq<ParticipantService.RecordWithUser>, k: nat,
                    directory: nat -> seq<ParticipantService.DirectoryEntry>)
    requires k < |records|
    ensures Updates(conns, UserIdsOf(records[..k + 1]), directory) ==
      Updates(conns, UserIdsOf(records[..k]), directory) + Notice(conns, records[k].record.userId, directory)
  {
    assert records[..k + 1][..k] == records[..k];
  }

  /** The user ids of the records, in order. */
  function UserIdsOf(records: seq<ParticipantService.RecordWithUser>): (r: seq<nat>)
    ensures |r| == |records|
    ensures forall i :: 0 <= i < |records| ==> r[i] == records[i].record.userId
    decreases |records|
  {
    if records == [] then []
    else UserIdsOf(records[..|records| - 1]) + [records[|records| - 1].record.userId]
  }

  /** The payload of `new_message`. */
  function NewMessageOf(m: MessageService.MessageWithRelations, sender: Sender): (e: Event)
    ensures e.NewMessage? && e.id == m.message.id && e.content == m.message.content
    ensures e.createdAt == m.message.createdAt && e.conversationId == m.message.conversationId
  {
    NewMessage(m.message.id, m.message.content, m.message.createdAt, sender, m.message.conversationId)
  }

  /** Every delivery is addressed to a socket of the registry. */
  predicate Addressed(log: seq<Delivery>, n: nat)
  {
    forall d :: d in log ==> d.connection < n
  }

  lemma AddressedFanout(log: seq<Delivery>, conns: seq<Connection>, room: nat, e: Event)
    requires Addressed(log, |conns|)
    ensures Addressed(log + RoomFanout(conns, room, e), |conns|)
  {
  }

  /** A connected socket is bound to a user: the handshake disconnects every other. */
  predicate Authenticated(conns: seq<Connection>)
  {
    forall i :: 0 <= i < |conns| && conns[i].live ==> conns[i].userId.Some?
  }

  // ---------------------------------------------------------------------------------------
  // The gateway

  class Gateway {
    var conns: seq<Connection>
    var log: seq<Delivery>
    const db: Database

    ghost predicate Valid()
      reads this, db
    {
      db.Valid() && Authenticated(conns) && Addressed(log, |conns|)
    }

    constructor (db: Database)
      requires db.Valid()
      ensures Valid() && this.db == db
      ensures conns == [] && log == []
    {
      this.db := db;
      conns, log := [], [];
    }

    /** `handleConnection`: a new socket, bound to the user of its token; with no token, or one
        the verifier refuses, it is disconnected with no user. */
    method HandleConnection(h: Handshake, verify: map<string, nat>) returns (c: nat)
      requires Valid()
      modifies this
      ensures Valid()
      ensures var u := Authenticate(h, verify);
        conns == old(conns) + [Connection(u.Some?, u, {})] && c == |old(conns)|
      ensures log == old(log)
    {
      var token := ExtractToken(h);
      var userId: Option<nat> := None;
      if token.Some? && token.value in verify {
        userId := Some(verify[token.value]);
      }
      c := |conns|;
      conns := conns + [Connection(userId.Some?, userId, {})];
    }

    /** A socket disconnects; `handleDisconnect` itself does nothing. */
    method HandleDisconnect(c: nat)
      requires Valid() && c < |conns|
      modifies this
      ensures Valid()
      ensures conns == old(conns)[c := old(conns[c]).(live := false)] && log == old(log)
    {
      conns := conns[c := conns[c].(live := false)];
    }

    /** `join_conversation`: a member's socket joins the room and is told so; anybody else's
        gets an error and joins nothing. */
    method JoinConversation(c: nat, conversationId: nat)
      requires Valid() && c < |conns| && conns[c].live
      modifies this
      ensures Valid()
      ensures var userId := old(conns[c].userId.value);
        if ParticipantService.FindParticipantOf(db.tables, conversationId, userId).None? then
          conns == old(conns) && log == old(log) + [Delivery(c, Error(NotParticipantOfConversation))]
        else
          conns == Join(old(conns), c, conversationId) && log == old(log) + [Delivery(c, JoinedConversation(conversationId))]
      ensures RoomsOnlyGrow(old(conns), conns)
    {
      var userId := conns[c].userId.value;
      var participant := ParticipantService.FindParticipantOf(db.tables, conversationId, userId);
      if participant.None? {
        log := log + [Delivery(c, Error(NotParticipantOfConversation))];
        return;
      }
      JoinAddsRoom(conns, c, conversationId);
      conns := Join(conns, c, conversationId);
      log := log + [Delivery(c, JoinedConversation(conversationId))];
    }

    /** `server.to(room).emit(e)`. */
    method Broadcast(room: nat, e: Event)
      requires Valid()
      modifies this
      ensures Valid()
      ensures conns == old(conns) && log == old(log) + RoomFanout(conns, room, e)
    {
      AddressedFanout(log, conns, room, e);
      log := log + RoomFanout(conns, room, e);
    }

    /** The first connected socket of each listed user joins the room. */
    method JoinFirstSockets(userIds: seq<nat>, room: nat)
      requires Valid()
      modifies this
      ensures Valid()
      ensures conns == JoinFirst(old(conns), userIds, room) && log == old(log)
    {
      for k := 0 to |userIds|
        invariant conns == JoinFirst(old(conns), userIds[..k], room) && log == old(log)
      {
        assert userIds[..k + 1][..k] == userIds[..k];
        var s := FirstLive(conns, userIds[k]);
        if s.Some? {
          conns := Join(conns, s.value, room);
        }
      }
      assert userIds[..|userIds|] == userIds;
      JoinFirstRooms(old(conns), userIds, room);
    }

    /** `updateConversationList`: each member of the conversation with a connected socket gets
        its own directory on its first socket. */
    method UpdateConversationList(conversationId: nat)
      requires Valid()
      modifies this
      ensures Valid()
      ensures conns == old(conns)
      ensures log == old(log) +
        Updates(conns, UserIdsOf(ParticipantService.GetConversationParticipants(db.tables, conversationId)),
                DirectoryOf(db.tables))
    {
      var participants := ParticipantService.GetConversationParticipants(db.tables, conversationId);
      for k := 0 to |participants|
        invariant Valid() && conns == old(conns)
        invariant log == old(log) + Updates(conns, UserIdsOf(participants[..k]), DirectoryOf(db.tables))
      {
        NotifyUser(participants[k].record.userId);
        UpdatesStep(conns, participants, k, DirectoryOf(db.tables));
        Sequences.AppendAssoc(old(log), Updates(conns, UserIdsOf(participants[..k]), DirectoryOf(db.tables)),
                              Notice(conns, participants[k].record.userId, DirectoryOf(db.tables)));
      }
      assert participants[..|participants|] == participants;
    }

    /** One turn of the refresh: the user's directory goes to the user's first connected
        socket, if any. */
    method NotifyUser(userId: nat)
      requires Valid()
      modifies this
      ensures Valid()
      ensures conns == old(conns)
      ensures log == old(log) + Notice(conns, userId, DirectoryOf(db.tables))
    {
      var conversations := ParticipantService.GetUserConversationsWithLastMessage(db.tables, userId);
      var s := FirstLive(conns, userId);
      NoticeOf(conns, userId, DirectoryOf(db.tables), conversations);
      if s.Some? {
        log := log + [Delivery(s.value, ConversationUpdated(conversations))];
      }
    }

    /** `send_message`: the message is posted; then the first socket of each member joins the
        room, the message goes to the room, and the members' lists are refreshed. A refused
        post is swallowed: nothing is emitted to anybody. */
    method SendMessage(c: nat, rule: MessageService.SenderRule, conversationId: nat, content: string, now: int)
      requires Valid() && c < |conns| && conns[c].live
      modifies this, db
      ensures Valid()
      ensures var r := MessageService.Post(rule, old(db.tables), old(db.nextMessageId), old(conns[c].userId.value),
                                           conversationId, content, now);
        if r.Err? then
          db.tables == old(db.tables) && conns == old(conns) && log == old(log)
        else
          var userIds := UserIdsOf(ParticipantService.GetConversationParticipants(db.tables, conversationId));
          && db.tables == old(db.tables).(messages := old(db.tables.messages) + [r.value.message])
          && conns == JoinFirst(old(conns), userIds, conversationId)
          && log == old(log) + RoomFanout(conns, conversationId, NewMessageOf(r.value, SenderRecord(r.value.sender)))
                             + Updates(conns, userIds, DirectoryOf(db.tables))
      ensures RoomsOnlyGrow(old(conns), conns)
      ensures db.nextUserId == old(db.nextUserId) && db.nextConversationId == old(db.nextConversationId)
      ensures db.nextParticipantId == old(db.nextParticipantId)
    {
      var userId := conns[c].userId.value;
      var r := MessageService.AddMessageToConversation(db, rule, userId, conversationId, content, now);
      if r.Err? {
        return;
      }
      var participants := ParticipantService.GetConversationParticipants(db.tables, conversationId);
      var userIds := UserIdsOf(participants);
      JoinFirstSockets(userIds, conversationId);
      Broadcast(conversationId, NewMessageOf(r.value, SenderRecord(r.value.sender)));
      UpdateConversationList(conversationId);
      JoinFirstOnlyGrows(old(conns), userIds, conversationId);
    }

    /** `start_conversation`: the conversation is created or reused and the first message
        posted; the first socket of the creator and of each invited user joins the room, the
        message goes to the room with the sender as a username, and the members' lists are
        refreshed. A refusal is reported to the caller alone. */
    method StartConversation(c: nat, rule: MessageService.SenderRule, participantIds: seq<nat>, content: string,
                             now: int)
      requires Valid() && c < |conns| && conns[c].live
      modifies this, db
      ensures Valid()
      ensures db.tables == MessageService.AfterStart(rule, old(db.tables), old(db.nextConversationId),
                                                     old(db.nextParticipantId), old(db.nextMessageId),
                                                     old(conns[c].userId.value), participantIds, content, now)
      ensures var userId := old(conns[c].userId.value);
        var r := MessageService.Start(rule, old(db.tables), old(db.nextConversationId), old(db.nextParticipantId),
                                      old(db.nextMessageId), userId, participantIds, content, now);
        if r.Err? then
          conns == old(conns) && log == old(log) + [Delivery(c, Error(r.error.message))]
        else
          var room := r.value.message.conversationId;
          && conns == JoinFirst(old(conns), [userId] + participantIds, room)
          && log == old(log) + RoomFanout(conns, room, NewMessageOf(r.value, SenderName(r.value.sender.username)))
                             + Updates(conns, UserIdsOf(ParticipantService.GetConversationParticipants(db.tables, room)),
                                       DirectoryOf(db.tables))
      ensures RoomsOnlyGrow(old(conns), conns)
      ensures db.nextUserId == old(db.nextUserId)
    {
      var userId := conns[c].userId.value;
      var r := MessageService.StartConversationWithFirstMessage(db, rule, userId, participantIds, content, now);
      ghost var after := db.tables;
      if r.Err? {
        log := log + [Delivery(c, Error(r.error.message))];
        return;
      }
      var room := r.value.message.conversationId;
      JoinFirstSockets([userId] + participantIds, room);
      Broadcast(room, NewMessageOf(r.value, SenderName(r.value.sender.username)));
      UpdateConversationList(room);
      JoinFirstOnlyGrows(old(conns), [userId] + participantIds, room);
      assert db.tables == after;
    }

    /** `add_to_conversation`: after a successful add the caller's socket joins the room; only
        when the added user has a connected socket does its first one join, the room hear of
        the addition and the members' lists get refreshed. A refusal is reported to the caller
        alone. */
    method AddToConversation(c: nat, conversationId: nat, addedUserId: nat)
      requires Valid() && c < |conns| && conns[c].live
      modifies this, db
      ensures Valid()
      ensures var userId := old(conns[c].userId.value);
        var r := ParticipantService.Add(old(db.tables), old(db.nextParticipantId), userId, conversationId, addedUserId);
        if r.Err? then
          db.tables == old(db.tables) && conns == old(conns) && log == old(log) + [Delivery(c, Error(r.error.message))]
        else
          var joined := Join(old(conns), c, conversationId);
          && db.tables == old(db.tables).(participants := old(db.tables.participants) + [r.value])
          && if FirstLive(old(conns), addedUserId).None? then
               conns == joined && log == old(log)
             else
               && conns == JoinOne(joined, addedUserId, conversationId)
               && log == old(log)
                  + RoomFanout(conns, conversationId, UserAddedToConversation(conversationId, addedUserId, userId))
                  + Updates(conns, UserIdsOf(ParticipantService.GetConversationParticipants(db.tables, conversationId)),
                            DirectoryOf(db.tables))
      ensures RoomsOnlyGrow(old(conns), conns)
      ensures db.nextUserId == old(db.nextUserId) && db.nextConversationId == old(db.nextConversationId)
      ensures db.nextMessageId == old(db.nextMessageId)
    {
      var userId := conns[c].userId.value;
      var r := ParticipantService.AddParticipantToConversation(db, userId, conversationId, addedUserId);
      if r.Err? {
        log := log + [Delivery(c, Error(r.error.message))];
        return;
      }
      JoinAddsRoom(conns, c, conversationId);
      conns := Join(conns, c, conversationId);
      FirstLiveSameSockets(old(conns), conns, addedUserId);
      ghost var joined := conns;
      WelcomeInvited(conversationId, addedUserId, userId);
      RoomsOnlyGrowTransitive(old(conns), joined, conns);
    }

    /** The second half of `add_to_conversation`: when the invited user has a connected
        socket, that socket joins the room, the room hears of the addition and the members'
        lists are refreshed; otherwise nothing happens. */
    method WelcomeInvited(conversationId: nat, addedUserId: nat, addedBy: nat)
      requires Valid()
      modifies this
      ensures Valid()
      ensures FirstLive(old(conns), addedUserId).None? ==> conns == old(conns) && log == old(log)
      ensures FirstLive(old(conns), addedUserId).Some? ==>
        && conns == JoinOne(old(conns), addedUserId, conversationId)
        && log == old(log)
           + RoomFanout(conns, conversationId, UserAddedToConversation(conversationId, addedUserId, addedBy))
           + Updates(conns, UserIdsOf(ParticipantService.GetConversationParticipants(db.tables, conversationId)),
                     DirectoryOf(db.tables))
      ensures RoomsOnlyGrow(old(conns), conns)
    {
      var invited := FirstLive(conns, addedUserId);
      if invited.Some? {
        JoinAddsRoom(conns, invited.value, conversationId);
        conns := Join(conns, invited.value, conversationId);
        Broadcast(conversationId, UserAddedToConversation(conversationId, addedUserId, addedBy));
        UpdateConversationList(conversationId);
      }
    }
  }
}
