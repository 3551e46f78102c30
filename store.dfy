/** The persisted state the services read and write, as in-memory tables in row order:
    users, conversations, conversation participants (membership records) and messages.
    Every id is an autoincrement value starting at 1. */
module Store {

  import opened Wrappers
  import opened Sequences

  datatype User = User(id: nat, email: string, username: string, password: string, createdAt: int)

  datatype Conversation = Conversation(id: nat, isGroup: bool, createdAt: int, updatedAt: int)

  /** A membership record: its own id, and the user and conversation it links. */
  datatype Participant = Participant(id: nat, userId: nat, conversationId: nat)

  datatype Message = Message(id: nat, content: string, senderId: nat, conversationId: nat, createdAt: int)

  datatype Tables = Tables(
    users: seq<User>,
    conversations: seq<Conversation>,
    participants: seq<Participant>,
    messages: seq<Message>)

  /** How deleting a conversation treats the rows that refer to it; the schema decides. */
  datatype DeleteRule = Cascade | Restrict

  /** The errors the services throw. `message` is what the realtime gateway forwards. */
  datatype Failure =
    | BadRequest(message: string)
    | Conflict(message: string)
    | Thrown(message: string)
    | StoreError(message: string)

  /** The store's refusal of a write that connects a user row that does not exist. */
  const UnknownUser := "Foreign key constraint violated: user"

  function UserIds(us: seq<User>): set<nat>
  {
    set u | u in us :: u.id
  }

  function ConversationIds(cs: seq<Conversation>): set<nat>
  {
    set c | c in cs :: c.id
  }

  /** Every membership record and every message refers to an existing user and conversation. */
  predicate Integrity(t: Tables)
  {
    && (forall p :: p in t.participants ==>
          p.userId in UserIds(t.users) && p.conversationId in ConversationIds(t.conversations))
    && (forall m :: m in t.messages ==>
          m.senderId in UserIds(t.users) && m.conversationId in ConversationIds(t.conversations))
  }

  function UserId(u: User): int { u.id }
  function ConversationId(c: Conversation): int { c.id }
  function ParticipantId(p: Participant): int { p.id }
  function MessageId(m: Message): int { m.id }

  /** Ids of a table are positive, stay below the next id and increase along the rows. */
  predicate UserIdsFresh(us: seq<User>, next: nat)
  {
    && 1 <= next
    && (forall i :: 0 <= i < |us| ==> 1 <= us[i].id < next)
    && Ascending(us, UserId)
  }

  predicate ConversationIdsFresh(cs: seq<Conversation>, next: nat)
  {
    && 1 <= next
    && (forall i :: 0 <= i < |cs| ==> 1 <= cs[i].id < next)
    && Ascending(cs, ConversationId)
  }

  predicate ParticipantIdsFresh(ps: seq<Participant>, next: nat)
  {
    && 1 <= next
    && (forall i :: 0 <= i < |ps| ==> 1 <= ps[i].id < next)
    && Ascending(ps, ParticipantId)
  }

  predicate MessageIdsFresh(ms: seq<Message>, next: nat)
  {
    && 1 <= next
    && (forall i :: 0 <= i < |ms| ==> 1 <= ms[i].id < next)
    && Ascending(ms, MessageId)
  }

  /** The database: the tables and their autoincrement counters. */
  class Database {
    var tables: Tables
    var nextUserId: nat
    var nextConversationId: nat
    var nextParticipantId: nat
    var nextMessageId: nat

    ghost predicate Valid()
      reads this
    {
      && Integrity(tables)
      && UserIdsFresh(tables.users, nextUserId)
      && ConversationIdsFresh(tables.conversations, nextConversationId)
      && ParticipantIdsFresh(tables.participants, nextParticipantId)
      && MessageIdsFresh(tables.messages, nextMessageId)
    }

    constructor ()
      ensures Valid()
      ensures tables == Tables([], [], [], [])
      ensures nextUserId == nextConversationId == nextParticipantId == nextMessageId == 1
    {
      tables := Tables([], [], [], []);
      nextUserId, nextConversationId, nextParticipantId, nextMessageId := 1, 1, 1, 1;
    }
  }

  /** `user.findUnique({ where: { id } })`. */
  function FindUser(us: seq<User>, id: nat): (r: Option<User>)
    ensures r.Some? ==> r.value in us && r.value.id == id
    ensures r.None? <==> id !in UserIds(us)
  {
    if us == [] then None
    else if us[0].id == id then Some(us[0])
    else
      var r := FindUser(us[1..], id);
      assert UserIds(us) == {us[0].id} + UserIds(us[1..]) by {
        assert us == [us[0]] + us[1..];
      }
      r
  }

  /** `conversation.findUnique({ where: { id } })`. */
  function FindConversation(cs: seq<Conversation>, id: nat): (r: Option<Conversation>)
    ensures r.Some? ==> r.value in cs && r.value.id == id
    ensures r.None? <==> id !in ConversationIds(cs)
  {
    if cs == [] then None
    else if cs[0].id == id then Some(cs[0])
    else
      var r := FindConversation(cs[1..], id);
      assert ConversationIds(cs) == {cs[0].id} + ConversationIds(cs[1..]) by {
        assert cs == [cs[0]] + cs[1..];
      }
      r
  }

  /** With unique ids the lookup finds the one row that has the id. */
  lemma FindConversationOfFresh(cs: seq<Conversation>, next: nat, c: Conversation)
    requires ConversationIdsFresh(cs, next) && c in cs
    ensures FindConversation(cs, c.id) == Some(c)
  {
    AscendingIff(cs, ConversationId);
    var found := FindConversation(cs, c.id).value;
    var i :| 0 <= i < |cs| && cs[i] == found;
    var j :| 0 <= j < |cs| && cs[j] == c;
    assert !(i < j) && !(j < i);
  }

  predicate IsMember(p: Participant, conversationId: nat, userId: nat)
  {
    p.conversationId == conversationId && p.userId == userId
  }

  /** The row index of the first record pairing the user with the conversation. */
  function FindParticipantIndex(ps: seq<Participant>, conversationId: nat, userId: nat): (r: Option<nat>)
    ensures r.Some? ==> r.value < |ps| && IsMember(ps[r.value], conversationId, userId)
    ensures r.Some? ==> forall j :: 0 <= j < r.value ==> !IsMember(ps[j], conversationId, userId)
    ensures r.None? <==> forall p :: p in ps ==> !IsMember(p, conversationId, userId)
  {
    if ps == [] then None
    else if IsMember(ps[0], conversationId, userId) then Some(0)
    else
      match FindParticipantIndex(ps[1..], conversationId, userId)
      case None =>
        assert ps == [ps[0]] + ps[1..];
        None
      case Some(k) => Some(k + 1)
  }

  /** `conversationParticipant.findFirst({ where: { conversationId, userId } })`. */
  function FindParticipant(ps: seq<Participant>, conversationId: nat, userId: nat): (r: Option<Participant>)
    ensures r.Some? ==> r.value in ps && IsMember(r.value, conversationId, userId)
    ensures r.None? <==> forall p :: p in ps ==> !IsMember(p, conversationId, userId)
  {
    match FindParticipantIndex(ps, conversationId, userId)
    case None => None
    case Some(k) => Some(ps[k])
  }

  /** `conversationParticipant.findMany({ where: { conversationId } })`, in row order. */
  function ParticipantsOf(ps: seq<Participant>, conversationId: nat): (r: seq<Participant>)
    ensures forall p :: p in r <==> p in ps && p.conversationId == conversationId
    ensures |r| <= |ps|
  {
    if ps == [] then []
    else
      var last := ps[|ps| - 1];
      assert ps == ps[..|ps| - 1] + [last];
      ParticipantsOf(ps[..|ps| - 1], conversationId) + (if last.conversationId == conversationId then [last] else [])
  }

  /** The records of one user, in row order. */
  function RecordsOfUser(ps: seq<Participant>, userId: nat): (r: seq<Participant>)
    ensures forall p :: p in r <==> p in ps && p.userId == userId
    ensures |r| <= |ps|
  {
    if ps == [] then []
    else
      var last := ps[|ps| - 1];
      assert ps == ps[..|ps| - 1] + [last];
      RecordsOfUser(ps[..|ps| - 1], userId) + (if last.userId == userId then [last] else [])
  }

  /** The messages of one conversation, in row order (which is id order). */
  function ConversationMessages(ms: seq<Message>, conversationId: nat): (r: seq<Message>)
    ensures forall m :: m in r <==> m in ms && m.conversationId == conversationId
    ensures |r| <= |ms|
  {
    Filter(ms, (m: Message) => m.conversationId == conversationId)
  }
}
