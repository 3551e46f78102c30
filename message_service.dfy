/** Posting messages, starting a conversation with its first message, and reading the history
    one page at a time with an encoded cursor. */
module MessageService {

  import opened Wrappers
  import opened Sequences
  import opened JsNumber
  import opened Store
  import opened StoreOrder
  import Cursor
  import Base64
  import ParticipantService
  import ConversationService

  const SenderNotParticipant := "Sender is not a participant in this conversation"
  const UserNotParticipant := "User is not a participant in this conversation"

  // ---------------------------------------------------------------------------------------
  // The sender check

  /** The check as written: some record of the conversation has a record id equal to the
      sender's user id. */
  predicate SenderAllowedAsWritten(t: Tables, senderId: nat, conversationId: nat)
  {
    && FindConversation(t.conversations, conversationId).Some?
    && exists p :: p in ParticipantsOf(t.participants, conversationId) && p.id == senderId
  }

  /** The check as intended: some record of the conversation is the sender's. */
  predicate SenderAllowed(t: Tables, senderId: nat, conversationId: nat)
  {
    && FindConversation(t.conversations, conversationId).Some?
    && exists p :: p in ParticipantsOf(t.participants, conversationId) && p.userId == senderId
  }

  /** The intended check admits exactly the members of the conversation. */
  lemma SenderAllowedIffMember(t: Tables, senderId: nat, conversationId: nat)
    requires Integrity(t)
    ensures SenderAllowed(t, senderId, conversationId) <==>
      FindParticipant(t.participants, conversationId, senderId).Some?
  {
    var f := FindParticipant(t.participants, conversationId, senderId);
    if f.Some? {
      assert f.value in ParticipantsOf(t.participants, conversationId);
      assert FindConversation(t.conversations, conversationId).Some?;
    }
  }

  /** User 2 has just started group conversation 2 with users 1 and 3, after a direct
      conversation 1 of users 1 and 2 took record ids 1 and 2: the new records are 3, 4 and 5.
      User 4 is in no conversation. */
  function FindingTables(): (t: Tables)
    ensures Integrity(t)
  {
    var us := [User(1, "a", "a", "", 0), User(2, "b", "b", "", 0), User(3, "c", "c", "", 0), User(4, "d", "d", "", 0)];
    var cs := [Conversation(1, false, 0, 0), Conversation(2, true, 1, 1)];
    var ps := [Participant(1, 1, 1), Participant(2, 2, 1), Participant(3, 2, 2), Participant(4, 1, 2), Participant(5, 3, 2)];
    assert us[0] in us && us[1] in us && us[2] in us;
    assert cs[0] in cs && cs[1] in cs;
    assert forall p :: p in ps ==> p.userId in {1, 2, 3} && p.conversationId in {1, 2};
    Tables(us, cs, ps, [])
  }

  /** As written, the check refuses user 2's first message to the conversation user 2 has just
      created, and the conversation stays. */
  lemma MemberRefusedAsWritten()
    ensures FindParticipant(FindingTables().participants, 2, 2).Some?
    ensures !SenderAllowedAsWritten(FindingTables(), 2, 2)
    ensures SenderAllowed(FindingTables(), 2, 2)
  {
    var t := FindingTables();
    assert IsMember(t.participants[2], 2, 2);
    forall p | p in ParticipantsOf(t.participants, 2) ensures p.id != 2 {
      assert p in t.participants && p.conversationId == 2;
    }
    SenderAllowedIffMember(t, 2, 2);
  }

  /** As written, the check lets user 4, who is in no conversation, post to conversation 2. */
  lemma StrangerAdmittedAsWritten()
    ensures FindParticipant(FindingTables().participants, 2, 4).None?
    ensures SenderAllowedAsWritten(FindingTables(), 4, 2)
    ensures !SenderAllowed(FindingTables(), 4, 2)
  {
    var t := FindingTables();
    forall p | p in t.participants ensures !IsMember(p, 2, 4) {
    }
    assert t.participants[3] in ParticipantsOf(t.participants, 2);
    assert t.conversations[1] in t.conversations;
    SenderAllowedIffMember(t, 4, 2);
  }

  // ---------------------------------------------------------------------------------------
  // Writes

  /** Which sender check a post applies: the one the code has, or the intended one. */
  datatype SenderRule = AsWritten | Intended

  predicate SenderAdmitted(rule: SenderRule, t: Tables, senderId: nat, conversationId: nat)
  {
    match rule
    case AsWritten => SenderAllowedAsWritten(t, senderId, conversationId)
    case Intended => SenderAllowed(t, senderId, conversationId)
  }

  /** A created message with its relations joined (`include: { sender, conversation }`). */
  datatype MessageWithRelations = MessageWithRelations(message: Message, sender: User, conversation: Conversation)

  /** What `addMessageToConversation` returns: after the sender check, the message numbered by
      the next id, joined with its sender and conversation. The store refuses to connect a
      sender id that names no user row; only the check as written lets such an id through. */
  function Post(rule: SenderRule, t: Tables, nextMessageId: nat, senderId: nat, conversationId: nat,
                content: string, now: int)
    : (r: Result<MessageWithRelations, Failure>)
    requires Integrity(t)
    ensures r == Err(Thrown(SenderNotParticipant)) <==> !SenderAdmitted(rule, t, senderId, conversationId)
    ensures r.Err? <==> !SenderAdmitted(rule, t, senderId, conversationId) || senderId !in UserIds(t.users)
    ensures r.Err? && SenderAdmitted(rule, t, senderId, conversationId) ==>
      r.error == StoreError(UnknownUser)
    ensures rule == Intended ==> (r.Err? <==> FindParticipant(t.participants, conversationId, senderId).None?)
    ensures rule == AsWritten ==> (r == Err(Thrown(SenderNotParticipant)) <==>
      forall p :: p in t.participants && p.conversationId == conversationId ==> p.id != senderId)
    ensures r.Ok? ==>
      && r.value.message == Message(nextMessageId, content, senderId, conversationId, now)
      && r.value.sender in t.users && r.value.sender.id == senderId
      && r.value.conversation in t.conversations && r.value.conversation.id == conversationId
  {
    SenderAllowedIffMember(t, senderId, conversationId);
    if !SenderAdmitted(rule, t, senderId, conversationId) then
      RecordNamesConversation(t, senderId, conversationId);
      Err(Thrown(SenderNotParticipant))
    else if senderId !in UserIds(t.users) then Err(StoreError(UnknownUser))
    else
      Ok(MessageWithRelations(
        Message(nextMessageId, content, senderId, conversationId, now),
        FindUser(t.users, senderId).value,
        FindConversation(t.conversations, conversationId).value))
  }

  /** A record of a conversation names an existing conversation, so the as-written check
      fails exactly when no record of the conversation has the sender's id as its own. */
  lemma RecordNamesConversation(t: Tables, senderId: nat, conversationId: nat)
    requires Integrity(t)
    ensures !SenderAllowedAsWritten(t, senderId, conversationId) <==>
      forall p :: p in t.participants && p.conversationId == conversationId ==> p.id != senderId
  {
    if p :| p in t.participants && p.conversationId == conversationId && p.id == senderId {
      assert conversationId in ConversationIds(t.conversations);
      assert p in ParticipantsOf(t.participants, conversationId);
    }
  }

  /** `addMessageToConversation` on the database: a posted message is appended and moves the
      message counter on; a refused one changes nothing. */
  method AddMessageToConversation(db: Database, rule: SenderRule, senderId: nat, conversationId: nat,
                                  content: string, now: int)
    returns (r: Result<MessageWithRelations, Failure>)
    requires db.Valid()
    modifies db
    ensures db.Valid()
    ensures r == Post(rule, old(db.tables), old(db.nextMessageId), senderId, conversationId, content, now)
    ensures r.Err? ==> db.tables == old(db.tables) && db.nextMessageId == old(db.nextMessageId)
    ensures r.Ok? ==>
      && db.tables == old(db.tables).(messages := old(db.tables.messages) + [r.value.message])
      && db.nextMessageId == old(db.nextMessageId) + 1
    ensures db.nextUserId == old(db.nextUserId) && db.nextConversationId == old(db.nextConversationId)
    ensures db.nextParticipantId == old(db.nextParticipantId)
  {
    r := Post(rule, db.tables, db.nextMessageId, senderId, conversationId, content, now);
    if r.Err? {
      return;
    }
    AppendKeepsValid(db.tables, db.nextMessageId, r.value.message);
    db.tables := db.tables.(messages := db.tables.messages + [r.value.message]);
    db.nextMessageId := db.nextMessageId + 1;
  }

  lemma AppendKeepsValid(t: Tables, next: nat, m: Message)
    requires Integrity(t) && MessageIdsFresh(t.messages, next)
    requires m.id == next && m.senderId in UserIds(t.users) && m.conversationId in ConversationIds(t.conversations)
    ensures Integrity(t.(messages := t.messages + [m]))
    ensures MessageIdsFresh(t.messages + [m], next + 1)
  {
    AscendingAppend(t.messages, m, MessageId);
  }

  /** A message stamped no earlier than every row keeps the rows in creation order. */
  lemma AppendKeepsChronological(ms: seq<Message>, m: Message)
    requires ChronologicalRows(ms) && forall x :: x in ms ==> x.createdAt <= m.createdAt
    ensures ChronologicalRows(ms + [m])
  {
    var s := ms + [m];
    forall i, j | 0 <= i < j < |s| ensures s[i].createdAt <= s[j].createdAt {
      if j == |ms| { assert s[i] in ms; }
    }
  }

  /** What `startConversationWithFirstMessage` returns: the create, then the post to the
      conversation it returned, on the tables the create left. There is no transaction around
      the two steps. */
  function Start(rule: SenderRule, t: Tables, nextConversationId: nat, nextParticipantId: nat, nextMessageId: nat,
                 senderId: nat, participantIds: seq<nat>, content: string, now: int)
    : (r: Result<MessageWithRelations, Failure>)
    requires Integrity(t)
  {
    match ConversationService.Create(t, nextConversationId, nextParticipantId, senderId, participantIds, now)
    case Err(e) => Err(e)
    case Ok(created) =>
      var mid := ConversationService.AfterCreate(t, senderId, participantIds, created);
      if ConversationService.FindDirect(t, senderId, participantIds).None? then
        ConversationService.InsertKeepsIntegrity(t, created.conversation, nextParticipantId, created.records,
          [senderId] + participantIds);
        Post(rule, mid, nextMessageId, senderId, created.conversation.id, content, now)
      else
        Post(rule, mid, nextMessageId, senderId, created.conversation.id, content, now)
  }

  /** The tables `startConversationWithFirstMessage` leaves. What the create inserted stays
      whether or not the post succeeds; the first message is appended only when it does. */
  function AfterStart(rule: SenderRule, t: Tables, nextConversationId: nat, nextParticipantId: nat,
                      nextMessageId: nat, senderId: nat, participantIds: seq<nat>, content: string, now: int)
    : (r: Tables)
    requires Integrity(t)
    ensures r.users == t.users
    ensures ConversationService.Create(t, nextConversationId, nextParticipantId, senderId, participantIds, now).Err?
      ==> r == t
    ensures ConversationService.FindDirect(t, senderId, participantIds).Some? ==>
      r.conversations == t.conversations && r.participants == t.participants
    ensures (ConversationService.Create(t, nextConversationId, nextParticipantId, senderId, participantIds, now).Ok?
             && ConversationService.FindDirect(t, senderId, participantIds).None?) ==>
      && r.conversations == t.conversations
           + [Conversation(nextConversationId, ConversationService.IsGroupRequest(participantIds), now, now)]
      && r.participants == t.participants
           + ConversationService.NewRecords(nextParticipantId, nextConversationId, [senderId] + participantIds)
    ensures var s := Start(rule, t, nextConversationId, nextParticipantId, nextMessageId, senderId, participantIds,
                           content, now);
      r.messages == t.messages + (if s.Ok? then [s.value.message] else [])
  {
    match ConversationService.Create(t, nextConversationId, nextParticipantId, senderId, participantIds, now)
    case Err(_) => t
    case Ok(created) =>
      var mid := ConversationService.AfterCreate(t, senderId, participantIds, created);
      match Start(rule, t, nextConversationId, nextParticipantId, nextMessageId, senderId, participantIds, content, now)
      case Err(_) => mid
      case Ok(posted) => mid.(messages := mid.messages + [posted.message])
  }

  /** Starting a conversation that reuses one posts to it under the same check as any post,
      and inserts nothing. */
  lemma StartReuse(rule: SenderRule, t: Tables, nextConversationId: nat, nextParticipantId: nat, nextMessageId: nat,
                   senderId: nat, participantIds: seq<nat>, content: string, now: int)
    requires Integrity(t)
    requires ConversationIdsFresh(t.conversations, nextConversationId)
    requires ConversationService.FindDirect(t, senderId, participantIds).Some?
    ensures var reuse := ConversationService.FindDirect(t, senderId, participantIds).value;
      var r := Start(rule, t, nextConversationId, nextParticipantId, nextMessageId, senderId, participantIds,
                     content, now);
      && (rule == Intended ==> (r.Ok? <==> FindParticipant(t.participants, reuse.id, senderId).Some?))
      && (rule == AsWritten ==> (r == Err(Thrown(SenderNotParticipant)) <==>
            forall p :: p in t.participants && p.conversationId == reuse.id ==> p.id != senderId))
      && (r.Ok? ==> r.value.conversation == reuse && r.value.message.senderId == senderId
                    && r.value.message.content == content)
  {
    var reuse := ConversationService.FindDirect(t, senderId, participantIds).value;
    FindConversationOfFresh(t.conversations, nextConversationId, reuse);
  }

  /** Starting a conversation that creates one posts the first message to it with the intended
      check. With the check as written the post succeeds exactly when the creator's user id
      happens to be one of the new record ids. */
  lemma StartCreate(rule: SenderRule, t: Tables, nextConversationId: nat, nextParticipantId: nat, nextMessageId: nat,
                    senderId: nat, participantIds: seq<nat>, content: string, now: int)
    requires Integrity(t)
    requires ConversationIdsFresh(t.conversations, nextConversationId)
    requires participantIds != [] && ConversationService.FindDirect(t, senderId, participantIds).None?
    requires ConversationService.AllUsersExist(t, [senderId] + participantIds)
    ensures var r := Start(rule, t, nextConversationId, nextParticipantId, nextMessageId, senderId, participantIds,
                           content, now);
      && (rule == Intended ==> r.Ok?)
      && (rule == AsWritten ==>
            (r.Ok? <==> nextParticipantId <= senderId < nextParticipantId + 1 + |participantIds|))
      && (r.Ok? ==>
            && r.value.conversation ==
                 Conversation(nextConversationId, ConversationService.IsGroupRequest(participantIds), now, now)
            && r.value.message == Message(nextMessageId, content, senderId, nextConversationId, now))
  {
    var created := ConversationService.Create(t, nextConversationId, nextParticipantId, senderId, participantIds, now).value;
    var records := created.records;
    ConversationService.InsertKeepsIntegrity(t, created.conversation, nextParticipantId, records,
      [senderId] + participantIds);
    PostToNewConversation(rule, t, created.conversation, records, nextMessageId, senderId, content, now);
    if nextParticipantId <= senderId < nextParticipantId + |records| {
      assert records[senderId - nextParticipantId].id == senderId;
    }
  }

  /** The creator's message to a conversation just inserted: the intended check admits it, the
      check as written admits it exactly when a new record's own id equals the creator's. */
  lemma PostToNewConversation(rule: SenderRule, t: Tables, c: Conversation, records: seq<Participant>,
                              nextMessageId: nat, senderId: nat, content: string, now: int)
    requires Integrity(t)
    requires Integrity(ConversationService.Inserted(t, ConversationService.ConversationWithRecords(c, records)))
    requires ConversationIdsFresh(t.conversations, c.id)
    requires records != [] && records[0].userId == senderId
    requires forall p :: p in records ==> p.conversationId == c.id
    ensures var r := Post(rule, ConversationService.Inserted(t, ConversationService.ConversationWithRecords(c, records)),
                          nextMessageId, senderId, c.id, content, now);
      && (rule == Intended ==> r.Ok?)
      && (rule == AsWritten ==> (r.Ok? <==> exists p :: p in records && p.id == senderId))
      && (r.Ok? ==> r.value.conversation == c && r.value.message == Message(nextMessageId, content, senderId, c.id, now))
  {
    var mid := ConversationService.Inserted(t, ConversationService.ConversationWithRecords(c, records));
    CreatorAdmitted(t, c, records, senderId);
    NewConversationRecords(t, c, records);
    assert records[0] in mid.participants;
    AscendingAppend(t.conversations, c, ConversationId);
    FindConversationOfFresh(mid.conversations, c.id + 1, c);
  }

  /** The records of a conversation just inserted are exactly the new records. */
  lemma NewConversationRecords(t: Tables, c: Conversation, records: seq<Participant>)
    requires Integrity(t) && ConversationIdsFresh(t.conversations, c.id)
    requires forall p :: p in records ==> p.conversationId == c.id
    ensures forall p :: (p in ConversationService.Inserted(t, ConversationService.ConversationWithRecords(c, records)).participants
                         && p.conversationId == c.id) <==> p in records
  {
    forall p | p in t.participants ensures p.conversationId != c.id {
      var k :| 0 <= k < |t.conversations| && t.conversations[k].id == p.conversationId;
    }
  }

  /** With the intended check a start fails only while nothing was inserted: after an insert
      the post always succeeds, so a refused start leaves the tables as they were. */
  lemma StartFailsWithoutInsert(t: Tables, nextConversationId: nat, nextParticipantId: nat, nextMessageId: nat,
                                senderId: nat, participantIds: seq<nat>, content: string, now: int)
    requires Integrity(t)
    requires ConversationIdsFresh(t.conversations, nextConversationId)
    requires Start(Intended, t, nextConversationId, nextParticipantId, nextMessageId, senderId, participantIds,
                   content, now).Err?
    ensures || ConversationService.Create(t, nextConversationId, nextParticipantId, senderId, participantIds, now).Err?
            || ConversationService.FindDirect(t, senderId, participantIds).Some?
    ensures AfterStart(Intended, t, nextConversationId, nextParticipantId, nextMessageId, senderId, participantIds,
                       content, now) == t
  {
    if participantIds != [] && ConversationService.FindDirect(t, senderId, participantIds).None?
       && ConversationService.AllUsersExist(t, [senderId] + participantIds) {
      StartCreate(Intended, t, nextConversationId, nextParticipantId, nextMessageId, senderId, participantIds,
                  content, now);
    }
  }

  /** The tables before the start of the finding: users 1 to 4 and the direct conversation 1
      of users 1 and 2, with records 1 and 2. */
  function FindingTablesBefore(): (t: Tables)
    ensures Integrity(t)
  {
    var us := [User(1, "a", "a", "", 0), User(2, "b", "b", "", 0), User(3, "c", "c", "", 0), User(4, "d", "d", "", 0)];
    var cs := [Conversation(1, false, 0, 0)];
    var ps := [Participant(1, 1, 1), Participant(2, 2, 1)];
    assert us[0] in us && us[1] in us && cs[0] in cs;
    Tables(us, cs, ps, [])
  }

  /** As written, user 2's start of a group with users 1 and 3 is refused after the group was
      inserted: the tables keep conversation 2 and its records 3, 4 and 5, and no message. The
      intended check posts the message. */
  lemma RefusedStartKeepsConversation()
    ensures Start(AsWritten, FindingTablesBefore(), 2, 3, 1, 2, [1, 3], "hi", 1) == Err(Thrown(SenderNotParticipant))
    ensures AfterStart(AsWritten, FindingTablesBefore(), 2, 3, 1, 2, [1, 3], "hi", 1) == FindingTables()
    ensures Start(Intended, FindingTablesBefore(), 2, 3, 1, 2, [1, 3], "hi", 1).Ok?
  {
    var t := FindingTablesBefore();
    assert [2] + [1, 3] == [2, 1, 3];
    assert ConversationService.AllUsersExist(t, [2, 1, 3]) by {
      assert t.users[0] in t.users && t.users[1] in t.users && t.users[2] in t.users;
    }
    var created := ConversationService.Create(t, 2, 3, 2, [1, 3], 1);
    assert created.Ok?;
    var records := ConversationService.NewRecords(3, 2, [2, 1, 3]);
    assert records == [Participant(3, 2, 2), Participant(4, 1, 2), Participant(5, 3, 2)];
    assert ConversationService.Inserted(t, created.value) == FindingTables();
    MemberRefusedAsWritten();
  }

  /** `startConversationWithFirstMessage` on the database: the tables the start leaves, with the
      counters moved on by what was inserted. */
  method StartConversationWithFirstMessage(db: Database, rule: SenderRule, senderId: nat, participantIds: seq<nat>,
                                           content: string, now: int)
    returns (r: Result<MessageWithRelations, Failure>)
    requires db.Valid()
    modifies db
    ensures db.Valid()
    ensures r == Start(rule, old(db.tables), old(db.nextConversationId), old(db.nextParticipantId),
                       old(db.nextMessageId), senderId, participantIds, content, now)
    ensures db.tables == AfterStart(rule, old(db.tables), old(db.nextConversationId), old(db.nextParticipantId),
                                    old(db.nextMessageId), senderId, participantIds, content, now)
    ensures rule == Intended && r.Err? ==> db.tables == old(db.tables)
    ensures var inserted :=
        && ConversationService.Create(old(db.tables), old(db.nextConversationId), old(db.nextParticipantId),
                                      senderId, participantIds, now).Ok?
        && ConversationService.FindDirect(old(db.tables), senderId, participantIds).None?;
      && db.nextConversationId == old(db.nextConversationId) + (if inserted then 1 else 0)
      && db.nextParticipantId == old(db.nextParticipantId) + (if inserted then 1 + |participantIds| else 0)
    ensures db.nextMessageId == old(db.nextMessageId) + (if r.Ok? then 1 else 0)
    ensures db.nextUserId == old(db.nextUserId)
  {
    var created := ConversationService.CreateConversation(db, senderId, participantIds, now);
    if created.Err? {
      return Err(created.error);
    }
    r := AddMessageToConversation(db, rule, senderId, created.value.conversation.id, content, now);
    if rule == Intended && r.Err? {
      StartFailsWithoutInsert(old(db.tables), old(db.nextConversationId), old(db.nextParticipantId),
                              old(db.nextMessageId), senderId, participantIds, content, now);
    }
  }

  /** With the intended check the creator of a new conversation may post to it: its first
      record is the creator's. */
  lemma CreatorAdmitted(t: Tables, c: Conversation, records: seq<Participant>, senderId: nat)
    requires records != [] && records[0].userId == senderId && records[0].conversationId == c.id
    ensures SenderAllowed(ConversationService.Inserted(t, ConversationService.ConversationWithRecords(c, records)),
                          senderId, c.id)
  {
    var t' := ConversationService.Inserted(t, ConversationService.ConversationWithRecords(c, records));
    assert records[0] in t'.participants;
    assert c in t'.conversations;
  }

  // ---------------------------------------------------------------------------------------
  // Cursor paging

  /** A message of a page, with its sender's id and username. */
  datatype PageMessage = PageMessage(message: Message, sender: ParticipantService.UserRef)

  datatype Page = Page(messages: seq<PageMessage>, hasMore: bool, nextCursor: Option<string>)

  /** The id bound a cursor stands for: none when the cursor is absent or empty, or when it
      decodes to NaN or 0. */
  function CursorBound(cursor: Option<string>): (b: Option<int>)
    ensures b.Some? <==> cursor.Some? && cursor.value != "" && Cursor.Decode(cursor.value).Truthy()
    ensures b.Some? ==> Cursor.Decode(cursor.value) == Num(b.value)
  {
    if cursor.Some? && cursor.value != "" && Cursor.Decode(cursor.value).Truthy() then
      Some(Cursor.Decode(cursor.value).n)
    else None
  }

  /** The condition `id: { lt: bound }`, or none. */
  function Below(bound: Option<int>): Message -> bool
  {
    (m: Message) => bound.None? || m.id < bound.value
  }

  /** The rows the page query selects before ordering and `take`. */
  function Candidates(t: Tables, conversationId: nat, bound: Option<int>): (r: seq<Message>)
    ensures forall m :: m in r <==>
      m in t.messages && m.conversationId == conversationId && (bound.None? || m.id < bound.value)
  {
    Filter(ConversationMessages(t.messages, conversationId), Below(bound))
  }

  function View(t: Tables, m: Message): (v: PageMessage)
    requires m.senderId in UserIds(t.users)
    ensures v.message == m && v.sender.id == m.senderId
  {
    var u := FindUser(t.users, m.senderId).value;
    PageMessage(m, ParticipantService.UserRef(u.id, u.username))
  }

  function Views(t: Tables, ms: seq<Message>): (r: seq<PageMessage>)
    requires forall m :: m in ms ==> m.senderId in UserIds(t.users)
    ensures |r| == |ms|
    ensures forall i :: 0 <= i < |ms| ==> r[i] == View(t, ms[i])
  {
    seq(|ms|, i requires 0 <= i < |ms| => View(t, ms[i]))
  }

  /** The newest `limit` candidates (`orderBy: { createdAt: 'desc' }, take: limit`), read
      back oldest first (`messages.reverse()`). */
  function Batch(candidates: seq<Message>, limit: nat): (b: seq<Message>)
    ensures |b| == if limit < |candidates| then limit else |candidates|
    ensures forall m :: m in b ==> m in candidates
  {
    BatchFacts(candidates, limit);
    Reverse(Take(NewestFirst(candidates), limit))
  }

  /** The batch is in creation order. */
  lemma BatchChronological(candidates: seq<Message>, limit: nat)
    ensures ChronologicalRows(Batch(candidates, limit))
  {
    BatchFacts(candidates, limit);
  }

  function FetchBelow(t: Tables, userId: nat, conversationId: nat, bound: Option<int>, limit: nat)
    : (r: Result<Page, Failure>)
    requires Integrity(t)
    ensures r.Err? <==> FindParticipant(t.participants, conversationId, userId).None?
    ensures r.Err? ==> r.error == Thrown(UserNotParticipant)
  {
    if FindParticipant(t.participants, conversationId, userId).None? then Err(Thrown(UserNotParticipant))
    else Ok(PageOf(t, Batch(Candidates(t, conversationId, bound), limit), limit))
  }

  /** A page holds at most `limit` messages of the conversation below the bound, oldest first;
      it has more exactly when it is full, and its cursor, present exactly when it is not
      empty, is that of its oldest message. */
  lemma FetchBelowPage(t: Tables, userId: nat, conversationId: nat, bound: Option<int>, limit: nat)
    requires Integrity(t)
    ensures var r := FetchBelow(t, userId, conversationId, bound, limit);
      r.Ok? ==>
        var ms := r.value.messages;
        && |ms| <= limit
        && (r.value.hasMore <==> |ms| == limit)
        && Selected(t, conversationId, bound, ms)
        && OldestFirst(ms)
        && (r.value.nextCursor.None? <==> |ms| == 0)
        && (r.value.nextCursor.Some? ==> r.value.nextCursor.value == Cursor.Encode(ms[0].message.id))
  {
    if FindParticipant(t.participants, conversationId, userId).Some? {
      var batch := Batch(Candidates(t, conversationId, bound), limit);
      BatchChronological(Candidates(t, conversationId, bound), limit);
      ViewsChronological(t, batch);
      ViewsSelected(t, conversationId, bound, batch);
    }
  }

  /** The page made of a batch: its messages with their senders, whether it is full, and the
      cursor of its oldest message. */
  function PageOf(t: Tables, batch: seq<Message>, limit: nat): (p: Page)
    requires forall m :: m in batch ==> m.senderId in UserIds(t.users)
    ensures |p.messages| == |batch| && (p.hasMore <==> |batch| == limit)
    ensures p.nextCursor.Some? <==> |batch| != 0
    ensures p.nextCursor.Some? ==> p.nextCursor.value == Cursor.Encode(p.messages[0].message.id)
  {
    Page(Views(t, batch), |batch| == limit, if |batch| == 0 then None else Some(Cursor.Encode(batch[0].id)))
  }

  /** `getConversationMessagesWithCursor`: the cursor is decoded first; it never fails, so the
      only error left is that of the membership check. */
  function FetchPage(t: Tables, userId: nat, conversationId: nat, cursor: Option<string>, limit: nat)
    : (r: Result<Page, Failure>)
    requires Integrity(t)
    ensures r.Err? <==> FindParticipant(t.participants, conversationId, userId).None?
  {
    FetchBelow(t, userId, conversationId, CursorBound(cursor), limit)
  }

  /** The next cursor decodes to the id of the oldest message of the page. */
  lemma NextCursorDecodes(t: Tables, userId: nat, conversationId: nat, cursor: Option<string>, limit: nat)
    requires Integrity(t)
    requires FetchPage(t, userId, conversationId, cursor, limit).Ok?
    ensures var page := FetchPage(t, userId, conversationId, cursor, limit).value;
      page.nextCursor.Some? ==>
        page.messages != [] && Cursor.Decode(page.nextCursor.value) == Num(page.messages[0].message.id)
  {
    var page := FetchPage(t, userId, conversationId, cursor, limit).value;
    FetchBelowPage(t, userId, conversationId, CursorBound(cursor), limit);
    if page.nextCursor.Some? {
      Cursor.DecodeEncode(page.messages[0].message.id);
    }
  }

  /** Messages of the conversation, below the bound when there is one. */
  predicate Selected(t: Tables, conversationId: nat, bound: Option<int>, ms: seq<PageMessage>)
  {
    forall i :: 0 <= i < |ms| ==>
      && ms[i].message in t.messages && ms[i].message.conversationId == conversationId
      && (bound.None? || ms[i].message.id < bound.value)
  }

  /** Messages in the order they were created. */
  predicate OldestFirst(ms: seq<PageMessage>)
  {
    forall i, j :: 0 <= i < j < |ms| ==> ms[i].message.createdAt <= ms[j].message.createdAt
  }

  lemma ViewsSelected(t: Tables, conversationId: nat, bound: Option<int>, batch: seq<Message>)
    requires forall m :: m in batch ==> m in Candidates(t, conversationId, bound)
    requires forall m :: m in batch ==> m.senderId in UserIds(t.users)
    ensures Selected(t, conversationId, bound, Views(t, batch))
  {
    assert forall i :: 0 <= i < |batch| ==> batch[i] in batch;
  }

  lemma ViewsChronological(t: Tables, ms: seq<Message>)
    requires forall m :: m in ms ==> m.senderId in UserIds(t.users)
    requires forall i, j :: 0 <= i < j < |ms| ==> ms[i].createdAt <= ms[j].createdAt
    ensures OldestFirst(Views(t, ms))
  {
  }

  /** The newest-first batch holds candidates only, and read backwards it is chronological. */
  lemma BatchFacts(candidates: seq<Message>, limit: nat)
    ensures var b := Take(NewestFirst(candidates), limit);
      && (forall m :: m in Reverse(b) ==> m in candidates)
      && (forall i, j :: 0 <= i < j < |b| ==> Reverse(b)[i].createdAt <= Reverse(b)[j].createdAt)
  {
    var sorted := NewestFirst(candidates);
    var b := Take(sorted, limit);
    forall m | m in Reverse(b) ensures m in candidates {
      assert m in multiset(Reverse(b));
      ReverseMultiset(b);
      assert m in b;
      assert m in multiset(sorted);
    }
    forall i, j | 0 <= i < j < |b| ensures Reverse(b)[i].createdAt <= Reverse(b)[j].createdAt {
      assert CreatedAt(sorted[|b| - 1 - j]) >= CreatedAt(sorted[|b| - 1 - i]);
    }
  }

  /** A cursor with no base64 character in it is ignored: the newest page comes back. */
  lemma MalformedCursorGivesNewestPage(t: Tables, userId: nat, conversationId: nat, cursor: string, limit: nat)
    requires Integrity(t)
    requires forall i :: 0 <= i < |cursor| ==> Base64.ValueOf(cursor[i]).None?
    ensures FetchPage(t, userId, conversationId, Some(cursor), limit) == FetchPage(t, userId, conversationId, None, limit)
  {
    Cursor.NoAlphabetIsNaN(cursor);
  }

  // ---------------------------------------------------------------------------------------
  // Reading the whole history page by page

  /** Message ids are positive, as autoincrement ids are. */
  predicate PositiveIds(ms: seq<Message>)
  {
    forall m :: m in ms ==> 1 <= m.id
  }

  /** The cursor of a positive id stands for that id. */
  lemma CursorBoundOfEncode(id: nat)
    requires 1 <= id
    ensures CursorBound(Some(Cursor.Encode(id))) == Some(id)
  {
    Cursor.DecodeEncode(id);
    assert |Cursor.Encode(id)| >= 4;
  }

  /** What a client gathers by asking for a page and then, while a page says there is more and
      carries a cursor, for the page before it with that cursor, each older page going in
      front. */
  function Crawl(t: Tables, userId: nat, conversationId: nat, cursor: Option<string>, limit: nat)
    : (r: seq<PageMessage>)
    requires Integrity(t) && 1 <= limit && PositiveIds(t.messages)
  {
    CrawlBelow(t, userId, conversationId, CursorBound(cursor), limit)
  }

  /** The crawl from the bound a cursor stands for. */
  function CrawlBelow(t: Tables, userId: nat, conversationId: nat, bound: Option<int>, limit: nat)
    : (r: seq<PageMessage>)
    requires Integrity(t) && 1 <= limit && PositiveIds(t.messages)
    decreases |Candidates(t, conversationId, bound)|
  {
    match FetchBelow(t, userId, conversationId, bound, limit)
    case Err(_) => []
    case Ok(page) =>
      if page.hasMore && page.nextCursor.Some? then
        CrawlProgress(t, userId, conversationId, bound, limit);
        CrawlBelow(t, userId, conversationId, CursorBound(page.nextCursor), limit) + page.messages
      else page.messages
  }

  /** The next cursor leaves fewer candidates: the oldest message of the page was one, and it
      is not below its own id. */
  lemma CrawlProgress(t: Tables, userId: nat, conversationId: nat, bound: Option<int>, limit: nat)
    requires Integrity(t) && PositiveIds(t.messages)
    requires FetchBelow(t, userId, conversationId, bound, limit).Ok?
    requires FetchBelow(t, userId, conversationId, bound, limit).value.nextCursor.Some?
    ensures var next := FetchBelow(t, userId, conversationId, bound, limit).value.nextCursor;
      |Candidates(t, conversationId, CursorBound(next))| < |Candidates(t, conversationId, bound)|
  {
    var page := FetchBelow(t, userId, conversationId, bound, limit).value;
    FetchBelowPage(t, userId, conversationId, bound, limit);
    var m := page.messages[0].message;
    assert m in t.messages && m.conversationId == conversationId && (bound.None? || m.id < bound.value);
    CursorBoundOfEncode(m.id);
    var cms := ConversationMessages(t.messages, conversationId);
    FilterStricter(cms, Below(bound), Below(Some(m.id)), m);
  }

  /** Pages of consecutive messages put together are the page of all of them. */
  lemma ViewsAppend(t: Tables, a: seq<Message>, b: seq<Message>)
    requires forall m :: m in a + b ==> m.senderId in UserIds(t.users)
    ensures Views(t, a + b) == Views(t, a) + Views(t, b)
  {
    assert forall m :: m in a ==> m in a + b;
    assert forall m :: m in b ==> m in a + b;
  }

  /** The page of the first `n` messages is the page of the first `j` followed by the rest. */
  lemma ViewsSplit(t: Tables, xs: seq<Message>, j: nat, n: nat)
    requires j <= n <= |xs| && forall m :: m in xs[..n] ==> m.senderId in UserIds(t.users)
    ensures Views(t, xs[..j]) + Views(t, xs[j..n]) == Views(t, xs[..n])
  {
    SplitPrefix(xs, j, n);
    ViewsAppend(t, xs[..j], xs[j..n]);
  }

  /** Below the id of its `j`-th message, a conversation whose ids increase has exactly its
      first `j` messages. */
  lemma BelowPrefix(xs: seq<Message>, j: nat)
    requires Ascending(xs, MessageId) && j < |xs|
    ensures Filter(xs, Below(Some(xs[j].id))) == xs[..j]
  {
    AscendingIff(xs, MessageId);
    var keep := Below(Some(xs[j].id));
    forall i | 0 <= i < |xs| ensures keep(xs[i]) <==> i < j {
      if i > j { assert MessageId(xs[j]) < MessageId(xs[i]); }
    }
    FilterPrefix(xs, keep, j);
  }

  /** Without a bound every message of the conversation is a candidate. */
  lemma BelowNone(xs: seq<Message>)
    ensures Filter(xs, Below(None)) == xs
  {
    FilterPrefix(xs, Below(None), |xs|);
  }

  /** The messages of a conversation, in row order, have increasing ids and creation times
      when the table has. */
  lemma ConversationOrdered(t: Tables, next: nat, conversationId: nat)
    requires MessageIdsFresh(t.messages, next) && ChronologicalRows(t.messages)
    ensures PositiveIds(t.messages)
    ensures StrictlyIncreasing(ConversationMessages(t.messages, conversationId), MessageId)
    ensures ChronologicalRows(ConversationMessages(t.messages, conversationId))
  {
    var keep := (m: Message) => m.conversationId == conversationId;
    AscendingIff(t.messages, MessageId);
    FilterIncreasing(t.messages, keep, MessageId);
    assert NonDecreasing(t.messages, CreatedAt);
    FilterNonDecreasing(t.messages, keep, CreatedAt);
    var xs := ConversationMessages(t.messages, conversationId);
    assert NonDecreasing(xs, CreatedAt);
  }

  /** Of chronological candidates, the batch is the last `limit` (or all, when fewer). */
  lemma BatchOfChronological(cs: seq<Message>, limit: nat)
    requires ChronologicalRows(cs)
    ensures var k := if limit < |cs| then limit else |cs|;
      Batch(cs, limit) == cs[|cs| - k..]
  {
    NewestFirstOfChronological(cs);
    ReverseTakeReverse(cs, limit);
  }

  /** The same, for rows whose creation times rise from each row to the next, with the size
      of the batch named. */
  lemma BatchOfRising(cs: seq<Message>, limit: nat, k: nat)
    requires Rising(cs, CreatedAt)
    requires k == if limit < |cs| then limit else |cs|
    ensures Batch(cs, limit) == cs[|cs| - k..]
  {
    RisingIff(cs, CreatedAt);
    forall i, j | 0 <= i < j < |cs| ensures cs[i].createdAt <= cs[j].createdAt {
      assert CreatedAt(cs[i]) <= CreatedAt(cs[j]);
    }
    BatchOfChronological(cs, limit);
  }

  /** Of the first `n` messages of a chronological conversation, the batch is the last `limit`
      of them (or all, when fewer). */
  lemma BatchOfPrefix(xs: seq<Message>, limit: nat, n: nat)
    requires Rising(xs, CreatedAt) && n <= |xs|
    ensures var k := if limit < n then limit else n;
      Batch(xs[..n], limit) == xs[n - k..n]
  {
    var k := if limit < n then limit else n;
    RisingPrefix(xs, n, CreatedAt);
    BatchOfRising(xs[..n], limit, k);
  }

  /** The bound leaves exactly the first `n` messages of the conversation, whose ids and
      creation times increase. */
  ghost predicate PrefixBound(t: Tables, conversationId: nat, bound: Option<int>, n: nat)
  {
    var xs := ConversationMessages(t.messages, conversationId);
    && Ascending(xs, MessageId) && Rising(xs, CreatedAt)
    && n <= |xs| && Candidates(t, conversationId, bound) == xs[..n]
  }

  /** Below the id of the `j`-th of those messages lie exactly the first `j`. */
  lemma PrefixBoundBelow(t: Tables, conversationId: nat, bound: Option<int>, n: nat, j: nat)
    requires PrefixBound(t, conversationId, bound, n) && j < n
    ensures PrefixBound(t, conversationId, Some(ConversationMessages(t.messages, conversationId)[j].id), j)
  {
    BelowPrefix(ConversationMessages(t.messages, conversationId), j);
  }

  /** The page below such a bound: the last `limit` of those messages, or all when fewer. */
  lemma PageOfPrefix(t: Tables, userId: nat, conversationId: nat, bound: Option<int>, limit: nat, n: nat)
    requires Integrity(t) && FindParticipant(t.participants, conversationId, userId).Some?
    requires PrefixBound(t, conversationId, bound, n)
    ensures var xs := ConversationMessages(t.messages, conversationId);
      var k := if limit < n then limit else n;
      && (forall m :: m in xs[n - k..n] ==> m.senderId in UserIds(t.users))
      && FetchBelow(t, userId, conversationId, bound, limit) == Ok(PageOf(t, xs[n - k..n], limit))
  {
    var xs := ConversationMessages(t.messages, conversationId);
    BatchOfPrefix(xs, limit, n);
  }

  /** One step of the crawl. */
  lemma CrawlStep(t: Tables, userId: nat, conversationId: nat, bound: Option<int>, limit: nat, page: Page)
    requires Integrity(t) && 1 <= limit && PositiveIds(t.messages)
    requires FetchBelow(t, userId, conversationId, bound, limit) == Ok(page)
    ensures page.nextCursor.Some? ==>
      |Candidates(t, conversationId, CursorBound(page.nextCursor))| < |Candidates(t, conversationId, bound)|
    ensures CrawlBelow(t, userId, conversationId, bound, limit) ==
      if page.hasMore && page.nextCursor.Some? then
        CrawlBelow(t, userId, conversationId, CursorBound(page.nextCursor), limit) + page.messages
      else page.messages
  {
    if page.nextCursor.Some? {
      CrawlProgress(t, userId, conversationId, bound, limit);
    }
  }

  /** One step of the crawl below such a bound: the last `limit` messages, after the crawl
      below the oldest of them when the page was full. */
  lemma CrawlPrefixStep(t: Tables, userId: nat, conversationId: nat, bound: Option<int>, limit: nat, n: nat)
    requires Integrity(t) && 1 <= limit && PositiveIds(t.messages)
    requires FindParticipant(t.participants, conversationId, userId).Some?
    requires PrefixBound(t, conversationId, bound, n)
    ensures var xs := ConversationMessages(t.messages, conversationId);
      && (forall m :: m in xs[..n] ==> m.senderId in UserIds(t.users))
      && (limit <= n ==>
            && 1 <= xs[n - limit].id
            && CrawlBelow(t, userId, conversationId, bound, limit) ==
                 CrawlBelow(t, userId, conversationId, Some(xs[n - limit].id), limit) + Views(t, xs[n - limit..n]))
      && (n < limit ==> CrawlBelow(t, userId, conversationId, bound, limit) == Views(t, xs[..n]))
  {
    var xs := ConversationMessages(t.messages, conversationId);
    var k := if limit < n then limit else n;
    PageOfPrefix(t, userId, conversationId, bound, limit, n);
    var page := PageOf(t, xs[n - k..n], limit);
    CrawlStep(t, userId, conversationId, bound, limit, page);
    assert forall m :: m in xs[..n] ==> m in t.messages;
    if k == limit {
      assert xs[n - k] in t.messages;
      CursorBoundOfEncode(xs[n - k].id);
    } else {
      SplitPrefix(xs, 0, n);
    }
  }

  /** The crawl below a bound whose page is the last `limit` of the first `n` messages, once the
      crawl below the oldest of them is known to return the messages before it, returns all `n`. */
  lemma CrawlFullPage(t: Tables, userId: nat, conversationId: nat, bound: Option<int>, limit: nat, n: nat)
    requires Integrity(t) && 1 <= limit && PositiveIds(t.messages)
    requires var xs := ConversationMessages(t.messages, conversationId);
      && limit <= n <= |xs|
      && (forall m :: m in xs[..n] ==> m.senderId in UserIds(t.users))
      && CrawlBelow(t, userId, conversationId, bound, limit) ==
           CrawlBelow(t, userId, conversationId, Some(xs[n - limit].id), limit) + Views(t, xs[n - limit..n])
      && CrawlBelow(t, userId, conversationId, Some(xs[n - limit].id), limit) == Views(t, xs[..n - limit])
    ensures var xs := ConversationMessages(t.messages, conversationId);
      CrawlBelow(t, userId, conversationId, bound, limit) == Views(t, xs[..n])
  {
    var xs := ConversationMessages(t.messages, conversationId);
    ViewsSplit(t, xs, n - limit, n);
  }

  /** From a bound that leaves the first `n` messages of the conversation, the crawl returns
      exactly those, oldest first. */
  lemma {:induction false} CrawlFromPrefix(t: Tables, userId: nat, conversationId: nat, bound: Option<int>,
                                           limit: nat, n: nat)
    requires Integrity(t) && 1 <= limit && PositiveIds(t.messages)
    requires FindParticipant(t.participants, conversationId, userId).Some?
    requires PrefixBound(t, conversationId, bound, n)
    ensures var xs := ConversationMessages(t.messages, conversationId);
      && (forall m :: m in xs[..n] ==> m.senderId in UserIds(t.users))
      && CrawlBelow(t, userId, conversationId, bound, limit) == Views(t, xs[..n])
    decreases n
  {
    var xs := ConversationMessages(t.messages, conversationId);
    if limit <= n {
      var j := n - limit;
      PrefixBoundBelow(t, conversationId, bound, n, j);
      CrawlFromPrefix(t, userId, conversationId, Some(xs[j].id), limit, j);
      CrawlPrefixStep(t, userId, conversationId, bound, limit, n);
      CrawlFullPage(t, userId, conversationId, bound, limit, n);
    } else {
      CrawlPrefixStep(t, userId, conversationId, bound, limit, n);
    }
  }

  /** Starting without a cursor and following the cursors while there is more, a member reads
      every message of the conversation exactly once, oldest first, provided messages are
      stored in the order they were created. */
  lemma {:induction false} CrawlVisitsEveryMessage(t: Tables, next: nat, userId: nat, conversationId: nat, limit: nat)
    requires Integrity(t) && MessageIdsFresh(t.messages, next) && ChronologicalRows(t.messages)
    requires 1 <= limit
    requires FindParticipant(t.participants, conversationId, userId).Some?
    ensures PositiveIds(t.messages)
    ensures Crawl(t, userId, conversationId, None, limit) == Views(t, ConversationMessages(t.messages, conversationId))
  {
    var xs := ConversationMessages(t.messages, conversationId);
    ConversationOrdered(t, next, conversationId);
    BelowNone(xs);
    assert xs[..|xs|] == xs;
    AscendingIff(xs, MessageId);
    RisingIff(xs, CreatedAt);
    assert NonDecreasing(xs, CreatedAt);
    assert PrefixBound(t, conversationId, None, |xs|);
    CrawlFromPrefix(t, userId, conversationId, None, limit, |xs|);
    assert CursorBound(None) == None;
  }
}
