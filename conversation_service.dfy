/** Creating a conversation (the group rule and the reuse of a direct conversation) and
    deleting one. */
module ConversationService {

  import opened Wrappers
  import opened Sequences
  import opened Store

  const NotParticipant := "User is not a participant in this conversation"
  /** The store's refusal of a direct lookup without a second participant id. */
  const NoParticipantId := "Invalid value for participant id"
  /** The store's refusal to delete a conversation that rows still refer to. */
  const StillReferenced := "Foreign key constraint violated: conversation"

  /** More than one invited id makes a group. */
  predicate IsGroupRequest(participantIds: seq<nat>)
  {
    |participantIds| > 1
  }

  /** Prisma's `participants: { every: { userId: { in: allowed } } }`: true for a
      conversation without any record. */
  predicate EveryParticipantIn(ps: seq<Participant>, conversationId: nat, allowed: set<nat>)
  {
    forall p :: p in ps && p.conversationId == conversationId ==> p.userId in allowed
  }

  /** A conversation the direct lookup for the two users accepts. */
  predicate DirectMatch(t: Tables, c: Conversation, creatorId: nat, participantId: nat)
  {
    !c.isGroup && EveryParticipantIn(t.participants, c.id, {creatorId, participantId})
  }

  predicate NoDirectMatch(t: Tables, cs: seq<Conversation>, creatorId: nat, participantId: nat)
  {
    forall c :: c in cs ==> !DirectMatch(t, c, creatorId, participantId)
  }

  /** Every id names an existing user. */
  predicate AllUsersExist(t: Tables, userIds: seq<nat>)
  {
    forall id :: id in userIds ==> id in UserIds(t.users)
  }

  /** The direct lookup: the first conversation, in row order, that is not a group and whose
      every record is of one of the two users. */
  function FindDirectConversation(t: Tables, cs: seq<Conversation>, creatorId: nat, participantId: nat)
    : (r: Option<Conversation>)
    ensures r.Some? ==> r.value in cs && DirectMatch(t, r.value, creatorId, participantId)
    ensures r.None? <==> NoDirectMatch(t, cs, creatorId, participantId)
  {
    if cs == [] then None
    else if DirectMatch(t, cs[0], creatorId, participantId) then
      Some(cs[0])
    else
      assert cs == [cs[0]] + cs[1..];
      FindDirectConversation(t, cs[1..], creatorId, participantId)
  }

  /** The records a create inserts: one per user id, in order, with consecutive ids. */
  function NewRecords(firstId: nat, conversationId: nat, userIds: seq<nat>): (r: seq<Participant>)
    ensures |r| == |userIds|
    ensures forall i :: 0 <= i < |r| ==> r[i] == Participant(firstId + i, userIds[i], conversationId)
  {
    seq(|userIds|, i requires 0 <= i < |userIds| => Participant(firstId + i, userIds[i], conversationId))
  }

  /** A conversation with its records (`include: { participants: true }`). */
  datatype ConversationWithRecords = ConversationWithRecords(conversation: Conversation, records: seq<Participant>)

  /** What `createConversation` returns. A direct request first looks for a conversation to
      reuse; otherwise the conversation and the records of the creator and of every invited id
      are inserted together, or not at all. */
  function Create(t: Tables, nextConversationId: nat, nextParticipantId: nat, creatorId: nat,
                  participantIds: seq<nat>, now: int): (r: Result<ConversationWithRecords, Failure>)
    ensures r.Err? <==>
      || participantIds == []
      || (FindDirect(t, creatorId, participantIds).None? && !AllUsersExist(t, [creatorId] + participantIds))
    ensures r.Err? ==> r.error == StoreError(if participantIds == [] then NoParticipantId else UnknownUser)
    ensures r.Ok? && FindDirect(t, creatorId, participantIds).Some? ==>
      && r.value.conversation == FindDirect(t, creatorId, participantIds).value
      && r.value.records == ParticipantsOf(t.participants, r.value.conversation.id)
    ensures r.Ok? && FindDirect(t, creatorId, participantIds).None? ==>
      && r.value.conversation == Conversation(nextConversationId, IsGroupRequest(participantIds), now, now)
      && r.value.records == NewRecords(nextParticipantId, nextConversationId, [creatorId] + participantIds)
  {
    if participantIds == [] then Err(StoreError(NoParticipantId))
    else match FindDirect(t, creatorId, participantIds)
      case Some(found) => Ok(ConversationWithRecords(found, ParticipantsOf(t.participants, found.id)))
      case None =>
        var userIds := [creatorId] + participantIds;
        if !AllUsersExist(t, userIds) then Err(StoreError(UnknownUser))
        else
          var c := Conversation(nextConversationId, IsGroupRequest(participantIds), now, now);
          Ok(ConversationWithRecords(c, NewRecords(nextParticipantId, c.id, userIds)))
  }

  /** The tables after a create that inserted `r`. */
  function Inserted(t: Tables, r: ConversationWithRecords): Tables
  {
    t.(conversations := t.conversations + [r.conversation], participants := t.participants + r.records)
  }

  /** The tables after a create that succeeded: unchanged when a conversation was reused. */
  function AfterCreate(t: Tables, creatorId: nat, participantIds: seq<nat>, r: ConversationWithRecords): Tables
  {
    if FindDirect(t, creatorId, participantIds).Some? then t else Inserted(t, r)
  }

  /** `createConversation` on the database: a reused conversation changes nothing; a new one is
      inserted with its records and moves both counters on. */
  method CreateConversation(db: Database, creatorId: nat, participantIds: seq<nat>, now: int)
    returns (r: Result<ConversationWithRecords, Failure>)
    requires db.Valid()
    modifies db
    ensures db.Valid()
    ensures r == Create(old(db.tables), old(db.nextConversationId), old(db.nextParticipantId), creatorId, participantIds, now)
    ensures db.nextUserId == old(db.nextUserId) && db.nextMessageId == old(db.nextMessageId)
    ensures r.Err? ==> db.tables == old(db.tables)
    ensures r.Ok? ==> db.tables == AfterCreate(old(db.tables), creatorId, participantIds, r.value)
    ensures r.Err? || FindDirect(old(db.tables), creatorId, participantIds).Some? ==>
      db.nextConversationId == old(db.nextConversationId) && db.nextParticipantId == old(db.nextParticipantId)
    ensures r.Ok? && FindDirect(old(db.tables), creatorId, participantIds).None? ==>
      && db.nextConversationId == old(db.nextConversationId) + 1
      && db.nextParticipantId == old(db.nextParticipantId) + 1 + |participantIds|
  {
    r := Create(db.tables, db.nextConversationId, db.nextParticipantId, creatorId, participantIds, now);
    if r.Err? || FindDirect(db.tables, creatorId, participantIds).Some? {
      return;
    }
    var userIds := [creatorId] + participantIds;
    InsertKeepsValid(db.tables, db.nextConversationId, db.nextParticipantId, r.value.conversation, r.value.records, userIds);
    db.tables := Inserted(db.tables, r.value);
    db.nextConversationId := db.nextConversationId + 1;
    db.nextParticipantId := db.nextParticipantId + |userIds|;
  }

  /** The reuse lookup a request makes: none for a group request or an empty one. */
  function FindDirect(t: Tables, creatorId: nat, participantIds: seq<nat>): (r: Option<Conversation>)
    ensures IsGroupRequest(participantIds) || participantIds == [] ==> r.None?
  {
    if participantIds == [] || IsGroupRequest(participantIds) then None
    else FindDirectConversation(t, t.conversations, creatorId, participantIds[0])
  }

  lemma InsertKeepsValid(t: Tables, nextConversationId: nat, nextParticipantId: nat,
                         c: Conversation, records: seq<Participant>, userIds: seq<nat>)
    requires Integrity(t)
    requires ConversationIdsFresh(t.conversations, nextConversationId)
    requires ParticipantIdsFresh(t.participants, nextParticipantId)
    requires c.id == nextConversationId
    requires records == NewRecords(nextParticipantId, c.id, userIds)
    requires AllUsersExist(t, userIds)
    ensures var t' := Inserted(t, ConversationWithRecords(c, records));
      && Integrity(t')
      && ConversationIdsFresh(t'.conversations, nextConversationId + 1)
      && ParticipantIdsFresh(t'.participants, nextParticipantId + |userIds|)
  {
    InsertKeepsIntegrity(t, c, nextParticipantId, records, userIds);
    AscendingAppend(t.conversations, c, ConversationId);
    RecordsAscending(t.participants, nextParticipantId, records);
  }

  lemma InsertKeepsIntegrity(t: Tables, c: Conversation, firstId: nat, records: seq<Participant>, userIds: seq<nat>)
    requires Integrity(t)
    requires records == NewRecords(firstId, c.id, userIds)
    requires AllUsersExist(t, userIds)
    ensures Integrity(Inserted(t, ConversationWithRecords(c, records)))
  {
    var t' := Inserted(t, ConversationWithRecords(c, records));
    assert ConversationIds(t'.conversations) == ConversationIds(t.conversations) + {c.id};
    forall p | p in t'.participants
      ensures p.userId in UserIds(t.users) && p.conversationId in ConversationIds(t'.conversations)
    {
      if p !in t.participants {
        var i :| 0 <= i < |records| && records[i] == p;
        assert userIds[i] in userIds;
      }
    }
  }

  /** Records numbered from the next id keep the record ids ascending. */
  lemma RecordsAscending(ps: seq<Participant>, next: nat, records: seq<Participant>)
    requires ParticipantIdsFresh(ps, next)
    requires forall i :: 0 <= i < |records| ==> records[i].id == next + i
    ensures Ascending(ps + records, ParticipantId)
  {
    var s := ps + records;
    AscendingIff(ps, ParticipantId);
    forall i, j | 0 <= i < j < |s| ensures s[i].id < s[j].id {
      if j < |ps| {
      } else if i < |ps| {
        assert s[j] == records[j - |ps|];
      } else {
        assert s[i] == records[i - |ps|] && s[j] == records[j - |ps|];
      }
    }
    AscendingIff(s, ParticipantId);
  }

  /** Because `every` constrains only the records that exist, a user's conversation with
      themself counts as their direct conversation with anybody: asking for a direct
      conversation with user 2 returns one that user 2 is not a member of. */
  lemma SelfConversationIsReused()
    ensures var t := Tables(
        [User(1, "a@example.com", "a", "hash-a", 0), User(2, "b@example.com", "b", "hash-b", 0)],
        [Conversation(1, false, 0, 0)],
        [Participant(1, 1, 1), Participant(2, 1, 1)],
        []);
      && FindDirect(t, 1, [2]) == Some(Conversation(1, false, 0, 0))
      && FindParticipant(t.participants, 1, 2).None?
  {
    var t := Tables(
        [User(1, "a@example.com", "a", "hash-a", 0), User(2, "b@example.com", "b", "hash-b", 0)],
        [Conversation(1, false, 0, 0)],
        [Participant(1, 1, 1), Participant(2, 1, 1)],
        []);
    assert DirectMatch(t, t.conversations[0], 1, 2);
    assert !IsMember(t.participants[0], 1, 2) && !IsMember(t.participants[1], 1, 2);
  }

  /** What `deleteConversation` returns: a non-participant's delete fails; otherwise the
      delete rule of the schema decides, and under `Restrict` the caller's own record still
      refers to the conversation. */
  function Delete(t: Tables, rule: DeleteRule, userId: nat, conversationId: nat): (r: Result<Conversation, Failure>)
    requires Integrity(t)
    ensures FindParticipant(t.participants, conversationId, userId).None? ==> r == Err(Thrown(NotParticipant))
    ensures rule.Restrict? ==> r.Err?
    ensures r.Ok? <==> rule.Cascade? && FindParticipant(t.participants, conversationId, userId).Some?
    ensures r.Ok? ==> r.value in t.conversations && r.value.id == conversationId
  {
    match FindParticipant(t.participants, conversationId, userId)
    case None => Err(Thrown(NotParticipant))
    case Some(p) =>
      if rule.Restrict? then Err(StoreError(StillReferenced))
      else
        assert p.conversationId in ConversationIds(t.conversations);
        Ok(FindConversation(t.conversations, conversationId).value)
  }

  /** Deleting as a non-participant fails; otherwise the delete rule of the schema decides. */
  method DeleteConversation(db: Database, rule: DeleteRule, userId: nat, conversationId: nat)
    returns (r: Result<Conversation, Failure>)
    requires db.Valid()
    modifies db
    ensures db.Valid()
    ensures r == Delete(old(db.tables), rule, userId, conversationId)
    ensures r.Err? ==> db.tables == old(db.tables)
    ensures r.Ok? ==> db.tables == Cascade(old(db.tables), conversationId)
    ensures db.nextUserId == old(db.nextUserId) && db.nextConversationId == old(db.nextConversationId)
    ensures db.nextParticipantId == old(db.nextParticipantId) && db.nextMessageId == old(db.nextMessageId)
  {
    r := Delete(db.tables, rule, userId, conversationId);
    if r.Err? {
      return;
    }
    CascadeKeepsValid(db.tables, db.nextConversationId, db.nextParticipantId, db.nextMessageId, conversationId);
    db.tables := Cascade(db.tables, conversationId);
  }

  lemma CascadeKeepsValid(t: Tables, nextConversationId: nat, nextParticipantId: nat, nextMessageId: nat,
                          conversationId: nat)
    requires Integrity(t)
    requires ConversationIdsFresh(t.conversations, nextConversationId)
    requires ParticipantIdsFresh(t.participants, nextParticipantId)
    requires MessageIdsFresh(t.messages, nextMessageId)
    ensures var r := Cascade(t, conversationId);
      && Integrity(r)
      && ConversationIdsFresh(r.conversations, nextConversationId)
      && ParticipantIdsFresh(r.participants, nextParticipantId)
      && MessageIdsFresh(r.messages, nextMessageId)
  {
    CascadeKeepsIntegrity(t, conversationId);
    CascadeKeepsConversationIds(t.conversations, conversationId, nextConversationId);
    CascadeKeepsParticipantIds(t.participants, conversationId, nextParticipantId);
    CascadeKeepsMessageIds(t.messages, conversationId, nextMessageId);
  }

  /** The tables after a cascading delete: the conversation and every row that refers to it
      are gone. */
  function Cascade(t: Tables, conversationId: nat): (r: Tables)
    ensures r.users == t.users
    ensures forall c :: c in r.conversations <==> c in t.conversations && c.id != conversationId
    ensures forall p :: p in r.participants <==> p in t.participants && p.conversationId != conversationId
    ensures forall m :: m in r.messages <==> m in t.messages && m.conversationId != conversationId
  {
    Tables(t.users,
      Filter(t.conversations, (c: Conversation) => c.id != conversationId),
      Filter(t.participants, (p: Participant) => p.conversationId != conversationId),
      Filter(t.messages, (m: Message) => m.conversationId != conversationId))
  }

  lemma CascadeKeepsConversationIds(cs: seq<Conversation>, conversationId: nat, next: nat)
    requires ConversationIdsFresh(cs, next)
    ensures ConversationIdsFresh(Filter(cs, (c: Conversation) => c.id != conversationId), next)
  {
    var keep := (c: Conversation) => c.id != conversationId;
    AscendingIff(cs, ConversationId);
    FilterIncreasing(cs, keep, ConversationId);
    var r := Filter(cs, keep);
    AscendingIff(r, ConversationId);
    assert forall i :: 0 <= i < |r| ==> r[i] in cs;
  }

  lemma CascadeKeepsParticipantIds(ps: seq<Participant>, conversationId: nat, next: nat)
    requires ParticipantIdsFresh(ps, next)
    ensures ParticipantIdsFresh(Filter(ps, (p: Participant) => p.conversationId != conversationId), next)
  {
    var keep := (p: Participant) => p.conversationId != conversationId;
    AscendingIff(ps, ParticipantId);
    FilterIncreasing(ps, keep, ParticipantId);
    var r := Filter(ps, keep);
    AscendingIff(r, ParticipantId);
    assert forall i :: 0 <= i < |r| ==> r[i] in ps;
  }

  lemma CascadeKeepsMessageIds(ms: seq<Message>, conversationId: nat, next: nat)
    requires MessageIdsFresh(ms, next)
    ensures MessageIdsFresh(Filter(ms, (m: Message) => m.conversationId != conversationId), next)
  {
    var keep := (m: Message) => m.conversationId != conversationId;
    AscendingIff(ms, MessageId);
    FilterIncreasing(ms, keep, MessageId);
    var r := Filter(ms, keep);
    AscendingIff(r, MessageId);
    assert forall i :: 0 <= i < |r| ==> r[i] in ms;
  }

  lemma CascadeKeepsIntegrity(t: Tables, conversationId: nat)
    requires Integrity(t)
    ensures Integrity(Cascade(t, conversationId))
  {
    var r := Cascade(t, conversationId);
    forall p | p in r.participants ensures p.conversationId in ConversationIds(r.conversations) {
      var c :| c in t.conversations && c.id == p.conversationId;
      assert c in r.conversations;
    }
    forall m | m in r.messages ensures m.conversationId in ConversationIds(r.conversations) {
      var c :| c in t.conversations && c.id == m.conversationId;
      assert c in r.conversations;
    }
  }
}
