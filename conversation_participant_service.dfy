/** Group membership changes and the per-user conversation directory. */
module ParticipantService {

  import opened Wrappers
  import opened Sequences
  import opened Store
  import opened StoreOrder

  const ConversationNotFound := "Conversation not found"
  const CannotAddToDirect := "Cannot add participants to non-group conversation"
  const CannotRemoveFromDirect := "Cannot remove participants from non-group conversation"
  const AdderNotMember := "User adding participant is not a member of this conversation"
  const RemoverNotMember := "User removing participant is not a member of this conversation"
  const AlreadyParticipant := "User is already a participant in this conversation"
  const NotParticipant := "User is not a participant in this conversation"

  /** The number of records pairing the user with the conversation. */
  function MemberCount(ps: seq<Participant>, conversationId: nat, userId: nat): (n: nat)
    ensures n == 0 <==> forall p :: p in ps ==> !IsMember(p, conversationId, userId)
    ensures n <= |ps|
  {
    if ps == [] then 0
    else
      assert ps == [ps[0]] + ps[1..];
      (if IsMember(ps[0], conversationId, userId) then 1 else 0) + MemberCount(ps[1..], conversationId, userId)
  }

  lemma {:induction false} MemberCountAppend(ps: seq<Participant>, p: Participant, conversationId: nat, userId: nat)
    ensures MemberCount(ps + [p], conversationId, userId) ==
      MemberCount(ps, conversationId, userId) + (if IsMember(p, conversationId, userId) then 1 else 0)
  {
    if ps != [] {
      assert (ps + [p])[1..] == ps[1..] + [p];
      MemberCountAppend(ps[1..], p, conversationId, userId);
    }
  }

  lemma {:induction false} MemberCountRemove(ps: seq<Participant>, k: nat, conversationId: nat, userId: nat)
    requires k < |ps|
    ensures MemberCount(ps[..k] + ps[k + 1..], conversationId, userId) ==
      MemberCount(ps, conversationId, userId) - (if IsMember(ps[k], conversationId, userId) then 1 else 0)
  {
    if k > 0 {
      assert (ps[..k] + ps[k + 1..])[1..] == ps[1..][..k - 1] + ps[1..][k..];
      MemberCountRemove(ps[1..], k - 1, conversationId, userId);
    } else {
      assert ps[..k] + ps[k + 1..] == ps[1..];
    }
  }

  /** The checks `addParticipantToConversation` runs, in their order: the first that fails. */
  function AddCheck(t: Tables, actorId: nat, conversationId: nat, userId: nat): (r: Option<Failure>)
  {
    match FindConversation(t.conversations, conversationId)
    case None => Some(BadRequest(ConversationNotFound))
    case Some(c) =>
      if !c.isGroup then Some(BadRequest(CannotAddToDirect))
      else if FindParticipant(t.participants, conversationId, actorId).None? then Some(BadRequest(AdderNotMember))
      else if FindParticipant(t.participants, conversationId, userId).Some? then Some(Conflict(AlreadyParticipant))
      else if userId !in UserIds(t.users) then Some(StoreError(UnknownUser))
      else None
  }

  /** The checks `removeParticipantFromConversation` runs, in their order. */
  function RemoveCheck(t: Tables, actorId: nat, conversationId: nat, userId: nat): (r: Option<Failure>)
  {
    match FindConversation(t.conversations, conversationId)
    case None => Some(BadRequest(ConversationNotFound))
    case Some(c) =>
      if !c.isGroup then Some(BadRequest(CannotRemoveFromDirect))
      else if FindParticipant(t.participants, conversationId, actorId).None? then Some(BadRequest(RemoverNotMember))
      else if FindParticipant(t.participants, conversationId, userId).None? then Some(BadRequest(NotParticipant))
      else None
  }

  /** The membership of a conversation that is not a group can be neither extended nor reduced. */
  lemma DirectMembershipFixed(t: Tables, actorId: nat, conversationId: nat, userId: nat, c: Conversation)
    requires c in t.conversations && c.id == conversationId && !c.isGroup
    requires forall i, j :: 0 <= i < j < |t.conversations| ==> t.conversations[i].id < t.conversations[j].id
    ensures AddCheck(t, actorId, conversationId, userId) == Some(BadRequest(CannotAddToDirect))
    ensures RemoveCheck(t, actorId, conversationId, userId) == Some(BadRequest(CannotRemoveFromDirect))
  {
    var found := FindConversation(t.conversations, conversationId).value;
    var i :| 0 <= i < |t.conversations| && t.conversations[i] == found;
    var j :| 0 <= j < |t.conversations| && t.conversations[j] == c;
    assert !(i < j) && !(j < i);
  }

  /** Deleting one record keeps every reference valid. */
  lemma RemoveKeepsIntegrity(t: Tables, k: nat)
    requires Integrity(t) && k < |t.participants|
    ensures Integrity(t.(participants := t.participants[..k] + t.participants[k + 1..]))
  {
    var rest := t.participants[..k] + t.participants[k + 1..];
    assert forall p :: p in rest ==> p in t.participants;
  }

  /** Deleting one record keeps the record ids fresh. */
  lemma RemoveKeepsFresh(ps: seq<Participant>, k: nat, next: nat)
    requires k < |ps| && ParticipantIdsFresh(ps, next)
    ensures ParticipantIdsFresh(ps[..k] + ps[k + 1..], next)
  {
    var rest := ps[..k] + ps[k + 1..];
    forall i | 0 <= i < |rest| ensures 1 <= rest[i].id < next {
      assert rest[i] == if i < k then ps[i] else ps[i + 1];
    }
    AscendingRemove(ps, k, ParticipantId);
  }

  /** An add that passes its checks inserts the one record of the pair: there was none, and
      there is exactly one afterwards. */
  lemma AddMakesOneRecord(t: Tables, actorId: nat, conversationId: nat, userId: nat, id: nat)
    requires AddCheck(t, actorId, conversationId, userId).None?
    ensures MemberCount(t.participants, conversationId, userId) == 0
    ensures MemberCount(t.participants + [Participant(id, userId, conversationId)], conversationId, userId) == 1
  {
    MemberCountAppend(t.participants, Participant(id, userId, conversationId), conversationId, userId);
  }

  /** What `addParticipantToConversation` inserts: the first failing check, or the record the
      next id numbers. */
  function Add(t: Tables, nextParticipantId: nat, actorId: nat, conversationId: nat, userId: nat)
    : (r: Result<Participant, Failure>)
    ensures r.Err? <==> AddCheck(t, actorId, conversationId, userId).Some?
    ensures r.Err? ==> r.error == AddCheck(t, actorId, conversationId, userId).value
    ensures r.Ok? ==> r.value == Participant(nextParticipantId, userId, conversationId)
  {
    match AddCheck(t, actorId, conversationId, userId)
    case Some(e) => Err(e)
    case None => Ok(Participant(nextParticipantId, userId, conversationId))
  }

  /** Inserting the record keeps the tables valid once the counter moves on. */
  lemma AddKeepsValid(t: Tables, nextParticipantId: nat, actorId: nat, conversationId: nat, userId: nat)
    requires Integrity(t) && ParticipantIdsFresh(t.participants, nextParticipantId)
    requires Add(t, nextParticipantId, actorId, conversationId, userId).Ok?
    ensures var p := Add(t, nextParticipantId, actorId, conversationId, userId).value;
      && Integrity(t.(participants := t.participants + [p]))
      && ParticipantIdsFresh(t.participants + [p], nextParticipantId + 1)
  {
    var p := Participant(nextParticipantId, userId, conversationId);
    var c := FindConversation(t.conversations, conversationId).value;
    assert c in t.conversations;
    AscendingAppend(t.participants, p, ParticipantId);
  }

  /** `addParticipantToConversation`: the checks, then one insert. */
  method AddParticipantToConversation(db: Database, actorId: nat, conversationId: nat, userId: nat)
    returns (r: Result<Participant, Failure>)
    requires db.Valid()
    modifies db
    ensures db.Valid()
    ensures r == Add(old(db.tables), old(db.nextParticipantId), actorId, conversationId, userId)
    ensures r.Err? ==> db.tables == old(db.tables) && db.nextParticipantId == old(db.nextParticipantId)
    ensures r.Ok? ==>
      && db.tables == old(db.tables).(participants := old(db.tables.participants) + [r.value])
      && db.nextParticipantId == old(db.nextParticipantId) + 1
    ensures db.nextUserId == old(db.nextUserId) && db.nextConversationId == old(db.nextConversationId)
    ensures db.nextMessageId == old(db.nextMessageId)
  {
    r := Add(db.tables, db.nextParticipantId, actorId, conversationId, userId);
    if r.Err? {
      return;
    }
    AddKeepsValid(db.tables, db.nextParticipantId, actorId, conversationId, userId);
    db.tables := db.tables.(participants := db.tables.participants + [r.value]);
    db.nextParticipantId := db.nextParticipantId + 1;
  }

  /** The record a removal deletes and the records that remain. */
  datatype Removal = Removal(record: Participant, rest: seq<Participant>)

  /** What `removeParticipantFromConversation` does to the records: the first failing check,
      or the deletion of the first record of the pair. */
  function Remove(t: Tables, actorId: nat, conversationId: nat, userId: nat): (r: Result<Removal, Failure>)
    ensures r.Err? <==> RemoveCheck(t, actorId, conversationId, userId).Some?
    ensures r.Err? ==> r.error == RemoveCheck(t, actorId, conversationId, userId).value
  {
    match RemoveCheck(t, actorId, conversationId, userId)
    case Some(e) => Err(e)
    case None =>
      var ps := t.participants;
      var k := FindParticipantIndex(ps, conversationId, userId).value;
      Ok(Removal(ps[k], ps[..k] + ps[k + 1..]))
  }

  /** A removal deletes exactly one row: the first record of the pair, which leaves one record
      of the pair fewer. */
  lemma RemoveDeletesFirstRecord(t: Tables, actorId: nat, conversationId: nat, userId: nat)
    requires Remove(t, actorId, conversationId, userId).Ok?
    ensures var x := Remove(t, actorId, conversationId, userId).value;
      && IsMember(x.record, conversationId, userId)
      && (exists k ::
            && 0 <= k < |t.participants| && t.participants[k] == x.record
            && (forall j :: 0 <= j < k ==> !IsMember(t.participants[j], conversationId, userId))
            && x.rest == t.participants[..k] + t.participants[k + 1..])
      && MemberCount(x.rest, conversationId, userId) == MemberCount(t.participants, conversationId, userId) - 1
  {
    var k := FindParticipantIndex(t.participants, conversationId, userId).value;
    MemberCountRemove(t.participants, k, conversationId, userId);
  }

  /** Removing keeps the tables valid with the same counters. */
  lemma RemoveKeepsValid(t: Tables, nextParticipantId: nat, actorId: nat, conversationId: nat, userId: nat)
    requires Integrity(t) && ParticipantIdsFresh(t.participants, nextParticipantId)
    requires Remove(t, actorId, conversationId, userId).Ok?
    ensures var rest := Remove(t, actorId, conversationId, userId).value.rest;
      Integrity(t.(participants := rest)) && ParticipantIdsFresh(rest, nextParticipantId)
  {
    var k := FindParticipantIndex(t.participants, conversationId, userId).value;
    RemoveKeepsIntegrity(t, k);
    RemoveKeepsFresh(t.participants, k, nextParticipantId);
  }

  /** `removeParticipantFromConversation`: the checks, then the deletion of the first record
      of the pair. */
  method RemoveParticipantFromConversation(db: Database, actorId: nat, conversationId: nat, userId: nat)
    returns (r: Result<Participant, Failure>)
    requires db.Valid()
    modifies db
    ensures db.Valid()
    ensures match Remove(old(db.tables), actorId, conversationId, userId)
      case Err(e) => r == Err(e) && db.tables == old(db.tables)
      case Ok(x) => r == Ok(x.record) && db.tables == old(db.tables).(participants := x.rest)
    ensures db.nextUserId == old(db.nextUserId) && db.nextConversationId == old(db.nextConversationId)
    ensures db.nextParticipantId == old(db.nextParticipantId) && db.nextMessageId == old(db.nextMessageId)
  {
    var out := Remove(db.tables, actorId, conversationId, userId);
    if out.Err? {
      return Err(out.error);
    }
    RemoveKeepsValid(db.tables, db.nextParticipantId, actorId, conversationId, userId);
    db.tables := db.tables.(participants := out.value.rest);
    r := Ok(out.value.record);
  }

  // ---------------------------------------------------------------------------------------
  // Reads

  /** `findParticipant`: the first record pairing the user with the conversation. */
  function FindParticipantOf(t: Tables, conversationId: nat, userId: nat): (r: Option<Participant>)
    ensures r.Some? ==> r.value in t.participants && IsMember(r.value, conversationId, userId)
    ensures r.None? <==> MemberCount(t.participants, conversationId, userId) == 0
  {
    FindParticipant(t.participants, conversationId, userId)
  }

  /** A membership record with its user row joined (`include: { user: true }`). */
  datatype RecordWithUser = RecordWithUser(record: Participant, user: User)

  function JoinUsers(t: Tables, ps: seq<Participant>): (r: seq<RecordWithUser>)
    requires forall p :: p in ps ==> p.userId in UserIds(t.users)
    ensures |r| == |ps|
    ensures forall i :: 0 <= i < |r| ==>
      r[i].record == ps[i] && r[i].user in t.users && r[i].user.id == ps[i].userId
  {
    if ps == [] then []
    else [RecordWithUser(ps[0], FindUser(t.users, ps[0].userId).value)] + JoinUsers(t, ps[1..])
  }

  /** `getConversationParticipants`: every record of the conversation, each with its user. */
  function GetConversationParticipants(t: Tables, conversationId: nat): (r: seq<RecordWithUser>)
    requires Integrity(t)
    ensures forall p :: p in t.participants && p.conversationId == conversationId <==>
      exists i :: 0 <= i < |r| && r[i].record == p
    ensures forall i :: 0 <= i < |r| ==> r[i].user in t.users && r[i].user.id == r[i].record.userId
  {
    var ps := ParticipantsOf(t.participants, conversationId);
    var r := JoinUsers(t, ps);
    assert forall p :: p in ps <==> exists i :: 0 <= i < |r| && r[i].record == p by {
      forall p | p in ps ensures exists i :: 0 <= i < |r| && r[i].record == p {
        var i :| 0 <= i < |ps| && ps[i] == p;
        assert r[i].record == p;
      }
    }
    r
  }

  // ---------------------------------------------------------------------------------------
  // The conversation directory of one user

  datatype UserRef = UserRef(id: nat, username: string)
  datatype LastMessage = LastMessage(id: nat, content: string, sender: UserRef)
  datatype ParticipantName = ParticipantName(id: nat, username: string)

  /** One row of the directory: the user's record, its conversation and the newest message. */
  datatype DirectoryEntry = DirectoryEntry(
    id: nat,
    conversationId: nat,
    updatedAt: int,
    isGroup: bool,
    message: Option<LastMessage>,
    participants: seq<ParticipantName>)

  function UpdatedAt(e: DirectoryEntry): int
  {
    e.updatedAt
  }

  function ParticipantNames(t: Tables, ps: seq<Participant>): (r: seq<ParticipantName>)
    requires forall p :: p in ps ==> p.userId in UserIds(t.users)
    ensures |r| == |ps|
    ensures forall i :: 0 <= i < |r| ==>
      && r[i].id == ps[i].id
      && exists u :: u in t.users && u.id == ps[i].userId && r[i].username == u.username
  {
    if ps == [] then []
    else
      var u := FindUser(t.users, ps[0].userId).value;
      [ParticipantName(ps[0].id, u.username)] + ParticipantNames(t, ps[1..])
  }

  /** `messages: { orderBy: { createdAt: 'desc' }, take: 1 }` with the sender's id and name. */
  function NewestMessage(t: Tables, conversationId: nat): (r: Option<LastMessage>)
    requires Integrity(t)
  {
    var cms := ConversationMessages(t.messages, conversationId);
    var ms := NewestFirst(cms);
    if ms == [] then None
    else
      assert ms[0] in multiset(cms);
      var sender := FindUser(t.users, ms[0].senderId).value;
      Some(LastMessage(ms[0].id, ms[0].content, UserRef(sender.id, sender.username)))
  }

  function Entry(t: Tables, p: Participant): (e: DirectoryEntry)
    requires Integrity(t) && p in t.participants
    ensures e.id == p.id && e.conversationId == p.conversationId
  {
    var c := FindConversation(t.conversations, p.conversationId).value;
    DirectoryEntry(p.id, p.conversationId, c.updatedAt, c.isGroup,
      NewestMessage(t, p.conversationId),
      ParticipantNames(t, ParticipantsOf(t.participants, p.conversationId)))
  }

  function Entries(t: Tables, ps: seq<Participant>): (r: seq<DirectoryEntry>)
    requires Integrity(t) && forall p :: p in ps ==> p in t.participants
    ensures |r| == |ps|
    ensures forall i :: 0 <= i < |r| ==> r[i] == Entry(t, ps[i])
  {
    if ps == [] then [] else [Entry(t, ps[0])] + Entries(t, ps[1..])
  }

  /** `getUserConversationsWithLastMessage`: one entry per record of the user, the most
      recently updated conversation first. */
  function GetUserConversationsWithLastMessage(t: Tables, userId: nat): (r: seq<DirectoryEntry>)
    requires Integrity(t)
    ensures SortedDesc(r, UpdatedAt)
  {
    var records := RecordsOfUser(t.participants, userId);
    var entries := Entries(t, records);
    ReverseMultiset(entries);
    SortDesc(Reverse(entries), UpdatedAt)
  }

  /** The directory has exactly one entry for every record of the user. */
  lemma DirectoryCoversRecords(t: Tables, userId: nat)
    requires Integrity(t)
    ensures var r := GetUserConversationsWithLastMessage(t, userId);
      && |r| == |RecordsOfUser(t.participants, userId)|
      && multiset(r) == multiset(Entries(t, RecordsOfUser(t.participants, userId)))
  {
    ReverseMultiset(Entries(t, RecordsOfUser(t.participants, userId)));
  }

  /** Every entry of the directory is the entry of one of the user's records. */
  lemma DirectoryHasOnlyOwnEntries(t: Tables, userId: nat, e: DirectoryEntry)
    requires Integrity(t)
    requires e in GetUserConversationsWithLastMessage(t, userId)
    ensures exists p :: p in t.participants && p.userId == userId && e == Entry(t, p)
  {
    var records := RecordsOfUser(t.participants, userId);
    DirectoryCoversRecords(t, userId);
    assert e in multiset(Entries(t, records));
    EntryOfSome(t, records, e);
  }

  lemma {:induction false} EntryOfSome(t: Tables, ps: seq<Participant>, e: DirectoryEntry)
    requires Integrity(t) && forall p :: p in ps ==> p in t.participants
    requires e in Entries(t, ps)
    ensures exists p :: p in ps && e == Entry(t, p)
  {
    if e != Entry(t, ps[0]) {
      EntryOfSome(t, ps[1..], e);
    }
  }

  /** There is no newest message exactly when the conversation has none. */
  lemma NewestMessageNoneIff(t: Tables, conversationId: nat)
    requires Integrity(t)
    ensures NewestMessage(t, conversationId).None? <==>
      forall m :: m in t.messages ==> m.conversationId != conversationId
  {
    var cms := ConversationMessages(t.messages, conversationId);
    if NewestFirst(cms) == [] {
      assert multiset(cms) == multiset{};
      forall m | m in t.messages ensures m.conversationId != conversationId {
        assert m.conversationId == conversationId ==> m in multiset(cms);
      }
    } else {
      assert NewestFirst(cms)[0] in multiset(cms);
    }
  }

  /** The entry's message is a message of the conversation created no earlier than any other. */
  lemma NewestMessageIsNewest(t: Tables, conversationId: nat)
    requires Integrity(t)
    requires NewestMessage(t, conversationId).Some?
    ensures var last := NewestMessage(t, conversationId).value;
      exists m :: m in t.messages && m.conversationId == conversationId && m.id == last.id &&
        m.content == last.content && m.senderId == last.sender.id &&
        forall m' :: m' in t.messages && m'.conversationId == conversationId ==> m'.createdAt <= m.createdAt
  {
    var cms := ConversationMessages(t.messages, conversationId);
    NewestFirstHead(cms);
  }
}
