# Messenger conversation core in Dafny

This project models the conversation logic of a small messenger. The backend is a NestJS
server with Prisma tables and a socket.io gateway. The browser client is a Next.js
application whose helpers and components name conversations, group messages and build
selections. Dafny proves properties of the following parts.

- **Store** (`store.dfy`, `store_order.dfy`): the four tables (users, conversations,
  participant records, messages) kept as sequences in row order. A `Database` class holds
  them together with their autoincrement counters. Its `Valid()` invariant says that every
  record and every message refers to an existing user and conversation, and that ids are
  positive, below the counter and increasing along the rows.
- **Message service** (`message_service.dfy`, `cursor.dfy`, `base64.dfy`, `js_number.dfy`):
  - posting a message behind a membership check;
  - starting a conversation with its first message;
  - cursor paging: newest-first batches below a cursor, read back oldest first, with
    `hasMore` and a `nextCursor`. The cursor is the base64 (section 4 of RFC 4648) of the
    decimal id. Node's lenient base64 decoder and ECMAScript's `parseInt` are written out.
- **Participant service** (`conversation_participant_service.dfy`): add and remove, each
  running its checks in order before one insert or delete; the finders; the per-user
  directory of conversations with their last message.
- **Conversation service** (`conversation_service.dfy`): creation, with the group rule and
  direct-conversation reuse; deletion, restricted to participants.
- **User service** (`user_service.dfy`): lookups, the search, and the insert done at
  registration.
- **Realtime gateway** (`socket_gateway.dfy`): a `Gateway` class over an ordered registry of
  connections. Each connection has an optional user and a set of rooms. Every emit appends
  `(connection, event)` deliveries to a log. Each handler is one sequential step over the
  registry and the database.
- **Client logic** (`conversation_naming.dfy`, `conversation_list.dfy`, `chat_window.dfy`,
  `user_search.dfy`, `client_emit.dfy`, `js_string.dfy`):
  - conversation titles and message previews;
  - the chat window's list updates and its avatar and time-stamp grouping;
  - the user-search panel's selection.

  The two components are classes whose fields are the component state. What they emit on
  the socket is a field too.

Time stamps are integer milliseconds passed in as `now`. Token verification is a map from
accepted tokens to user ids. Conversation ids, strings in the database, are natural numbers
from a counter.

### Behaviour modelled as the code has it

- Posting checks the sender against the record ids of the conversation, not its user ids.
  This is the first finding below. The post, the start and the two gateway handlers take the
  check as a parameter, `AsWritten` or `Intended`, and their contracts state both.
- `startConversationWithFirstMessage` has no rollback: the create and the post are separate
  steps, and what the create inserted stays when the post is refused (`MessageService.AfterStart`).
  With the check as written this happens: user 2's first message to the group user 2 has just
  created is refused, and the group stays (`MessageService.RefusedStartKeepsConversation`).
  With the intended check the post after an insert always succeeds (`MessageService.StartCreate`),
  so a refused start has inserted nothing (`MessageService.StartFailsWithoutInsert`).
- Posting does not touch the conversation row, so `updatedAt` keeps its creation value.
  The directory's order is therefore the order of creation times.
- The direct lookup uses Prisma's `every`, which holds for any conversation whose records all
  belong to the two users. A user's direct conversation with themself, or one with no records,
  is then reused for a request naming somebody else (`ConversationService.SelfConversationIsReused`).
- A cursor that decodes to NaN or 0 is ignored, and the newest page comes back
  (`MessageService.MalformedCursorGivesNewestPage`). The "Invalid cursor format" branch
  cannot be reached, because neither the decoder nor `parseInt` throws.
- The gateway joins and notifies only the first connected socket of each user. A second tab
  of the same user misses the message (`SocketGateway.SecondSocketMissesMessage`).
- `send_message` swallows every error: nothing is emitted to anybody.
- The `new_message` of `send_message` carries the whole user row as `sender`, password field
  included. The one of `start_conversation` carries only the username.
- The sidebar never cuts a group title. The chat header cuts it at 30 characters
  (`ConversationList.RowNameLongerThanHeader`).
- The chat window reads `isGroup` and `conversationParticipants` from the page of messages,
  which the server never sends. The header state then holds two undefined fields, and the
  header's title throws (`ChatWindow.ServerPageBreaksHeader`). This is the second finding below.

## Model

| member | source | states |
|---|---|---|
| Store.FindUser | backend-messenger-socketio/src/user/user.service.ts:10-18 | `user.findUnique` by id: a user row with that id, and none exactly when no row has it |
| Store.FindConversation | backend-messenger-socketio/src/conversation-participant/conversation-participant.service.ts:17-22 | `conversation.findUnique` by id: the row with that id, and none exactly when there is none |
| Store.FindParticipant | backend-messenger-socketio/src/message/message.service.ts:65-68 | `findFirst` of a record by conversation and user: one exists exactly when a record of the pair exists |
| Store.ConversationMessages | backend-messenger-socketio/src/message/message.service.ts:86-88 | the messages of one conversation, in row order, and only those |
| StoreOrder.NewestFirst | backend-messenger-socketio/src/message/message.service.ts:102-104 | `orderBy: { createdAt: 'desc' }`: a permutation of the rows sorted newest first; of two rows with the same stamp the later row comes first |
| StoreOrder.NewestFirstOfChronological | backend-messenger-socketio/src/message/message.service.ts:102-104 | when rows were created in row order, newest first is the reversed table |
| StoreOrder.NewestFirstUnique | backend-messenger-socketio/src/message/message.service.ts:102-104 | when no two rows share a stamp, every ordering `orderBy` may return, a permutation sorted newest first, is the reversed table, so the lemmas stated over `NewestFirst` hold for whatever order the store picks |
| StoreOrder.TiesLeaveOrderOpen | backend-messenger-socketio/src/message/message.service.ts:102-104 | three messages with one stamp in table order already meet everything `orderBy` promises, yet `NewestFirst` puts the last one first: with shared stamps the order is the model's choice |
| StoreOrder.NewestFirstHead | backend-messenger-socketio/src/conversation-participant/conversation-participant.service.ts:116-129 | the head of the newest-first order is a row created no earlier than any other |
| MessageService.SenderAllowedIffMember | backend-messenger-socketio/src/message/message.service.ts:23-28 | the corrected sender check admits exactly the users with a record in the conversation |
| MessageService.FindingTables | backend-messenger-socketio/src/message/message.service.ts:43-56 | the tables after user 2 starts a group with users 1 and 3 following a direct conversation of users 1 and 2; they satisfy the table invariant |
| MessageService.MemberRefusedAsWritten | backend-messenger-socketio/src/message/message.service.ts:25 | as written, the check refuses a member's message: user 2 has a record in conversation 2, yet no record id equals 2 |
| MessageService.StrangerAdmittedAsWritten | backend-messenger-socketio/src/message/message.service.ts:25 | as written, the check admits user 4, who has no record at all, because record 4 belongs to conversation 2 |
| MessageService.Post | backend-messenger-socketio/src/message/message.service.ts:12-41 | under either check, fails with "Sender is not a participant in this conversation" exactly when the check refuses, and with the store's error when the admitted sender id names no user; as written the refusal happens exactly when no record of the conversation has the sender's user id as its own id, with the intended check exactly when the sender has no record in it; otherwise the one new message with the given content, sender, conversation and time, the next id, and the sender's and conversation's rows |
| MessageService.RecordNamesConversation | backend-messenger-socketio/src/message/message.service.ts:18-28 | every record names an existing conversation, so the check as written refuses exactly when no record of the conversation has the sender's id as its own id |
| MessageService.AddMessageToConversation | backend-messenger-socketio/src/message/message.service.ts:12-41 | under the check it is given: the result is the post's; a refused post changes no table and no counter; an accepted one appends exactly that message, leaves every other table as it was, moves the message counter on by one and keeps the invariant |
| MessageService.AppendKeepsChronological | backend-messenger-socketio/src/message/message.service.ts:30-40 | a message stamped no earlier than every row keeps the message table in creation order |
| MessageService.StartReuse | backend-messenger-socketio/src/message/message.service.ts:43-57 | when a direct conversation is reused, the post to it is judged like any post: with the intended check it succeeds exactly when the sender is a member, as written it is refused exactly when no record of it has the sender's id as its own id; a success posts the sender's content to the reused conversation |
| MessageService.StartCreate | backend-messenger-socketio/src/message/message.service.ts:43-57 | when a conversation is created, the intended check always posts the first message to it; as written the post succeeds exactly when the creator's user id lies among the new record ids `nextParticipantId` to `nextParticipantId + n`; a success posts to the new conversation with the next message id |
| MessageService.PostToNewConversation | backend-messenger-socketio/src/message/message.service.ts:52-56 | the creator's message to a conversation just inserted with the creator's record first: the intended check accepts it, the check as written accepts it exactly when one of the new records has the creator's user id as its own id |
| MessageService.NewConversationRecords | backend-messenger-socketio/src/conversation/conversation.service.ts:45-56 | the records of a conversation just inserted under a fresh id are exactly the new records |
| MessageService.StartFailsWithoutInsert | backend-messenger-socketio/src/message/message.service.ts:48-56 | with the intended check, a start that fails either failed to create or reused a conversation, and leaves the tables as they were |
| MessageService.AfterStart | backend-messenger-socketio/src/message/message.service.ts:43-57 | the tables a start leaves: unchanged when the create fails; on a reuse no conversation or record is added; after an insert the new conversation and its records stay whether the post succeeds or not (there is no rollback); the first message is appended exactly when the start succeeds |
| MessageService.FindingTablesBefore | backend-messenger-socketio/src/message/message.service.ts:43-56 | users 1 to 4 and the direct conversation 1 of users 1 and 2 with records 1 and 2; they satisfy the table invariant |
| MessageService.RefusedStartKeepsConversation | backend-messenger-socketio/src/message/message.service.ts:43-56 | as written, user 2's start of a group with users 1 and 3 is refused after the insert, and the tables keep conversation 2 with records 3, 4 and 5 and no message; the intended check posts the message |
| MessageService.StartConversationWithFirstMessage | backend-messenger-socketio/src/message/message.service.ts:43-57 | the create and then the post on the database, under the check it is given: the result is the start's, the tables are those the start leaves, the conversation and record counters move on exactly when a conversation was inserted and the message counter exactly when the post succeeded; with the intended check a refused start leaves the tables unchanged |
| MessageService.CreatorAdmitted | backend-messenger-socketio/src/conversation/conversation.service.ts:49-50 | with the intended check, the creator, whose record is inserted first, may post to the new conversation |
| MessageService.CursorBound | backend-messenger-socketio/src/message/message.service.ts:75-92 | the cursor gives an id bound exactly when it is present, non-empty and decodes to a truthy number, and then the bound is that number |
| MessageService.Candidates | backend-messenger-socketio/src/message/message.service.ts:85-93 | the rows the query selects are exactly the messages of the conversation below the bound, when there is one |
| MessageService.View | backend-messenger-socketio/src/message/message.service.ts:94-101 | a page message is the row with its sender's id and username |
| MessageService.Views | backend-messenger-socketio/src/message/message.service.ts:94-101 | the page messages of the rows, one for one, in order |
| MessageService.Batch | backend-messenger-socketio/src/message/message.service.ts:102-119 | the batch of `take: limit` over the newest-first rows, reversed: `min(limit, n)` messages, all of them candidates |
| MessageService.BatchChronological | backend-messenger-socketio/src/message/message.service.ts:119 | the reversed newest-first batch is in creation order |
| MessageService.FetchBelow | backend-messenger-socketio/src/message/message.service.ts:65-72 | fails with "User is not a participant in this conversation" exactly when the user has no record in the conversation |
| MessageService.FetchBelowPage | backend-messenger-socketio/src/message/message.service.ts:85-123 | a page holds at most `limit` messages of the conversation below the bound, oldest first; `hasMore` holds exactly when it holds `limit`; `nextCursor` is null exactly when it is empty, and otherwise is the cursor of its oldest message |
| MessageService.PageOf | backend-messenger-socketio/src/message/message.service.ts:108-122 | the page of a batch: as many messages, `hasMore` exactly when the batch is full, and a cursor exactly when it is non-empty, that of its first (oldest) message |
| MessageService.FetchPage | backend-messenger-socketio/src/message/message.service.ts:59-123 | `getConversationMessagesWithCursor`: decoding the cursor never fails, so it fails exactly when the user is not a member |
| MessageService.NextCursorDecodes | backend-messenger-socketio/src/message/message.service.ts:78-116 | the next cursor of a page decodes to the id of the page's oldest message |
| MessageService.ViewsSelected | backend-messenger-socketio/src/message/message.service.ts:86-92 | a batch of candidates gives page messages of the conversation below the bound |
| MessageService.ViewsChronological | backend-messenger-socketio/src/message/message.service.ts:119 | rows in creation order give page messages in creation order |
| MessageService.BatchFacts | backend-messenger-socketio/src/message/message.service.ts:102-119 | the newest-first batch holds candidates only, and read backwards it is in creation order |
| MessageService.MalformedCursorGivesNewestPage | backend-messenger-socketio/src/message/message.service.ts:75-88 | a cursor with no base64 character in it gives the same result as no cursor: the newest page |
| MessageService.CursorBoundOfEncode | backend-messenger-socketio/src/message/message.service.ts:78-116 | the cursor of a positive id stands for that id |
| MessageService.CrawlProgress | backend-messenger-socketio/src/message/message.service.ts:88-116 | following the next cursor leaves fewer candidates, so paging ends |
| MessageService.BelowPrefix | backend-messenger-socketio/src/message/message.service.ts:88-92 | below the id of its `j`-th message, a conversation with increasing ids has exactly its first `j` messages |
| MessageService.ConversationOrdered | backend-messenger-socketio/src/message/message.service.ts:86-88 | the messages of one conversation have positive increasing ids, in creation order, when the table has |
| MessageService.BatchOfChronological | backend-messenger-socketio/src/message/message.service.ts:102-119 | of candidates in creation order, the batch is the last `limit` of them, or all when fewer |
| MessageService.PrefixBoundBelow | backend-messenger-socketio/src/message/message.service.ts:88-92 | below the `j`-th of the messages a bound leaves lie exactly the first `j` |
| MessageService.PageOfPrefix | backend-messenger-socketio/src/message/message.service.ts:85-122 | the page below a bound that leaves `n` messages holds the last `limit` of them, or all when fewer |
| MessageService.CrawlStep | backend-messenger-socketio/src/message/message.service.ts:108-116 | following the cursor: the crawl is the crawl below the page's oldest message and then the page, when the page was full, and the page alone otherwise |
| MessageService.CrawlPrefixStep | backend-messenger-socketio/src/message/message.service.ts:85-123 | one crawl step below a bound that leaves `n` messages: the last `limit` of them, after the crawl below the oldest of those when the page was full |
| MessageService.CrawlFromPrefix | backend-messenger-socketio/src/message/message.service.ts:85-123 | from a bound that leaves the first `n` messages, following cursors returns exactly those, oldest first |
| MessageService.CrawlVisitsEveryMessage | backend-messenger-socketio/src/message/message.service.ts:59-123 | starting without a cursor and following `nextCursor` while `hasMore`, a member reads every message of the conversation exactly once, in creation order, when rows were stored in creation order |
| Cursor.DecodeEncode | backend-messenger-socketio/src/message/message.service.ts:78-115 | `parseInt` of the base64-decoded cursor of an id is that id |
| Cursor.EncodeInjective | backend-messenger-socketio/src/message/message.service.ts:113-115 | distinct ids get distinct cursors |
| Cursor.NoAlphabetIsNaN | backend-messenger-socketio/src/message/message.service.ts:78-79 | a cursor with no base64 character in it decodes to NaN |
| Cursor.AsciiBytes | backend-messenger-socketio/src/message/message.service.ts:113 | `Buffer.from` on an ASCII string: one byte per character, its code |
| Cursor.BytesToString | backend-messenger-socketio/src/message/message.service.ts:78 | `toString()` of a buffer: one character per byte, each ASCII byte read as its character |
| Base64.DecodeEncode | backend-messenger-socketio/src/message/message.service.ts:78-115 | decoding undoes base64 encoding for every byte string |
| Base64.Encode | backend-messenger-socketio/src/message/message.service.ts:113-115 | the encoding has four characters per started group of three bytes |
| Base64.BytesOf | backend-messenger-socketio/src/message/message.service.ts:78 | four 6-bit values give three bytes; a final two or three give one or two |
| Base64.ValueOfCharOf | backend-messenger-socketio/src/message/message.service.ts:78-115 | the decoder reads every alphabet character back as the value it encodes, and none of them is the padding |
| Base64.SextetsOfChars | backend-messenger-socketio/src/message/message.service.ts:78 | the decoder reads encoded values back unchanged, in front of whatever follows |
| JsNumber.NatToDecimal | backend-messenger-socketio/src/message/message.service.ts:113 | `toString()` of an id: a non-empty decimal numeral without a leading zero |
| JsNumber.DigitsValueOfDecimal | backend-messenger-socketio/src/message/message.service.ts:79-113 | the digits of an id's numeral have the id as their value |
| JsNumber.ParseIntOfDecimal | backend-messenger-socketio/src/message/message.service.ts:79-113 | `parseInt(n.toString())` is `n` |
| JsNumber.DigitPrefix | backend-messenger-socketio/src/message/message.service.ts:79 | `parseInt` reads the longest prefix of digits, stopping at the first non-digit |
| ParticipantService.MemberCount | backend-messenger-socketio/src/conversation-participant/conversation-participant.service.ts:39-46 | the number of records of a user in a conversation is zero exactly when there is none |
| ParticipantService.DirectMembershipFixed | backend-messenger-socketio/src/conversation-participant/conversation-participant.service.ts:23-70 | adding to or removing from a conversation that is not a group always fails with the bad-request error |
| ParticipantService.AddMakesOneRecord | backend-messenger-socketio/src/conversation-participant/conversation-participant.service.ts:39-52 | an add that passes its checks turns zero records of the pair into exactly one: no duplicate pair |
| ParticipantService.Add | backend-messenger-socketio/src/conversation-participant/conversation-participant.service.ts:12-53 | fails with the first failing check, in the order not found, not a group, adder not a member, already a member; otherwise it is the record of the pair with the next id |
| ParticipantService.AddKeepsValid | backend-messenger-socketio/src/conversation-participant/conversation-participant.service.ts:47-52 | inserting the record keeps the table invariant once the counter moves on |
| ParticipantService.AddParticipantToConversation | backend-messenger-socketio/src/conversation-participant/conversation-participant.service.ts:12-53 | a refused add changes nothing; an accepted one appends exactly that record and moves only the record counter on |
| ParticipantService.Remove | backend-messenger-socketio/src/conversation-participant/conversation-participant.service.ts:55-94 | fails with the first failing check, in the order not found, not a group, remover not a member, target not a member; otherwise it deletes the first record of the pair |
| ParticipantService.RemoveDeletesFirstRecord | backend-messenger-socketio/src/conversation-participant/conversation-participant.service.ts:82-93 | a removal deletes exactly one row, a record of the pair, and leaves one record of the pair fewer |
| ParticipantService.RemoveKeepsValid | backend-messenger-socketio/src/conversation-participant/conversation-participant.service.ts:91-93 | deleting the record keeps the table invariant with the same counters |
| ParticipantService.RemoveParticipantFromConversation | backend-messenger-socketio/src/conversation-participant/conversation-participant.service.ts:55-94 | a refused removal changes nothing; an accepted one deletes the one row and keeps every other table and counter |
| ParticipantService.FindParticipantOf | backend-messenger-socketio/src/conversation-participant/conversation-participant.service.ts:152-156 | `findParticipant` returns a record of the pair, and none exactly when there is no such record |
| ParticipantService.JoinUsers | backend-messenger-socketio/src/conversation-participant/conversation-participant.service.ts:160-162 | each record comes with its user's row, one for one, in order |
| ParticipantService.GetConversationParticipants | backend-messenger-socketio/src/conversation-participant/conversation-participant.service.ts:158-163 | exactly the records of the conversation, each with the user it names |
| ParticipantService.ParticipantNames | backend-messenger-socketio/src/conversation-participant/conversation-participant.service.ts:102-144 | each record of the conversation as its id and its user's username, in order |
| ParticipantService.Entry | backend-messenger-socketio/src/conversation-participant/conversation-participant.service.ts:137-149 | the directory entry of a record carries the record's id and conversation |
| ParticipantService.Entries | backend-messenger-socketio/src/conversation-participant/conversation-participant.service.ts:137-149 | the entries of records, one for one, in order |
| ParticipantService.GetUserConversationsWithLastMessage | backend-messenger-socketio/src/conversation-participant/conversation-participant.service.ts:95-150 | the directory is ordered by conversation `updatedAt`, most recent first |
| ParticipantService.DirectoryCoversRecords | backend-messenger-socketio/src/conversation-participant/conversation-participant.service.ts:96-149 | the directory has exactly one entry for every record of the user |
| ParticipantService.DirectoryHasOnlyOwnEntries | backend-messenger-socketio/src/conversation-participant/conversation-participant.service.ts:96-99 | every entry is the entry of one of the user's own records |
| ParticipantService.NewestMessageNoneIff | backend-messenger-socketio/src/conversation-participant/conversation-participant.service.ts:116-143 | an entry has no last message exactly when the conversation has no message |
| ParticipantService.NewestMessageIsNewest | backend-messenger-socketio/src/conversation-participant/conversation-participant.service.ts:116-129 | an entry's last message is a message of the conversation created no earlier than any other |
| ConversationService.FindDirectConversation | backend-messenger-socketio/src/conversation/conversation.service.ts:25-40 | the direct lookup returns a conversation that is not a group and all of whose records belong to the two users, and none exactly when no conversation is such |
| ConversationService.FindDirect | backend-messenger-socketio/src/conversation/conversation.service.ts:17-23 | a group request, or an empty one, never looks for a conversation to reuse |
| ConversationService.NewRecords | backend-messenger-socketio/src/conversation/conversation.service.ts:48-54 | one record per user id, in order, with consecutive ids, the creator included again if listed |
| ConversationService.Create | backend-messenger-socketio/src/conversation/conversation.service.ts:13-63 | a reused conversation comes back with its records; otherwise a new conversation, a group exactly when more than one id was invited, with records for the creator and then every invited id; it fails exactly when no id was given, or when an insert names a missing user |
| ConversationService.CreateConversation | backend-messenger-socketio/src/conversation/conversation.service.ts:13-63 | a failure or a reuse leaves the tables and counters unchanged; a creation inserts the conversation and its records, moves both counters on and keeps the invariant |
| ConversationService.InsertKeepsValid | backend-messenger-socketio/src/conversation/conversation.service.ts:45-62 | inserting the conversation with its records keeps the table invariant once the counters move on |
| ConversationService.SelfConversationIsReused | backend-messenger-socketio/src/conversation/conversation.service.ts:29-35 | `every` holds vacuously for the other user, so a request for a direct conversation with user 2 returns one user 2 is not a member of |
| ConversationService.Delete | backend-messenger-socketio/src/conversation/conversation.service.ts:65-81 | a caller without a record gets "User is not a participant in this conversation"; a record-holder's delete succeeds exactly under the cascade rule and returns the conversation |
| ConversationService.DeleteConversation | backend-messenger-socketio/src/conversation/conversation.service.ts:65-81 | a refused delete changes nothing; an accepted one removes the conversation and every row referring to it, keeping the counters and the invariant |
| ConversationService.Cascade | backend-messenger-socketio/src/conversation/conversation.service.ts:78-80 | after the delete exactly the other conversations, records and messages remain, and every user |
| ConversationService.CascadeKeepsValid | backend-messenger-socketio/src/conversation/conversation.service.ts:78-80 | the cascading delete keeps the table invariant |
| UserService.GetUserById | backend-messenger-socketio/src/user/user.service.ts:9-19 | the user with that id without its password, and none exactly when there is no such user |
| UserService.MatchingUsers | backend-messenger-socketio/src/user/user.service.ts:22-35 | exactly the users other than the searcher whose username or email contains the phrase ignoring case, without their passwords |
| UserService.SearchUsers | backend-messenger-socketio/src/user/user.service.ts:21-38 | at most 10 results: the first ten matches, or every match when there are fewer |
| UserService.SearchResultsMatch | backend-messenger-socketio/src/user/user.service.ts:23-29 | a result is never the searcher, and its username or email contains the phrase ignoring case |
| UserService.GetUserByEmailOrUsername | backend-messenger-socketio/src/user/user.service.ts:40-46 | a user whose email or username is equal, and none exactly when no user has either |
| UserService.SaveUser | backend-messenger-socketio/src/user/user.service.ts:48-53 | appends exactly one user with the given email, username and password and the next id, and keeps the invariant |
| SocketGateway.ExtractToken | backend-messenger-socketio/src/socket/socket.gateway.ts:46-53 | a token, when there is one, is never empty |
| SocketGateway.BearerHeaderToken | backend-messenger-socketio/src/socket/socket.gateway.ts:46-48 | a `<scheme> <token>` header gives its token; an empty token falls back to `auth.token` when that is non-empty |
| SocketGateway.TokenWithoutHeaderWord | backend-messenger-socketio/src/socket/socket.gateway.ts:46-48 | without a second word in the header, the token is `auth.token` when it is non-empty, and none otherwise |
| SocketGateway.Authenticate | backend-messenger-socketio/src/socket/socket.gateway.ts:46-59 | a user exactly when there is a token the verifier accepts, and then the user its payload names |
| SocketGateway.FirstLive | backend-messenger-socketio/src/socket/socket.gateway.ts:162-164 | `find` picks the first connected socket bound to the user, and none exactly when there is none |
| SocketGateway.FirstLiveSameSockets | backend-messenger-socketio/src/socket/socket.gateway.ts:115-118 | joining rooms never changes which socket `find` picks |
| SocketGateway.JoinAddsRoom | backend-messenger-socketio/src/socket/socket.gateway.ts:87-121 | `join` adds the room to that socket and changes no other socket |
| SocketGateway.JoinFirstRooms | backend-messenger-socketio/src/socket/socket.gateway.ts:161-168 | after the join loop, a socket is in the room exactly when it was before or it is the first connected socket of a listed user |
| SocketGateway.JoinFirstOnlyGrows | backend-messenger-socketio/src/socket/socket.gateway.ts:161-168 | the join loop only adds rooms |
| SocketGateway.JoinFirstIdempotent | backend-messenger-socketio/src/socket/socket.gateway.ts:161-168 | running the join loop again changes nothing |
| SocketGateway.RoomsOnlyGrowTransitive | backend-messenger-socketio/src/socket/socket.gateway.ts:87 | steps that only add rooms compose into one that only adds rooms |
| SocketGateway.RoomFanout | backend-messenger-socketio/src/socket/socket.gateway.ts:123 | `server.to(room).emit`: deliveries of that event to exactly the connected sockets in the room |
| SocketGateway.RoomFanoutOnce | backend-messenger-socketio/src/socket/socket.gateway.ts:123 | a room emit reaches each socket at most once, in registry order |
| SocketGateway.JoinThenFanout | backend-messenger-socketio/src/socket/socket.gateway.ts:161-177 | after the join loop the message reaches exactly the connected sockets that were in the room already or are the first socket of a member |
| SocketGateway.SecondSocketMissesMessage | backend-messenger-socketio/src/socket/socket.gateway.ts:162-166 | a user with two connected sockets, in no room yet, gets the message on the first socket only |
| SocketGateway.NoticeOf | backend-messenger-socketio/src/socket/socket.gateway.ts:248-260 | a user's notice carries the directory looked up for the user, on its first connected socket, and there is none without one |
| SocketGateway.NoticeExact | backend-messenger-socketio/src/socket/socket.gateway.ts:254-260 | one user's notice goes exactly to that user's first connected socket |
| SocketGateway.UpdatesExact | backend-messenger-socketio/src/socket/socket.gateway.ts:247-261 | a `conversation_updated` delivery goes exactly to the first connected socket of a listed user, carrying that user's own directory |
| SocketGateway.UpdatesStep | backend-messenger-socketio/src/socket/socket.gateway.ts:247-261 | one more record of the loop adds the notice of its user after the ones before |
| SocketGateway.AddressedFanout | backend-messenger-socketio/src/socket/socket.gateway.ts:123 | a room emit addresses only sockets of the registry |
| SocketGateway.Gateway.constructor | backend-messenger-socketio/src/socket/socket.gateway.ts:37-41 | a gateway starts with no connection and an empty log |
| SocketGateway.Gateway.HandleConnection | backend-messenger-socketio/src/socket/socket.gateway.ts:43-60 | a new socket is appended; it stays connected, bound to the verified user, exactly when a token was verified, and is disconnected with no user otherwise; nothing is emitted |
| SocketGateway.Gateway.HandleDisconnect | backend-messenger-socketio/src/socket/socket.gateway.ts:62 | only that socket becomes disconnected; rooms and the log stay |
| SocketGateway.Gateway.JoinConversation | backend-messenger-socketio/src/socket/socket.gateway.ts:64-95 | a non-member's socket gets "Not a participant of this conversation" and joins nothing; a member's socket joins the room and alone gets `joined_conversation` |
| SocketGateway.Gateway.Broadcast | backend-messenger-socketio/src/socket/socket.gateway.ts:123 | the log grows by the room fanout and nothing else changes |
| SocketGateway.Gateway.JoinFirstSockets | backend-messenger-socketio/src/socket/socket.gateway.ts:161-168 | the loop leaves the registry the join loop specifies and emits nothing |
| SocketGateway.Gateway.UpdateConversationList | backend-messenger-socketio/src/socket/socket.gateway.ts:238-265 | the log grows by exactly the notices of the conversation's members, in record order |
| SocketGateway.Gateway.NotifyUser | backend-messenger-socketio/src/socket/socket.gateway.ts:248-260 | the log grows by the user's notice, and nothing else changes |
| SocketGateway.Gateway.SendMessage | backend-messenger-socketio/src/socket/socket.gateway.ts:140-184 | under the check it is given, a refused post changes nothing and emits nothing; otherwise the message is appended, the first socket of each member joins the room, the room gets `new_message` with the sender's row, then the members get their directories |
| SocketGateway.Gateway.StartConversation | backend-messenger-socketio/src/socket/socket.gateway.ts:186-236 | under the check it is given, the tables are those the start leaves; a refused start changes no connection and the caller alone gets the error; otherwise the first socket of the creator and of every invited id joins the room, the room gets `new_message` with the sender's username, then the members get their directories |
| SocketGateway.Gateway.AddToConversation | backend-messenger-socketio/src/socket/socket.gateway.ts:96-138 | a refused add changes nothing and the caller alone gets the error; otherwise the record is inserted and the caller's socket joins the room, and only when the added user has a connected socket does it join, the room hear of the addition and the members get their directories |
| SocketGateway.Gateway.WelcomeInvited | backend-messenger-socketio/src/socket/socket.gateway.ts:115-131 | without a connected socket of the invited user nothing happens; otherwise it joins, the room gets `user_added_to_conversation`, then the directories go out |
| ConversationNaming.FirstOther | frontend-messenger-socketio/lib/utils.tsx:21-23 | `find` stops at the first participant whose username differs from the viewer's, and finds none exactly when every username is the viewer's |
| ConversationNaming.HeaderTitle | frontend-messenger-socketio/lib/utils.tsx:13-19 | with the default limit of 30, a group title longer than 30 becomes 33 characters, and a shorter one is the joined names or "Group Chat" |
| ConversationNaming.GroupNameFits | frontend-messenger-socketio/lib/utils.tsx:15-19 | joined names within the limit are the title, or "Group Chat" when they are empty |
| ConversationNaming.GroupNameCut | frontend-messenger-socketio/lib/utils.tsx:17-18 | longer joined names are cut to their first `maxLength` characters followed by "...", `maxLength + 3` in all |
| ConversationNaming.GroupNameIgnoresViewer | frontend-messenger-socketio/lib/utils.tsx:15-19 | a group title does not depend on the current user |
| ConversationNaming.DirectNameIsOtherMember | frontend-messenger-socketio/lib/utils.tsx:20-25 | a direct title is "Direct Message" or the username of the first member who is not the viewer |
| ConversationNaming.DirectNameWithoutViewer | frontend-messenger-socketio/lib/utils.tsx:21-24 | without a current user the direct title is the first member's username |
| ConversationNaming.GroupNamesLength | frontend-messenger-socketio/lib/utils.tsx:16 | the joined names are the usernames' lengths plus two per gap |
| ConversationNaming.GroupNamesEmptyIff | frontend-messenger-socketio/lib/utils.tsx:16-19 | the joined names are empty exactly for no member, or one member with an empty username |
| ConversationList.LastMessagePreview | frontend-messenger-socketio/components/conversation-list.tsx:74-81 | "No messages yet" without a message; content of at most 50 characters unchanged; longer content cut to its first 50 characters followed by "..." |
| ConversationList.PreviewStartsLikeMessage | frontend-messenger-socketio/components/conversation-list.tsx:78-80 | a preview never exceeds 53 characters and begins like the message as far as it goes |
| ConversationList.RowNameIsUncutTitle | frontend-messenger-socketio/components/conversation-list.tsx:60-72 | the row title is the header title given a limit the joined names never exceed: the sidebar never cuts a group's names |
| ConversationList.RowNameLongerThanHeader | frontend-messenger-socketio/components/conversation-list.tsx:61-65 | a group name longer than 33 characters is longer in the sidebar than in the header |
| ChatWindow.NewSenderClosesGroup | frontend-messenger-socketio/components/chat-window.tsx:319-326 | every message that opens a group with an avatar follows one that shows its time |
| ChatWindow.RunShowsOnce | frontend-messenger-socketio/components/chat-window.tsx:319-326 | in one sender's run without a gap over 300000 ms, only the first message has the avatar and only the last the time |
| ChatWindow.PrependKeepsGrouping | frontend-messenger-socketio/components/chat-window.tsx:319-326 | putting older messages in front keeps every shown message's time and, past the first, its avatar |
| ChatWindow.AppendKeepsGrouping | frontend-messenger-socketio/components/chat-window.tsx:319-326 | an arriving message keeps every avatar and every time but that of the previous last message |
| ChatWindow.Window.constructor | frontend-messenger-socketio/components/chat-window.tsx:45-59 | the initial state: no messages, empty input, not loading, `hasMore`, no cursor |
| ChatWindow.Window.OnNewMessage | frontend-messenger-socketio/components/chat-window.tsx:65-69 | the message is appended exactly when it belongs to the open conversation; nothing else changes |
| ChatWindow.Window.BeginLoadMessages | frontend-messenger-socketio/components/chat-window.tsx:98-101 | with a conversation open the window marks itself loading and asks for it; otherwise nothing changes |
| ChatWindow.Window.FinishLoadMessages | frontend-messenger-socketio/components/chat-window.tsx:103-115 | a response replaces the list, `hasMore` and the cursor, and the header state becomes the response's `isGroup` and `conversationParticipants`, each undefined when the body lacks it; a failure keeps them all; loading ends |
| ChatWindow.ParticipantsTooltip | frontend-messenger-socketio/components/chat-window.tsx:226-228 | the header's `title` is undefined without header state, throws a `TypeError` exactly when the state has no participant list, and is otherwise the participants' usernames joined by ", " |
| ChatWindow.ServerPageBreaksHeader | backend-messenger-socketio/src/message/message.service.ts:118-122 | the server's page has only `messages`, `hasMore` and `nextCursor`, so after a load the header state has neither a group flag nor participants, and drawing the header's title throws |
| ChatWindow.PageWithHeaderShowsNames | frontend-messenger-socketio/components/chat-window.tsx:107-110 | a page that also carries the group flag and the participants gives the header both, and the title is the participants' names |
| ChatWindow.Window.BeginLoadMore | frontend-messenger-socketio/components/chat-window.tsx:118-128 | without a conversation, without more, without a cursor or while loading nothing happens; otherwise it asks for the page below the cursor and marks loading |
| ChatWindow.Window.FinishLoadMore | frontend-messenger-socketio/components/chat-window.tsx:129-137 | the older page goes in front, so the previous list is a suffix of the new one; `hasMore` and the cursor are the response's; a failure keeps them |
| ChatWindow.Window.MessagesChanged | frontend-messenger-socketio/components/chat-window.tsx:164-170 | it scrolls to the bottom unless older messages were just put in front, and clears that mark |
| ChatWindow.Window.JoinConversation | frontend-messenger-socketio/components/chat-window.tsx:140-144 | with a conversation open it emits `join_conversation` for it; otherwise nothing |
| ChatWindow.Window.SendMessage | frontend-messenger-socketio/components/chat-window.tsx:146-151 | a blank input or no conversation sends nothing; otherwise the trimmed text is sent and the input cleared |
| ChatWindow.Window.HandleKeyPress | frontend-messenger-socketio/components/chat-window.tsx:157-162 | Enter without Shift sends, with the default prevented; any other key changes nothing |
| UserSearch.SearchPhrase | frontend-messenger-socketio/components/user-search.tsx:40-47 | a search is made exactly when the trimmed query has at least 2 characters, and it is for the trimmed query |
| UserSearch.SearchPhraseIgnoresPadding | frontend-messenger-socketio/components/user-search.tsx:40-47 | whitespace around a query changes neither whether it is searched nor the phrase |
| UserSearch.WithUserKeepsUnique | frontend-messenger-socketio/components/user-search.tsx:61-64 | adding keeps selected ids unique, selects the user's id and loses nobody |
| UserSearch.WithUserIdempotent | frontend-messenger-socketio/components/user-search.tsx:62 | adding the same user twice is adding it once |
| UserSearch.WithoutUserSpec | frontend-messenger-socketio/components/user-search.tsx:69-71 | removing leaves exactly the selected users with another id, in order |
| UserSearch.WithoutUserKeepsUnique | frontend-messenger-socketio/components/user-search.tsx:69-71 | removing keeps selected ids unique |
| UserSearch.RemoveUndoesAdd | frontend-messenger-socketio/components/user-search.tsx:61-71 | removing a user just added to a selection without it gives that selection back |
| UserSearch.Ids | frontend-messenger-socketio/components/user-search.tsx:76 | the selected ids, one per user, in selection order |
| UserSearch.SentIdsDistinct | frontend-messenger-socketio/components/user-search.tsx:76-77 | the ids sent to start a conversation are distinct |
| UserSearch.Panel.constructor | frontend-messenger-socketio/components/user-search.tsx:17-21 | the panel starts empty, not loading, not closed, with nothing emitted |
| UserSearch.Panel.SearchEffect | frontend-messenger-socketio/components/user-search.tsx:39-45 | a short trimmed query clears the results and asks nothing; otherwise it marks loading and asks for the trimmed query |
| UserSearch.Panel.SearchDone | frontend-messenger-socketio/components/user-search.tsx:46-54 | the results are the response, or none on failure; loading ends |
| UserSearch.Panel.AddUser | frontend-messenger-socketio/components/user-search.tsx:61-67 | the selection becomes that of adding the user, and the query and results are cleared either way |
| UserSearch.Panel.RemoveUser | frontend-messenger-socketio/components/user-search.tsx:69-71 | the selection becomes that of removing the id; nothing else changes |
| UserSearch.Panel.StartConversation | frontend-messenger-socketio/components/user-search.tsx:73-82 | with no selection or a blank message nothing happens; otherwise the selected ids in order and the trimmed message are sent, the selection and message are cleared, and the panel closes |
| JsString.TrimStartSpec | frontend-messenger-socketio/components/user-search.tsx:40 | `trimStart` keeps a suffix, drops only whitespace, and stops at the first other character |
| JsString.TrimEndSpec | frontend-messenger-socketio/components/user-search.tsx:40 | trimming the end keeps a prefix, drops only whitespace, and stops at the last other character |
| JsString.TrimIsInfix | frontend-messenger-socketio/components/chat-window.tsx:147-149 | `trim` keeps a contiguous piece of the input that has no whitespace at either end |
| JsString.TrimEmptyIff | frontend-messenger-socketio/components/chat-window.tsx:147 | `trim` gives the empty string exactly when every character is whitespace |
| JsString.TrimPadded | frontend-messenger-socketio/components/user-search.tsx:40 | whitespace around a string does not change what `trim` keeps |
| JsString.SplitOnSpace | backend-messenger-socketio/src/socket/socket.gateway.ts:47 | `split(' ')` gives at least one piece and no piece holds a space |
| JsString.JoinSplit | backend-messenger-socketio/src/socket/socket.gateway.ts:47 | joining the pieces of `split(' ')` with a space gives the string back |
| JsString.SplitAfterWord | backend-messenger-socketio/src/socket/socket.gateway.ts:47 | a word without a space, then a space, is the first piece |
| JsString.ElementAt | backend-messenger-socketio/src/socket/socket.gateway.ts:47 | indexing past the end is undefined, and otherwise the element |
| JsString.Prefix | frontend-messenger-socketio/lib/utils.tsx:18 | `substring(0, end)` is a prefix whose length is `end` clamped to the string |
| JsString.Lower | backend-messenger-socketio/src/user/user.service.ts:24-27 | case folding keeps the length and lower-cases each ASCII letter |

## Left out

- Prisma, the database engine and the schema are replaced by in-memory tables. The cascade rule for deleting a conversation is not visible, so it is a parameter: `Cascade` or `Restrict`.
- The schema's unique constraints are not visible. None is assumed, so two records of the same pair are possible in the tables, and removal deletes the first.
- Asynchrony is left out: interleaving between handlers, `fetchSockets` across nodes, and socket.io's own room cleanup on disconnect. Each handler is one atomic step.
- The `try`/`catch` branches around store calls that cannot throw in this model are left out. The "Invalid cursor format" branch is one: the decoder and `parseInt` are total.
- JWT verification is a map from accepted tokens to the `sub` of their payload. Signing, bcrypt and the Passport strategy are not part of this model.
- Controllers, modules, DTO validation and the HTTP layer are left out. `limit` is a natural number; the exhaustive-paging lemmas need it to be at least 1.
- `delete_conversation` / `conversation_deleted` are left out: the gateway has no handler for them, and the client's listener only sets a timer and shows a toast.
- The client's socket and HTTP wrappers, the authentication context, the pages and the header component are not part of this model. So are the JSX, the avatars (`getConversationAvatar`), scrolling, toasts, the 300 ms debounce, timers and `formatDistanceToNow`.
- Strings are sequences of characters. JavaScript's UTF-16 lengths, locale-aware case folding and Unicode normalisation are not modelled. `Lower` folds ASCII letters only.
- `Date` parsing is not modelled (an invalid date gives NaN in the client). `createdAt` is an integer number of milliseconds.
- Optional chaining on `participants` in the conversation list is not modelled: a directory entry always carries its participant list.
- `ConversationService.FindDirectConversation`: Prisma's `findFirst` without `orderBy` is modelled as the first match in row order.
- `UserService.SearchUsers`: `take: 10` without `orderBy` is modelled as the first ten matches in row order.
- `ParticipantService.GetUserConversationsWithLastMessage`: how the database orders entries with equal `updatedAt` is not visible. Only the descending order and the set of entries are stated.
- `MessageService.CrawlVisitsEveryMessage` assumes rows were stored in creation order, so that id order agrees with `createdAt` order. The query sorts by time but bounds by id. When two messages share a stamp it also relies on the tie rule of `StoreOrder.NewestFirst`; with the order the store may pick instead, a page can repeat one message and the crawl skip another.
- `StoreOrder.NewestFirst`: of two rows with the same `createdAt` the later row comes first. Prisma leaves ties in any order (`StoreOrder.TiesLeaveOrderOpen`). With distinct stamps the order is forced (`StoreOrder.NewestFirstUnique`); with shared ones the paging lemmas below state what happens under this tie rule only.
- `StoreOrder.NewestFirstOfChronological`: with shared stamps, "newest first is the reversed table" holds by the tie rule only.
- `MessageService.BatchOfChronological`: with shared stamps, "the last `limit` candidates" holds by the tie rule only.
- `MessageService.PageOfPrefix`: with shared stamps, the page's contents follow the tie rule.
- `MessageService.CrawlPrefixStep`: with shared stamps, the step follows the tie rule.
- `MessageService.CrawlFromPrefix`: with shared stamps, "exactly those, oldest first" holds by the tie rule only.
- `MessageService.StartFailsWithoutInsert` and `MessageService.CreatorAdmitted` are about the intended check only; the check as written is covered by `MessageService.StartCreate`, `MessageService.PostToNewConversation` and `MessageService.RefusedStartKeepsConversation`.
- The store's error texts (`Store.UnknownUser`, `ConversationService.NoParticipantId`, `ConversationService.StillReferenced`) are placeholders: Prisma's actual messages are not visible, though the gateway forwards them. With an empty participant list the direct lookup puts the undefined `participants[0]` inside `in: [...]`; the model assumes the store rejects that lookup, and gives the failure the `NoParticipantId` text.
- `ConversationService.Create`: a newly created conversation is returned with its records but without the joined user rows (`include: { user: true }`).
- `JsNumber.ParseIntOfDecimal`: `parseInt` is exact on integers. Double-precision rounding of very large ids is not modelled.
- `Cursor.BytesToString`: a non-ASCII byte becomes U+FFFD. Multi-byte UTF-8 sequences are not reassembled, and cursors the server issues are ASCII.
- A client message always carries a sender id. The `new_message` of `start_conversation` carries only the username, so on the client its `sender.id` is undefined. The grouping rule is not modelled for that case.

## Findings

| source | as written | input that shows it | evidently intended | confidence | as-written member | corrected member |
|---|---|---|---|---|---|---|
| backend-messenger-socketio/src/message/message.service.ts:25 | the sender check compares each participant record's own id `p.id` with the sender's user id | users 1-4; conversation 1 (direct) with records 1 and 2; conversation 2 (group, created by user 2 with users 1 and 3) with records 3, 4 and 5. User 2 is refused in conversation 2, and user 4, a member of nothing, is admitted. | compare the record's `userId` with the sender's id, so that exactly members may post | high (not executed) | MessageService.SenderAllowedAsWritten, MessageService.MemberRefusedAsWritten, MessageService.StrangerAdmittedAsWritten, MessageService.RefusedStartKeepsConversation | MessageService.SenderAllowed, MessageService.SenderAllowedIffMember, MessageService.StartFailsWithoutInsert |
| frontend-messenger-socketio/components/chat-window.tsx:107-110 | `loadMessages` sets the header state from `response.data.isGroup` and `response.data.conversationParticipants`, which the page of `GET /message/:id/cursor` (message.service.ts:118-122) does not contain | any load of an open conversation: the state becomes two undefined fields, and `conversationInfo?.conversationParticipants.map(...)` at chat-window.tsx:226-228 throws | the page carries the conversation's group flag and participants, or the window reads them from elsewhere | high (not executed) | ChatWindow.ServerPageBreaksHeader | ChatWindow.PageWithHeaderShowsNames |
