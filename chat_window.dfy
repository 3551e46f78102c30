/** The chat window of the browser client: the message list it keeps for the open
    conversation, the paging state, the composer, and the rules that group consecutive
    messages of one sender under one avatar and one time stamp. */
module ChatWindow {

  import opened Wrappers
  import JsString
  import ConversationNaming
  import ClientEmit

  /** A message as the client holds it; `createdAt` in milliseconds. */
  datatype ChatMessage = ChatMessage(id: nat, content: string, createdAt: int, senderId: nat, conversationId: nat)

  /** The header state: the group flag and the participant list, each `None` when the value
      it was set from was undefined. */
  datatype ConversationInfo = ConversationInfo(isGroup: Option<bool>, participants: Option<seq<ConversationNaming.Person>>)

  /** The body of a messages request as the client reads it: one page and the two fields the
      header reads from it, `None` where the body has no such field. */
  datatype MessagesResponse = MessagesResponse(
    messages: seq<ChatMessage>,
    hasMore: bool,
    nextCursor: Option<string>,
    isGroup: Option<bool>,
    participants: Option<seq<ConversationNaming.Person>>)

  /** The body the server sends for a page: `{ messages, hasMore, nextCursor }` only. */
  function ServerPage(messages: seq<ChatMessage>, hasMore: bool, nextCursor: Option<string>): MessagesResponse
  {
    MessagesResponse(messages, hasMore, nextCursor, None, None)
  }

  /** A page that also carries the conversation's group flag and participants. */
  function PageWithHeader(messages: seq<ChatMessage>, hasMore: bool, nextCursor: Option<string>,
                          isGroup: bool, participants: seq<ConversationNaming.Person>): MessagesResponse
  {
    MessagesResponse(messages, hasMore, nextCursor, Some(isGroup), Some(participants))
  }

  /** The header state `loadMessages` builds from a response. */
  function HeaderInfo(response: MessagesResponse): ConversationInfo
  {
    ConversationInfo(response.isGroup, response.participants)
  }

  const ReadMapOfUndefined := "TypeError: Cannot read properties of undefined (reading 'map')"

  /** The header's `title`, `conversationInfo?.conversationParticipants.map(p => p.username)
      .join(", ")`: undefined without header state, and a `TypeError` when the state has no
      participant list, since `?.` guards only the state itself. */
  function ParticipantsTooltip(info: Option<ConversationInfo>): (r: Result<Option<string>, string>)
    ensures r.Err? <==> info.Some? && info.value.participants.None?
    ensures r.Err? ==> r.error == ReadMapOfUndefined
    ensures info.None? ==> r == Ok(None)
    ensures r.Ok? && info.Some? ==> r.value == Some(ConversationNaming.GroupNames(info.value.participants.value))
  {
    if info.None? then Ok(None)
    else if info.value.participants.None? then Err(ReadMapOfUndefined)
    else Ok(Some(ConversationNaming.GroupNames(info.value.participants.value)))
  }

  /** As the code has it: loading the server's page leaves a header state with neither a group
      flag nor a participant list, and drawing the header's title then throws. */
  lemma ServerPageBreaksHeader(messages: seq<ChatMessage>, hasMore: bool, nextCursor: Option<string>)
    ensures var info := HeaderInfo(ServerPage(messages, hasMore, nextCursor));
      && info.isGroup.None? && info.participants.None?
      && ParticipantsTooltip(Some(info)) == Err(ReadMapOfUndefined)
  {
  }

  /** As intended: a page that carries the group flag and the participants gives the header
      both, and its title is the participants' names. */
  lemma PageWithHeaderShowsNames(messages: seq<ChatMessage>, hasMore: bool, nextCursor: Option<string>,
                                 isGroup: bool, participants: seq<ConversationNaming.Person>)
    ensures var info := HeaderInfo(PageWithHeader(messages, hasMore, nextCursor, isGroup, participants));
      && info == ConversationInfo(Some(isGroup), Some(participants))
      && ParticipantsTooltip(Some(info)) == Ok(Some(ConversationNaming.GroupNames(participants)))
  {
  }

  /** A gap longer than this between two messages of one sender starts a new time stamp. */
  const TimeGap := 300000

  /** `nextCursor` in a condition: null and the empty string are false. */
  predicate CursorPresent(cursor: Option<string>)
  {
    cursor.Some? && cursor.value != ""
  }

  // ---------------------------------------------------------------------------------------
  // Grouping of the rendered list

  /** The avatar is drawn on the first message and wherever the sender changes. */
  predicate ShowAvatar(ms: seq<ChatMessage>, i: nat)
    requires i < |ms|
  {
    i == 0 || ms[i - 1].senderId != ms[i].senderId
  }

  /** The time is drawn on the last message, before a change of sender, and before a gap of
      more than five minutes. */
  predicate ShowTime(ms: seq<ChatMessage>, i: nat)
    requires i < |ms|
  {
    i == |ms| - 1 || ms[i + 1].senderId != ms[i].senderId || ms[i + 1].createdAt - ms[i].createdAt > TimeGap
  }

  /** Every group that an avatar opens is closed by a time stamp on the message before it. */
  lemma NewSenderClosesGroup(ms: seq<ChatMessage>, i: nat)
    requires 0 < i < |ms| && ShowAvatar(ms, i)
    ensures ShowTime(ms, i - 1)
  {
  }

  /** Within one sender's run without gaps, only the first message has the avatar and only the
      last the time. */
  lemma RunShowsOnce(ms: seq<ChatMessage>, a: nat, b: nat)
    requires a <= b < |ms|
    requires a == 0 || ms[a - 1].senderId != ms[a].senderId
    requires b == |ms| - 1 || ms[b + 1].senderId != ms[b].senderId
    requires forall k :: a <= k < b ==> ms[k].senderId == ms[k + 1].senderId && ms[k + 1].createdAt - ms[k].createdAt <= TimeGap
    ensures forall k :: a <= k <= b ==> (ShowAvatar(ms, k) <==> k == a)
    ensures forall k :: a <= k <= b ==> (ShowTime(ms, k) <==> k == b)
  {
  }

  /** Loading an older page in front leaves the grouping of the list already shown as it was,
      except the avatar of its first message. */
  lemma PrependKeepsGrouping(older: seq<ChatMessage>, ms: seq<ChatMessage>, i: nat)
    requires i < |ms|
    ensures ShowTime(older + ms, |older| + i) == ShowTime(ms, i)
    ensures 0 < i ==> ShowAvatar(older + ms, |older| + i) == ShowAvatar(ms, i)
  {
    var all := older + ms;
    assert all[|older| + i] == ms[i];
    if 0 < i {
      assert all[|older| + i - 1] == ms[i - 1];
    }
    if i + 1 < |ms| {
      assert all[|older| + i + 1] == ms[i + 1];
    }
  }

  /** An arriving message leaves every avatar as it was, and every time stamp but the one of
      the previous last message. */
  lemma AppendKeepsGrouping(ms: seq<ChatMessage>, m: ChatMessage, i: nat)
    requires i < |ms|
    ensures ShowAvatar(ms + [m], i) == ShowAvatar(ms, i)
    ensures i + 1 < |ms| ==> ShowTime(ms + [m], i) == ShowTime(ms, i)
  {
    var all := ms + [m];
    assert all[i] == ms[i];
    if 0 < i {
      assert all[i - 1] == ms[i - 1];
    }
    if i + 1 < |ms| {
      assert all[i + 1] == ms[i + 1];
    }
  }

  // ---------------------------------------------------------------------------------------
  // The component state

  class Window {
    /** The conversation the window is opened on (null when none is selected). */
    const conversationId: Option<nat>
    var messages: seq<ChatMessage>
    var newMessage: string
    var isLoading: bool
    var hasMore: bool
    var nextCursor: Option<string>
    var isLoadingMore: bool
    var conversationInfo: Option<ConversationInfo>
    /** The ref that tells the scroll effect that older messages were put in front. */
    var loadingMoreRef: bool
    /** What the window has emitted on the socket, in order. */
    var emitted: seq<ClientEmit.Emit>

    constructor (conversationId: Option<nat>)
      ensures this.conversationId == conversationId
      ensures messages == [] && newMessage == "" && !isLoading && hasMore && nextCursor.None?
      ensures !isLoadingMore && conversationInfo.None? && !loadingMoreRef && emitted == []
    {
      this.conversationId := conversationId;
      messages, newMessage, isLoading, hasMore, nextCursor := [], "", false, true, None;
      isLoadingMore, conversationInfo, loadingMoreRef, emitted := false, None, false, [];
    }

    /** The `new_message` listener: a message of the open conversation is appended; any other
        leaves the list alone. */
    method OnNewMessage(m: ChatMessage)
      modifies this
      ensures conversationId == Some(m.conversationId) ==> messages == old(messages) + [m]
      ensures conversationId != Some(m.conversationId) ==> messages == old(messages)
      ensures newMessage == old(newMessage) && isLoading == old(isLoading) && hasMore == old(hasMore)
      ensures nextCursor == old(nextCursor) && isLoadingMore == old(isLoadingMore)
      ensures conversationInfo == old(conversationInfo) && loadingMoreRef == old(loadingMoreRef)
      ensures emitted == old(emitted)
    {
      if conversationId == Some(m.conversationId) {
        messages := messages + [m];
      }
    }

    /** The first half of `loadMessages`: without a conversation nothing happens; otherwise
        the window is marked loading and asks for the newest page of the conversation. */
    method BeginLoadMessages() returns (request: Option<nat>)
      modifies this
      ensures request == conversationId
      ensures isLoading == (old(isLoading) || conversationId.Some?)
      ensures messages == old(messages) && newMessage == old(newMessage) && hasMore == old(hasMore)
      ensures nextCursor == old(nextCursor) && isLoadingMore == old(isLoadingMore)
      ensures conversationInfo == old(conversationInfo) && loadingMoreRef == old(loadingMoreRef)
      ensures emitted == old(emitted)
    {
      if conversationId.None? {
        return None;
      }
      isLoading := true;
      request := conversationId;
    }

    /** The second half of `loadMessages`: a response replaces the list, the paging state and
        the header state, which holds whatever the response has for the two header fields; a
        failed request changes none of them. Loading ends either way. */
    method FinishLoadMessages(response: Option<MessagesResponse>)
      modifies this
      ensures response.Some? ==>
        && messages == response.value.messages && hasMore == response.value.hasMore
        && nextCursor == response.value.nextCursor && conversationInfo == Some(HeaderInfo(response.value))
      ensures response.None? ==>
        messages == old(messages) && hasMore == old(hasMore) && nextCursor == old(nextCursor) &&
        conversationInfo == old(conversationInfo)
      ensures !isLoading
      ensures newMessage == old(newMessage) && isLoadingMore == old(isLoadingMore)
      ensures loadingMoreRef == old(loadingMoreRef) && emitted == old(emitted)
    {
      if response.Some? {
        messages := response.value.messages;
        hasMore := response.value.hasMore;
        nextCursor := response.value.nextCursor;
        conversationInfo := Some(HeaderInfo(response.value));
      }
      isLoading := false;
    }

    /** The guard and first half of `loadMoreMessages`: nothing happens without a
        conversation, when there is nothing more, without a cursor, or while a load runs;
        otherwise the window is marked loading and asks for the page below the cursor. */
    method BeginLoadMore() returns (request: Option<(nat, string)>)
      modifies this
      ensures var refused := old(conversationId.None? || !hasMore || !CursorPresent(nextCursor) || isLoading);
        if refused then
          && request.None?
          && isLoading == old(isLoading) && isLoadingMore == old(isLoadingMore)
          && loadingMoreRef == old(loadingMoreRef)
        else
          && request == Some((conversationId.value, old(nextCursor.value)))
          && isLoading && isLoadingMore && loadingMoreRef
      ensures messages == old(messages) && newMessage == old(newMessage) && hasMore == old(hasMore)
      ensures nextCursor == old(nextCursor) && conversationInfo == old(conversationInfo)
      ensures emitted == old(emitted)
    {
      if conversationId.None? || !hasMore || !CursorPresent(nextCursor) || isLoading {
        return None;
      }
      isLoading := true;
      isLoadingMore := true;
      loadingMoreRef := true;
      request := Some((conversationId.value, nextCursor.value));
    }

    /** The second half of `loadMoreMessages`: the older page goes in front of the list, and
        the paging state is the response's; a failed request changes neither. Loading ends
        either way. */
    method FinishLoadMore(response: Option<MessagesResponse>)
      modifies this
      ensures response.Some? ==>
        && messages == response.value.messages + old(messages)
        && hasMore == response.value.hasMore && nextCursor == response.value.nextCursor
      ensures response.None? ==> messages == old(messages) && hasMore == old(hasMore) && nextCursor == old(nextCursor)
      ensures old(messages) == messages[|messages| - |old(messages)|..]
      ensures !isLoading && !isLoadingMore
      ensures newMessage == old(newMessage) && conversationInfo == old(conversationInfo)
      ensures loadingMoreRef == old(loadingMoreRef) && emitted == old(emitted)
    {
      if response.Some? {
        messages := response.value.messages + messages;
        hasMore := response.value.hasMore;
        nextCursor := response.value.nextCursor;
      }
      isLoading := false;
      isLoadingMore := false;
    }

    /** The effect that runs when the list changes: it scrolls to the bottom unless older
        messages were just put in front, and it resets that mark. */
    method MessagesChanged() returns (scroll: bool)
      modifies this
      ensures scroll == !old(loadingMoreRef) && !loadingMoreRef
      ensures messages == old(messages) && newMessage == old(newMessage) && isLoading == old(isLoading)
      ensures hasMore == old(hasMore) && nextCursor == old(nextCursor) && isLoadingMore == old(isLoadingMore)
      ensures conversationInfo == old(conversationInfo) && emitted == old(emitted)
    {
      if loadingMoreRef {
        loadingMoreRef := false;
        return false;
      }
      scroll := true;
    }

    /** `joinConversation`: asks the gateway to put this socket in the conversation's room. */
    method JoinConversation()
      modifies this
      ensures conversationId.None? ==> emitted == old(emitted)
      ensures conversationId.Some? ==> emitted == old(emitted) + [ClientEmit.JoinConversation(conversationId.value)]
      ensures messages == old(messages) && newMessage == old(newMessage) && isLoading == old(isLoading)
      ensures hasMore == old(hasMore) && nextCursor == old(nextCursor) && isLoadingMore == old(isLoadingMore)
      ensures conversationInfo == old(conversationInfo) && loadingMoreRef == old(loadingMoreRef)
    {
      if conversationId.Some? {
        emitted := emitted + [ClientEmit.JoinConversation(conversationId.value)];
      }
    }

    /** `sendMessage`: blank input or no conversation does nothing; otherwise the trimmed
        text goes out on the socket and the composer is cleared. */
    method SendMessage()
      modifies this
      ensures if old(conversationId.None? || JsString.Trim(newMessage) == "") then
          newMessage == old(newMessage) && emitted == old(emitted)
        else
          && newMessage == ""
          && emitted == old(emitted) + [ClientEmit.SendMessage(conversationId.value, JsString.Trim(old(newMessage)))]
      ensures messages == old(messages) && isLoading == old(isLoading) && hasMore == old(hasMore)
      ensures nextCursor == old(nextCursor) && isLoadingMore == old(isLoadingMore)
      ensures conversationInfo == old(conversationInfo) && loadingMoreRef == old(loadingMoreRef)
    {
      var content := JsString.Trim(newMessage);
      if conversationId.None? || content == "" {
        return;
      }
      emitted := emitted + [ClientEmit.SendMessage(conversationId.value, content)];
      newMessage := "";
    }

    /** `handleKeyPress`: Enter without Shift sends (and suppresses the newline); every other
        key leaves everything as it was. */
    method HandleKeyPress(key: string, shiftKey: bool) returns (preventDefault: bool)
      modifies this
      ensures preventDefault <==> key == "Enter" && !shiftKey
      ensures !preventDefault ==> newMessage == old(newMessage) && emitted == old(emitted)
      ensures preventDefault ==>
        if old(conversationId.None? || JsString.Trim(newMessage) == "") then
          newMessage == old(newMessage) && emitted == old(emitted)
        else
          && newMessage == ""
          && emitted == old(emitted) + [ClientEmit.SendMessage(conversationId.value, JsString.Trim(old(newMessage)))]
      ensures messages == old(messages) && isLoading == old(isLoading) && hasMore == old(hasMore)
      ensures nextCursor == old(nextCursor) && isLoadingMore == old(isLoadingMore)
      ensures conversationInfo == old(conversationInfo) && loadingMoreRef == old(loadingMoreRef)
    {
      preventDefault := key == "Enter" && !shiftKey;
      if preventDefault {
        SendMessage();
      }
    }
  }
}
