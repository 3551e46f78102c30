/** The sidebar's row labels (`getConversationName` and `getLastMessagePreview` of the
    conversation list), computed from a directory entry as the server sends it. */
module ConversationList {

  import opened Wrappers
  import JsString
  import ParticipantService
  import ConversationNaming

  const NoMessagesYet := "No messages yet"
  const PreviewLength := 50

  function People(ps: seq<ParticipantService.ParticipantName>): (r: seq<ConversationNaming.Person>)
    ensures |r| == |ps|
    ensures forall i :: 0 <= i < |ps| ==> r[i].username == ps[i].username
  {
    if ps == [] then [] else [ConversationNaming.Person(ps[0].username)] + People(ps[1..])
  }

  /** The row title: a group's usernames joined by ", " in full, or "Group Chat" when that is
      empty; for a direct conversation the first username differing from the viewer's, or
      "Direct Message". */
  function RowName(entry: ParticipantService.DirectoryEntry, currentUser: Option<ConversationNaming.Person>): string
  {
    var ps := People(entry.participants);
    if entry.isGroup then
      var names := ConversationNaming.GroupNames(ps);
      if names == "" then ConversationNaming.GroupChat else names
    else ConversationNaming.DirectName(ps, currentUser)
  }

  /** The row title is the header title with a limit the joined names never exceed: the
      sidebar never cuts a group's names. */
  lemma RowNameIsUncutTitle(entry: ParticipantService.DirectoryEntry, currentUser: Option<ConversationNaming.Person>,
                            maxLength: int)
    requires maxLength >= |ConversationNaming.GroupNames(People(entry.participants))|
    ensures RowName(entry, currentUser) ==
      ConversationNaming.ConversationName(entry.isGroup, People(entry.participants), currentUser, maxLength)
  {
  }

  /** A long group name differs between the sidebar and the header. */
  lemma RowNameLongerThanHeader(entry: ParticipantService.DirectoryEntry, currentUser: Option<ConversationNaming.Person>)
    requires entry.isGroup
    requires |ConversationNaming.GroupNames(People(entry.participants))| > ConversationNaming.DefaultMaxLength + 3
    ensures |RowName(entry, currentUser)| > |ConversationNaming.HeaderTitle(true, People(entry.participants), currentUser)|
  {
  }

  /** The preview of the newest message: "No messages yet" without one, the content itself
      up to 50 characters, else its first 50 characters and "...". */
  function LastMessagePreview(entry: ParticipantService.DirectoryEntry): (r: string)
    ensures entry.message.None? ==> r == NoMessagesYet
    ensures entry.message.Some? && |entry.message.value.content| <= PreviewLength ==> r == entry.message.value.content
    ensures entry.message.Some? && |entry.message.value.content| > PreviewLength ==>
      |r| == PreviewLength + 3 && r[..PreviewLength] == entry.message.value.content[..PreviewLength] &&
      r[PreviewLength..] == ConversationNaming.Ellipsis
  {
    match entry.message
    case None => NoMessagesYet
    case Some(m) =>
      if |m.content| > PreviewLength then JsString.Prefix(m.content, PreviewLength) + ConversationNaming.Ellipsis
      else m.content
  }

  /** A preview never runs past 53 characters and always begins like the message, as far as
      the message goes. */
  lemma PreviewStartsLikeMessage(entry: ParticipantService.DirectoryEntry)
    requires entry.message.Some?
    ensures var c := entry.message.value.content; var r := LastMessagePreview(entry);
      |r| <= PreviewLength + 3 && (if |c| <= PreviewLength then r == c else c[..PreviewLength] <= r)
  {
  }
}
