/** The title the chat header shows for a conversation (`getConversationName` of the
    frontend's utilities): a group is named by its members' usernames, cut to a maximum
    length; a direct conversation by the other member. */
module ConversationNaming {

  import opened Wrappers
  import JsString

  const DefaultMaxLength := 30
  const GroupChat := "Group Chat"
  const DirectMessage := "Direct Message"
  const Ellipsis := "..."
  const NameSeparator := ", "

  /** A participant as the helper sees it: `{ username: string }`. */
  datatype Person = Person(username: string)

  function Usernames(ps: seq<Person>): (r: seq<string>)
    ensures |r| == |ps|
    ensures forall i :: 0 <= i < |ps| ==> r[i] == ps[i].username
  {
    if ps == [] then [] else [ps[0].username] + Usernames(ps[1..])
  }

  /** `participants.map(p => p.username).join(", ")`. */
  function GroupNames(ps: seq<Person>): string
  {
    JsString.Join(Usernames(ps), NameSeparator)
  }

  /** `currentUser?.username`: absent when there is no current user. */
  function CurrentName(currentUser: Option<Person>): Option<string>
  {
    if currentUser.Some? then Some(currentUser.value.username) else None
  }

  /** The position `participants.find(p => p.username !== currentUser?.username)` stops at.
      Without a current user every username differs from `undefined`. */
  function FirstOther(ps: seq<Person>, current: Option<string>): (r: Option<nat>)
    ensures r.Some? ==> r.value < |ps| && Some(ps[r.value].username) != current
    ensures r.Some? ==> forall j :: 0 <= j < r.value ==> Some(ps[j].username) == current
    ensures r.None? <==> forall j :: 0 <= j < |ps| ==> Some(ps[j].username) == current
  {
    if ps == [] then None
    else if Some(ps[0].username) != current then Some(0)
    else
      match FirstOther(ps[1..], current)
      case None => None
      case Some(k) => Some(k + 1)
  }

  /** The name of a direct conversation: the other member's username, unless there is none
      or it is empty (`other?.username || "Direct Message"`). */
  function DirectName(ps: seq<Person>, currentUser: Option<Person>): string
  {
    match FirstOther(ps, CurrentName(currentUser))
    case None => DirectMessage
    case Some(i) => if ps[i].username == "" then DirectMessage else ps[i].username
  }

  /** `getConversationName(isGroup, participants, currentUser, maxLength)`. */
  function ConversationName(isGroup: bool, ps: seq<Person>, currentUser: Option<Person>, maxLength: int): (r: string)
  {
    if isGroup then
      var names := GroupNames(ps);
      if |names| > maxLength then JsString.Prefix(names, maxLength) + Ellipsis
      else if names == "" then GroupChat
      else names
    else DirectName(ps, currentUser)
  }

  /** The call without `maxLength`, as the chat header makes it. */
  function HeaderTitle(isGroup: bool, ps: seq<Person>, currentUser: Option<Person>): (r: string)
    ensures isGroup && |GroupNames(ps)| > 30 ==> |r| == 33
    ensures isGroup && |GroupNames(ps)| <= 30 ==> r == GroupNames(ps) || r == GroupChat
  {
    ConversationName(isGroup, ps, currentUser, DefaultMaxLength)
  }

  /** A group whose joined names fit is titled by exactly those names, or "Group Chat" when
      they are empty. */
  lemma GroupNameFits(ps: seq<Person>, currentUser: Option<Person>, maxLength: int)
    requires |GroupNames(ps)| <= maxLength
    ensures GroupNames(ps) != "" ==> ConversationName(true, ps, currentUser, maxLength) == GroupNames(ps)
    ensures GroupNames(ps) == "" ==> ConversationName(true, ps, currentUser, maxLength) == GroupChat
  {
  }

  /** A group whose joined names are too long gets the first `maxLength` characters of them
      followed by "...": `maxLength + 3` characters. */
  lemma GroupNameCut(ps: seq<Person>, currentUser: Option<Person>, maxLength: int)
    requires 0 <= maxLength < |GroupNames(ps)|
    ensures var r := ConversationName(true, ps, currentUser, maxLength);
      |r| == maxLength + 3 && r[..maxLength] == GroupNames(ps)[..maxLength] && r[maxLength..] == Ellipsis
  {
  }

  /** A group title does not depend on who is looking at it. */
  lemma GroupNameIgnoresViewer(ps: seq<Person>, a: Option<Person>, b: Option<Person>, maxLength: int)
    ensures ConversationName(true, ps, a, maxLength) == ConversationName(true, ps, b, maxLength)
  {
  }

  /** A direct title is "Direct Message" or the username of a member other than the viewer,
      every member listed before that one being the viewer. */
  lemma DirectNameIsOtherMember(ps: seq<Person>, currentUser: Option<Person>, maxLength: int)
    ensures var r := ConversationName(false, ps, currentUser, maxLength);
      r == DirectMessage ||
      exists i :: 0 <= i < |ps| && r == ps[i].username && Some(r) != CurrentName(currentUser) &&
        forall j :: 0 <= j < i ==> Some(ps[j].username) == CurrentName(currentUser)
  {
    var r := ConversationName(false, ps, currentUser, maxLength);
    var k := FirstOther(ps, CurrentName(currentUser));
    if k.Some? && ps[k.value].username != "" {
      assert r == ps[k.value].username;
    }
  }

  /** Without a current user the direct title is the first member's username. */
  lemma DirectNameWithoutViewer(ps: seq<Person>, maxLength: int)
    requires ps != [] && ps[0].username != ""
    ensures ConversationName(false, ps, None, maxLength) == ps[0].username
  {
  }

  /** The combined length of the usernames. */
  function TotalLength(names: seq<string>): nat
  {
    if names == [] then 0 else |names[0]| + TotalLength(names[1..])
  }

  /** Joining puts one separator between neighbours, so the joined names of a non-empty
      group are the usernames' lengths plus two per gap. */
  lemma {:induction false} GroupNamesLength(ps: seq<Person>)
    requires ps != []
    ensures |GroupNames(ps)| == TotalLength(Usernames(ps)) + 2 * (|ps| - 1)
  {
    JoinLength(Usernames(ps), NameSeparator);
  }

  lemma {:induction false} JoinLength(parts: seq<string>, sep: string)
    requires parts != []
    ensures |JsString.Join(parts, sep)| == TotalLength(parts) + |sep| * (|parts| - 1)
  {
    if |parts| > 1 {
      JoinLength(parts[1..], sep);
    } else {
      assert parts[1..] == [];
    }
  }

  /** The joined names are empty exactly for a group with no members or one member with an
      empty username: two members always bring the separator. */
  lemma {:induction false} GroupNamesEmptyIff(ps: seq<Person>)
    ensures GroupNames(ps) == "" <==> ps == [] || (|ps| == 1 && ps[0].username == "")
  {
    if |ps| >= 2 {
      GroupNamesLength(ps);
    }
  }
}
