/** The user table service: lookups, the search used to start conversations, and the insert
    performed at registration. */
module UserService {

  import opened Wrappers
  import opened JsString
  import opened Store
  import Sequences

  /** The columns `getUserById` selects: the password is not among them. */
  datatype PublicUser = PublicUser(id: nat, username: string, email: string, createdAt: int)

  /** The columns `searchUsers` selects. */
  datatype UserSummary = UserSummary(id: nat, username: string, email: string)

  function Public(u: User): PublicUser
  {
    PublicUser(u.id, u.username, u.email, u.createdAt)
  }

  /** `getUserById`: the user with that id without its password, or none. */
  function GetUserById(us: seq<User>, id: nat): (r: Option<PublicUser>)
    ensures r.None? <==> id !in UserIds(us)
    ensures r.Some? ==> exists u :: u in us && u.id == id && r.value == Public(u)
  {
    match FindUser(us, id)
    case None => None
    case Some(u) => Some(Public(u))
  }

  /** The search filter: the phrase occurs in the username or the email, ignoring case, and
      the user is not the one searching. */
  predicate Matches(u: User, phrase: string, requestingUserId: nat)
  {
    (ContainsInsensitive(u.username, phrase) || ContainsInsensitive(u.email, phrase)) &&
    u.id != requestingUserId
  }

  /** All matching users in row order, before `take`. */
  function MatchingUsers(us: seq<User>, phrase: string, requestingUserId: nat): (r: seq<UserSummary>)
    ensures |r| <= |us|
    ensures forall s :: s in r <==> exists u :: u in us && Matches(u, phrase, requestingUserId) && s == Summary(u)
  {
    if us == [] then []
    else
      var last := us[|us| - 1];
      assert us == us[..|us| - 1] + [last];
      MatchingUsers(us[..|us| - 1], phrase, requestingUserId) +
        (if Matches(last, phrase, requestingUserId) then [Summary(last)] else [])
  }

  function Summary(u: User): UserSummary
  {
    UserSummary(u.id, u.username, u.email)
  }

  /** The result cap of `searchUsers`. */
  const SearchLimit := 10

  /** `searchUsers`: the first ten matching users. */
  function SearchUsers(us: seq<User>, phrase: string, requestingUserId: nat): (r: seq<UserSummary>)
    ensures |r| <= SearchLimit
    ensures r <= MatchingUsers(us, phrase, requestingUserId)
    ensures |r| == SearchLimit || r == MatchingUsers(us, phrase, requestingUserId)
  {
    var all := MatchingUsers(us, phrase, requestingUserId);
    if |all| <= SearchLimit then all else all[..SearchLimit]
  }

  /** Every search result is a user other than the one searching whose username or email
      contains the phrase, ignoring case. */
  lemma SearchResultsMatch(us: seq<User>, phrase: string, requestingUserId: nat, s: UserSummary)
    requires s in SearchUsers(us, phrase, requestingUserId)
    ensures s.id != requestingUserId
    ensures ContainsInsensitive(s.username, phrase) || ContainsInsensitive(s.email, phrase)
  {
    assert s in MatchingUsers(us, phrase, requestingUserId);
  }

  /** `getUserByEmailOrUsername`: the first user whose email or username is exactly equal. */
  function GetUserByEmailOrUsername(us: seq<User>, email: string, username: string): (r: Option<User>)
    ensures r.Some? ==> r.value in us && (r.value.email == email || r.value.username == username)
    ensures r.None? <==> forall u :: u in us ==> u.email != email && u.username != username
  {
    if us == [] then None
    else if us[0].email == email || us[0].username == username then Some(us[0])
    else
      var r := GetUserByEmailOrUsername(us[1..], email, username);
      assert us == [us[0]] + us[1..];
      r
  }

  /** `saveUser`: inserts one user with the given email, username and (already hashed)
      password, and returns the new row. */
  method SaveUser(db: Database, email: string, username: string, password: string, now: int) returns (u: User)
    requires db.Valid()
    modifies db
    ensures db.Valid()
    ensures u == User(old(db.nextUserId), email, username, password, now)
    ensures db.tables == old(db.tables).(users := old(db.tables.users) + [u])
    ensures db.nextUserId == old(db.nextUserId) + 1
    ensures db.nextConversationId == old(db.nextConversationId)
    ensures db.nextParticipantId == old(db.nextParticipantId)
    ensures db.nextMessageId == old(db.nextMessageId)
  {
    u := User(db.nextUserId, email, username, password, now);
    assert UserIds(db.tables.users + [u]) == UserIds(db.tables.users) + {u.id};
    Sequences.AscendingAppend(db.tables.users, u, UserId);
    db.tables := db.tables.(users := db.tables.users + [u]);
    db.nextUserId := db.nextUserId + 1;
  }
}
