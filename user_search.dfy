/** The "new conversation" panel of the browser client: a user search by name, a selection
    of users without repeats, and the first message that starts the conversation. */
module UserSearch {

  import opened Wrappers
  import JsString
  import Sequences
  import UserService
  import ClientEmit

  /** A search shorter than this, after trimming, is not sent. */
  const MinQueryLength := 2

  /** No two selected users share an id. */
  predicate UniqueIds(us: seq<UserService.UserSummary>)
  {
    forall i, j :: 0 <= i < j < |us| ==> us[i].id != us[j].id
  }

  predicate HasId(us: seq<UserService.UserSummary>, id: nat)
  {
    exists u :: u in us && u.id == id
  }

  /** The selection after `addUser`: the user is appended unless one with its id is there. */
  function WithUser(selected: seq<UserService.UserSummary>, u: UserService.UserSummary): seq<UserService.UserSummary>
  {
    if HasId(selected, u.id) then selected else selected + [u]
  }

  /** The selection after `removeUser`: `filter(u => u.id !== userId)`. */
  function WithoutUser(selected: seq<UserService.UserSummary>, userId: nat): seq<UserService.UserSummary>
  {
    Sequences.Filter(selected, (u: UserService.UserSummary) => u.id != userId)
  }

  /** `selectedUsers.map(u => u.id)`. */
  function Ids(us: seq<UserService.UserSummary>): (r: seq<nat>)
    ensures |r| == |us|
    ensures forall i :: 0 <= i < |us| ==> r[i] == us[i].id
  {
    if us == [] then [] else [us[0].id] + Ids(us[1..])
  }

  /** Adding keeps the ids unique, puts the user in the selection and forgets nobody. */
  lemma WithUserKeepsUnique(selected: seq<UserService.UserSummary>, u: UserService.UserSummary)
    requires UniqueIds(selected)
    ensures UniqueIds(WithUser(selected, u))
    ensures HasId(WithUser(selected, u), u.id)
    ensures forall v :: v in selected ==> v in WithUser(selected, u)
  {
    if !HasId(selected, u.id) {
      var r := selected + [u];
      forall i, j | 0 <= i < j < |r| ensures r[i].id != r[j].id {
        if j == |selected| {
          assert r[i] in selected;
        }
      }
    }
  }

  /** Adding a user whose id is already selected changes nothing: adding is idempotent. */
  lemma WithUserIdempotent(selected: seq<UserService.UserSummary>, u: UserService.UserSummary)
    ensures WithUser(WithUser(selected, u), u) == WithUser(selected, u)
  {
    if !HasId(selected, u.id) {
      assert (selected + [u])[|selected|] == u;
    }
  }

  /** Removing leaves no user with the id and every other selected user, in order. */
  lemma WithoutUserSpec(selected: seq<UserService.UserSummary>, userId: nat)
    ensures !HasId(WithoutUser(selected, userId), userId)
    ensures forall v :: v in WithoutUser(selected, userId) <==> v in selected && v.id != userId
    ensures !HasId(selected, userId) ==> WithoutUser(selected, userId) == selected
  {
    if !HasId(selected, userId) {
      Sequences.FilterPrefix(selected, (u: UserService.UserSummary) => u.id != userId, |selected|);
      assert selected[..|selected|] == selected;
    }
  }

  /** Removing keeps the ids unique. */
  lemma {:induction false} WithoutUserKeepsUnique(selected: seq<UserService.UserSummary>, userId: nat)
    requires UniqueIds(selected)
    ensures UniqueIds(WithoutUser(selected, userId))
  {
    if selected != [] {
      var init := selected[..|selected| - 1];
      var last := selected[|selected| - 1];
      assert selected == init + [last];
      assert UniqueIds(init) by {
        forall i, j | 0 <= i < j < |init| ensures init[i].id != init[j].id {
          assert init[i] == selected[i] && init[j] == selected[j];
        }
      }
      WithoutUserKeepsUnique(init, userId);
      var rest := WithoutUser(init, userId);
      if last.id != userId {
        var r := rest + [last];
        assert WithoutUser(selected, userId) == r;
        forall i, j | 0 <= i < j < |r| ensures r[i].id != r[j].id {
          if j == |rest| {
            assert r[i] in init;
            var k :| 0 <= k < |init| && init[k] == r[i];
            assert selected[k] == r[i];
          } else {
            assert r[i] == rest[i] && r[j] == rest[j];
          }
        }
      }
    }
  }

  /** After adding a user, removing it gives the selection back when it was not there. */
  lemma RemoveUndoesAdd(selected: seq<UserService.UserSummary>, u: UserService.UserSummary)
    requires !HasId(selected, u.id)
    ensures WithoutUser(WithUser(selected, u), u.id) == selected
  {
    var keep := (v: UserService.UserSummary) => v.id != u.id;
    var r := selected + [u];
    assert r[..|r| - 1] == selected;
    WithoutUserSpec(selected, u.id);
    assert Sequences.Filter(r, keep) == Sequences.Filter(selected, keep);
  }

  /** The phrase a query is searched for: the query trimmed, when that keeps at least two
      characters. */
  function SearchPhrase(query: string): (r: Option<string>)
    ensures r.Some? <==> |JsString.Trim(query)| >= MinQueryLength
    ensures r.Some? ==> r.value == JsString.Trim(query)
  {
    var phrase := JsString.Trim(query);
    if |phrase| < MinQueryLength then None else Some(phrase)
  }

  /** Padding never turns a short query into a search, nor changes the phrase of a long one. */
  lemma SearchPhraseIgnoresPadding(query: string, pad: string)
    requires JsString.AllWhitespace(pad)
    ensures SearchPhrase(pad + query + pad) == SearchPhrase(query)
  {
    JsString.TrimPadded(query, pad);
  }

  class Panel {
    var query: string
    var users: seq<UserService.UserSummary>
    var selectedUsers: seq<UserService.UserSummary>
    var message: string
    var isLoading: bool
    /** Whether `onClose` was called. */
    var closed: bool
    /** What the panel has emitted on the socket, in order. */
    var emitted: seq<ClientEmit.Emit>

    ghost predicate Valid()
      reads this
    {
      UniqueIds(selectedUsers)
    }

    constructor ()
      ensures Valid()
      ensures query == "" && users == [] && selectedUsers == [] && message == ""
      ensures !isLoading && !closed && emitted == []
    {
      query, users, selectedUsers, message := "", [], [], "";
      isLoading, closed, emitted := false, false, [];
    }

    /** The search effect once the debounce has fired: a trimmed query shorter than two
        characters clears the results and sends nothing; otherwise the panel is marked
        loading and asks for the trimmed query. */
    method SearchEffect() returns (request: Option<string>)
      requires Valid()
      modifies this
      ensures Valid()
      ensures request == SearchPhrase(query)
      ensures request.None? ==> users == [] && isLoading == old(isLoading)
      ensures request.Some? ==> users == old(users) && isLoading
      ensures query == old(query) && selectedUsers == old(selectedUsers) && message == old(message)
      ensures closed == old(closed) && emitted == old(emitted)
    {
      request := SearchPhrase(query);
      if request.None? {
        users := [];
        return;
      }
      isLoading := true;
    }

    /** The end of the search: the results are the response, or none when the request
        failed; loading ends. */
    method SearchDone(response: Option<seq<UserService.UserSummary>>)
      requires Valid()
      modifies this
      ensures Valid()
      ensures users == (if response.Some? then response.value else [])
      ensures !isLoading
      ensures query == old(query) && selectedUsers == old(selectedUsers) && message == old(message)
      ensures closed == old(closed) && emitted == old(emitted)
    {
      users := if response.Some? then response.value else [];
      isLoading := false;
    }

    /** `addUser`: the user joins the selection unless its id is already there; the query
        and the results are cleared either way. */
    method AddUser(u: UserService.UserSummary)
      requires Valid()
      modifies this
      ensures Valid()
      ensures selectedUsers == WithUser(old(selectedUsers), u)
      ensures query == "" && users == []
      ensures message == old(message) && isLoading == old(isLoading) && closed == old(closed)
      ensures emitted == old(emitted)
    {
      WithUserKeepsUnique(selectedUsers, u);
      if !HasId(selectedUsers, u.id) {
        selectedUsers := selectedUsers + [u];
      }
      query := "";
      users := [];
    }

    /** `removeUser`: every selected user with the id leaves the selection. */
    method RemoveUser(userId: nat)
      requires Valid()
      modifies this
      ensures Valid()
      ensures selectedUsers == WithoutUser(old(selectedUsers), userId)
      ensures query == old(query) && users == old(users) && message == old(message)
      ensures isLoading == old(isLoading) && closed == old(closed) && emitted == old(emitted)
    {
      WithoutUserKeepsUnique(selectedUsers, userId);
      selectedUsers := WithoutUser(selectedUsers, userId);
    }

    /** `startConversation`: nothing happens without a selection or with a blank message;
        otherwise the selected ids, in selection order, and the trimmed message go out on the
        socket, the selection and the message are cleared and the panel closes. */
    method StartConversation()
      requires Valid()
      modifies this
      ensures Valid()
      ensures if old(selectedUsers == [] || JsString.Trim(message) == "") then
          && selectedUsers == old(selectedUsers) && message == old(message)
          && closed == old(closed) && emitted == old(emitted)
        else
          && emitted == old(emitted) + [ClientEmit.StartConversation(Ids(old(selectedUsers)), JsString.Trim(old(message)))]
          && selectedUsers == [] && message == "" && closed
      ensures query == old(query) && users == old(users) && isLoading == old(isLoading)
    {
      var content := JsString.Trim(message);
      if |selectedUsers| == 0 || content == "" {
        return;
      }
      var participantIds := Ids(selectedUsers);
      emitted := emitted + [ClientEmit.StartConversation(participantIds, content)];
      selectedUsers := [];
      message := "";
      closed := true;
    }
  }

  /** The ids a panel sends are distinct. */
  lemma SentIdsDistinct(us: seq<UserService.UserSummary>)
    requires UniqueIds(us)
    ensures forall i, j :: 0 <= i < j < |Ids(us)| ==> Ids(us)[i] != Ids(us)[j]
  {
  }
}
