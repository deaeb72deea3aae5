/** The administrator's dashboard: a list of registered users loaded on mount
    and sorted by name, a login log loaded each time the log view is shown and
    sorted newest first, a toggle between the two views, deletion of a user
    after confirmation, and logout. Server replies, the confirmation dialog
    and the name collation are inputs. */
module AdminDashboard {
  import opened Wrappers
  import opened JsonModel
  import opened LogOrder
  import Browser
  import Sequences
  import Sorting

  datatype ViewMode = UsersView | LogsView

  /** The updater `prevMode => (prevMode === 'users' ? 'logs' : 'users')`. */
  function Toggled(mode: ViewMode): (r: ViewMode)
    ensures r != mode
  {
    if mode == UsersView then LogsView else UsersView
  }

  lemma ToggleTwice(mode: ViewMode)
    ensures Toggled(Toggled(mode)) == mode
  {
  }

  /** A user as `/api/users` lists it: its name and its other fields. */
  datatype UserRow = UserRow(name: string, fields: Record)

  /** `users.sort((a, b) => a.name.localeCompare(b.name))`, with the collation
      given as a rank of each name. */
  function ByName(users: seq<UserRow>, rank: string -> int): (r: seq<UserRow>)
    ensures multiset(r) == multiset(users)
    ensures forall i, j :: 0 <= i < j < |r| ==> rank(r[i].name) <= rank(r[j].name)
  {
    var sorted := Sorting.SortBy(users, (u: UserRow) => rank(u.name));
    assert forall i, j :: 0 <= i < j < |sorted| ==> rank(sorted[i].name) <= rank(sorted[j].name);
    sorted
  }

  /** The updater `prevUsers.filter(user => user.name !== username)`. */
  function WithoutUser(users: seq<UserRow>, username: string): (r: seq<UserRow>)
    ensures |r| <= |users|
    // deleting a name no row has leaves the list as it was
    ensures (forall i :: 0 <= i < |users| ==> users[i].name != username) ==> r == users
  {
    var keep := (u: UserRow) => u.name != username;
    if forall i :: 0 <= i < |users| ==> users[i].name != username then
      Sequences.FilterAll(users, keep);
      Sequences.Filter(users, keep)
    else
      Sequences.Filter(users, keep)
  }

  /** After a delete no row has the name, every other row is still there, as
      often as before, and the order is kept. */
  lemma WithoutUserDropsExactlyTheName(users: seq<UserRow>, username: string)
    ensures forall u :: u in WithoutUser(users, username) ==> u in users && u.name != username
    ensures forall u: UserRow :: u.name != username ==>
      multiset(WithoutUser(users, username))[u] == multiset(users)[u]
    ensures Sequences.IsSubsequence(WithoutUser(users, username), users)
  {
    var keep := (u: UserRow) => u.name != username;
    var r := Sequences.Filter(users, keep);
    Sequences.FilterKeepsExactly(users, keep);
    forall u: UserRow | u.name != username
      ensures multiset(r)[u] == multiset(users)[u]
    {
      assert keep(u);
    }
  }

  class Dashboard {
    var viewMode: ViewMode
    var registeredUsers: seq<UserRow>
    var loginLogs: seq<LogRow>
    var isLoadingUsers: bool
    var isLoadingLogs: bool
    /** Requests sent: GET /users, GET /login-logs, DELETE /users/<name>. */
    var userFetches: nat
    var logFetches: nat
    var deleteRequests: seq<string>
    var navigations: seq<Browser.Route>

    /** The mounted dashboard: the user list is requested at once. */
    constructor ()
      ensures viewMode == UsersView && registeredUsers == [] && loginLogs == []
      ensures isLoadingUsers && !isLoadingLogs
      ensures userFetches == 1 && logFetches == 0
      ensures deleteRequests == [] && navigations == []
    {
      viewMode := UsersView;
      registeredUsers := [];
      loginLogs := [];
      isLoadingUsers := true;
      isLoadingLogs := false;
      userFetches := 1;
      logFetches := 0;
      deleteRequests := [];
      navigations := [];
    }

    /** The user request has answered with the listed users, or failed. */
    method UsersLoaded(response: Option<seq<UserRow>>, rank: string -> int)
      modifies this
      ensures !isLoadingUsers
      ensures response.Some? ==> registeredUsers == ByName(response.value, rank)
      ensures response.None? ==> registeredUsers == []
      ensures viewMode == old(viewMode) && loginLogs == old(loginLogs) && isLoadingLogs == old(isLoadingLogs)
      ensures userFetches == old(userFetches) && logFetches == old(logFetches)
      ensures deleteRequests == old(deleteRequests) && navigations == old(navigations)
    {
      if response.Some? {
        registeredUsers := ByName(response.value, rank);
      } else {
        registeredUsers := [];
      }
      isLoadingUsers := false;
    }

    /** `handleToggleView`, followed by the effect on `viewMode`, which
        requests the log whenever the new mode is the log view. */
    method ToggleView()
      modifies this
      ensures viewMode == Toggled(old(viewMode))
      ensures viewMode == LogsView ==> isLoadingLogs && logFetches == old(logFetches) + 1
      ensures viewMode == UsersView ==> isLoadingLogs == old(isLoadingLogs) && logFetches == old(logFetches)
      ensures registeredUsers == old(registeredUsers) && loginLogs == old(loginLogs)
      ensures isLoadingUsers == old(isLoadingUsers) && userFetches == old(userFetches)
      ensures deleteRequests == old(deleteRequests) && navigations == old(navigations)
    {
      viewMode := Toggled(viewMode);
      if viewMode == LogsView {
        isLoadingLogs := true;
        logFetches := logFetches + 1;
      }
    }

    /** The log request has answered with every entry, or failed. */
    method LogsLoaded(response: Option<seq<LogRow>>, parse: string -> int)
      modifies this
      ensures !isLoadingLogs
      ensures response.Some? ==> loginLogs == NewestFirst(response.value, parse)
      ensures response.None? ==> loginLogs == []
      ensures viewMode == old(viewMode) && registeredUsers == old(registeredUsers)
      ensures isLoadingUsers == old(isLoadingUsers)
      ensures userFetches == old(userFetches) && logFetches == old(logFetches)
      ensures deleteRequests == old(deleteRequests) && navigations == old(navigations)
    {
      if response.Some? {
        loginLogs := NewestFirst(response.value, parse);
      } else {
        loginLogs := [];
      }
      isLoadingLogs := false;
    }

    /** `handleDeleteUser`: `confirmed` is the answer to the confirmation
        dialog and `deleted` whether the DELETE request succeeded. */
    method DeleteUser(username: string, confirmed: bool, deleted: bool)
      modifies this
      ensures deleteRequests == if confirmed then old(deleteRequests) + [username] else old(deleteRequests)
      ensures registeredUsers ==
        if confirmed && deleted then WithoutUser(old(registeredUsers), username) else old(registeredUsers)
      ensures viewMode == old(viewMode) && loginLogs == old(loginLogs)
      ensures isLoadingUsers == old(isLoadingUsers) && isLoadingLogs == old(isLoadingLogs)
      ensures userFetches == old(userFetches) && logFetches == old(logFetches)
      ensures navigations == old(navigations)
    {
      if confirmed {
        deleteRequests := deleteRequests + [username];
        if deleted {
          registeredUsers := WithoutUser(registeredUsers, username);
        }
      }
    }

    /** `handleLogout`: forget the session and go home. */
    method Logout(storage: Browser.LocalStorage)
      modifies this, storage
      ensures storage.entries == old(storage.entries) - {Browser.AUTHENTICATED_USER, Browser.USER_ROLE}
      ensures navigations == old(navigations) + [Browser.HOME]
      ensures viewMode == old(viewMode) && registeredUsers == old(registeredUsers) && loginLogs == old(loginLogs)
      ensures isLoadingUsers == old(isLoadingUsers) && isLoadingLogs == old(isLoadingLogs)
      ensures userFetches == old(userFetches) && logFetches == old(logFetches)
      ensures deleteRequests == old(deleteRequests)
    {
      storage.entries := storage.entries - {Browser.AUTHENTICATED_USER, Browser.USER_ROLE};
      navigations := navigations + [Browser.HOME];
    }
  }
}
