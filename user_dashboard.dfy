/** The signed-in user's dashboard: on mount it reads the session from local
    storage and either sends the visitor home or requests that user's login
    history, which it shows newest first; it also logs out and asks for
    account deletion by sending the user to the authentication page with a
    delete intent. Server replies and date parsing are inputs. */
module UserDashboard {
  import opened Wrappers
  import opened LogOrder
  import Browser

  /** `!storedUserName`: no entry, or an empty one. */
  predicate NoSession(stored: Option<string>) {
    stored.None? || stored.value == ""
  }

  /** The page `handleDeleteAccountRequest` opens, carrying the delete intent. */
  const AUTHENTICATE_PATH: string := "/authenticate"

  class Dashboard {
    var userName: string
    var loginLogs: seq<LogRow>
    var isLoading: bool
    /** The username of every GET /login-logs sent. */
    var logQueries: seq<string>
    var navigations: seq<Browser.Route>

    /** Mounting the page runs the session guard and, past it, the log request. */
    constructor (storage: Browser.LocalStorage)
      ensures isLoading && loginLogs == []
      ensures NoSession(Browser.GetItem(storage.entries, Browser.AUTHENTICATED_USER)) ==>
        && navigations == [Browser.HOME] && logQueries == [] && userName == ""
      ensures !NoSession(Browser.GetItem(storage.entries, Browser.AUTHENTICATED_USER)) ==>
        && navigations == []
        && userName == storage.entries[Browser.AUTHENTICATED_USER]
        && logQueries == [userName]
    {
      userName := "";
      loginLogs := [];
      isLoading := true;
      logQueries := [];
      navigations := [];
      var stored := Browser.GetItem(storage.entries, Browser.AUTHENTICATED_USER);
      if NoSession(stored) {
        navigations := [Browser.HOME];
      } else {
        userName := stored.value;
        logQueries := [stored.value];
      }
    }

    /** The history request has answered with the user's entries, or failed. */
    method LogsLoaded(response: Option<seq<LogRow>>, parse: string -> int)
      requires logQueries != []
      modifies this
      ensures !isLoading
      ensures response.Some? ==> loginLogs == NewestFirst(response.value, parse)
      ensures response.None? ==> loginLogs == []
      ensures userName == old(userName) && logQueries == old(logQueries) && navigations == old(navigations)
    {
      if response.Some? {
        loginLogs := NewestFirst(response.value, parse);
      } else {
        loginLogs := [];
      }
      isLoading := false;
    }

    /** `handleLogout`: forget the session and go home. */
    method Logout(storage: Browser.LocalStorage)
      modifies this, storage
      ensures storage.entries == old(storage.entries) - {Browser.AUTHENTICATED_USER, Browser.USER_ROLE}
      ensures Browser.GetItem(storage.entries, Browser.AUTHENTICATED_USER).None?
      ensures navigations == old(navigations) + [Browser.HOME]
      ensures userName == old(userName) && loginLogs == old(loginLogs) && isLoading == old(isLoading)
      ensures logQueries == old(logQueries)
    {
      storage.entries := storage.entries - {Browser.AUTHENTICATED_USER, Browser.USER_ROLE};
      navigations := navigations + [Browser.HOME];
    }

    /** `handleDeleteAccountRequest`: re-authenticate before deleting this account. */
    method DeleteAccountRequest()
      modifies this
      ensures navigations ==
        old(navigations) + [Browser.Route(AUTHENTICATE_PATH, Some(Browser.DeleteIntent(userName)))]
      ensures userName == old(userName) && loginLogs == old(loginLogs) && isLoading == old(isLoading)
      ensures logQueries == old(logQueries)
    {
      navigations := navigations + [Browser.Route(AUTHENTICATE_PATH, Some(Browser.DeleteIntent(userName)))];
    }
  }

  /** After logging out, mounting the dashboard again sends the visitor home
      without asking for any history. */
  method LogoutThenRemount(storage: Browser.LocalStorage) returns (page: Dashboard)
    modifies storage
    ensures page.navigations == [Browser.HOME] && page.logQueries == []
  {
    var before := new Dashboard(storage);
    before.Logout(storage);
    page := new Dashboard(storage);
  }
}
