/** What the client components share with the browser: `localStorage` (a
    string-to-string map) and the router's navigation requests. */
module Browser {
  import opened Wrappers

  class LocalStorage {
    var entries: map<string, string>

    constructor (entries: map<string, string>)
      ensures this.entries == entries
    {
      this.entries := entries;
    }
  }

  /** `navigate(path, { state })`; the only state passed is the delete intent. */
  datatype Route = Route(path: string, state: Option<DeleteIntent>)

  /** `{ action: 'delete', username }`. */
  datatype DeleteIntent = DeleteIntent(username: string)

  const HOME: Route := Route("/", None)

  /** The storage keys that hold the session. */
  const AUTHENTICATED_USER: string := "authenticatedUser"
  const USER_ROLE: string := "userRole"

  /** `localStorage.getItem(key)`: the string, or null. */
  function GetItem(entries: map<string, string>, key: string): (v: Option<string>)
    ensures v.Some? <==> key in entries
    ensures v.Some? ==> v.value == entries[key]
  {
    if key in entries then Some(entries[key]) else None
  }
}
