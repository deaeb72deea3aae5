/** The two JSON files of the back end (the user store and the login log)
    and the `load_data` helper that reads them. Writing a file is an
    assignment of its new content: `save_data` swallows write errors, so a
    handler reports success whatever the disk does. */
module DataStorage {
  import opened Wrappers
  import opened JsonModel

  /** What a file holds: nothing (absent), text that is not JSON, or a JSON value. */
  datatype FileContent = Missing | Corrupt | Parsed(value: Json)

  /** `load_data`: the parsed content, or `[]` when the file is absent or not JSON. */
  function LoadData(f: FileContent): (v: Json)
    ensures f.Parsed? ==> v == f.value
    ensures !f.Parsed? ==> v == JArr([])
  {
    if f.Parsed? then f.value else JArr([])
  }

  /** The elements a Python `for` loop visits in a loaded value, as far as the
      handlers that loop over stored users can use them. A list yields its
      items. An empty dict or string yields nothing. A non-empty dict or
      string yields strings, on which every such handler raises, and any
      other value is not iterable: both are `None`, "the loop raises". */
  function ListItems(v: Json): (r: Option<seq<Json>>)
    ensures v.JArr? ==> r == Some(v.items)
    ensures r.Some? && !v.JArr? ==> r.value == []
    ensures r.None? <==>
      || (v.JObj? && v.fields != map[])
      || (v.JStr? && v.s != "")
      || v.JNull? || v.JBool? || v.JNum?
  {
    match v
    case JArr(items) => Some(items)
    case JObj(m) => if m == map[] then Some([]) else None
    case JStr(s) => if s == "" then Some([]) else None
    case _ => None
  }

  /** The files on disk, shared by every request handler. */
  class DataFiles {
    var users: FileContent  // DATA_FILE, the registered users
    var logs: FileContent   // LOG_FILE, the login log

    constructor (users: FileContent, logs: FileContent)
      ensures this.users == users && this.logs == logs
    {
      this.users := users;
      this.logs := logs;
    }
  }
}
