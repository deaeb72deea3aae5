/** The REST routes of the back end over the two data files: record a login,
    list users without their embeddings, query the login log, delete users. */
module ApiRoutes {
  import opened Wrappers
  import opened JsonModel
  import opened DataStorage
  import Sequences

  /** An HTTP reply: status code and JSON body. */
  datatype Response = Response(status: nat, body: Json)

  /** Flask's own reply when a handler raises outside its `try`. */
  const INTERNAL_SERVER_ERROR: Response := Response(500, JStr("Internal Server Error"))

  const EMBEDDING_KEY: string := "embedding"

  /** The JSON list of a parsed file, `[]` otherwise: how `record_login_log`
      reads the log before appending. */
  function StoredLogs(f: FileContent): (logs: seq<Json>)
    ensures f.Parsed? && f.value.JArr? ==> logs == f.value.items
    ensures !(f.Parsed? && f.value.JArr?) ==> logs == []
  {
    if f.Parsed? && f.value.JArr? then f.value.items else []
  }

  /** The log entry `{name, date, time}` a valid request produces. */
  function LogEntry(username: Json, date: Json, time: Json): (e: Json)
    ensures e.JObj? && e.fields.Keys == {"name", "date", "time"}
  {
    JObj(map["name" := username, "date" := date, "time" := time])
  }

  predicate IsCompleteLogRequest(body: Record) {
    Truthy(Get(body, "username")) && Truthy(Get(body, "date")) && Truthy(Get(body, "time"))
  }

  /** POST /api/log-login. */
  method RecordLoginLog(files: DataFiles, body: Json) returns (resp: Response)
    modifies files
    ensures files.users == old(files.users)
    ensures !body.JObj? ==> resp == INTERNAL_SERVER_ERROR && files.logs == old(files.logs)
    ensures body.JObj? && !IsCompleteLogRequest(body.fields) ==>
      resp == Response(400, Message("error", "Username, date, and time are required"))
      && files.logs == old(files.logs)
    ensures body.JObj? && IsCompleteLogRequest(body.fields) ==>
      && resp == Response(201, Message("message", "Login logged successfully"))
      && files.logs == Parsed(JArr(StoredLogs(old(files.logs)) +
           [LogEntry(body.fields["username"], body.fields["date"], body.fields["time"])]))
  {
    if !body.JObj? {
      // `data.get` on a non-object raises before the handler's `try`
      return INTERNAL_SERVER_ERROR;
    }
    var username := Get(body.fields, "username");
    var date := Get(body.fields, "date");
    var time := Get(body.fields, "time");
    if !Truthy(username) || !Truthy(date) || !Truthy(time) {
      return Response(400, Message("error", "Username, date, and time are required"));
    }
    var entry := LogEntry(username, date, time);
    var logs: seq<Json>;
    if files.logs.Missing? {
      logs := [];
    } else {
      var loaded := LoadData(files.logs);
      logs := if loaded.JArr? then loaded.items else [];
    }
    logs := logs + [entry];
    files.logs := Parsed(JArr(logs));
    resp := Response(201, Message("message", "Login logged successfully"));
  }

  /** Appending a valid entry keeps the earlier entries and adds one at the end. */
  lemma AppendedLogExtends(before: FileContent, entry: Json)
    ensures var after := StoredLogs(Parsed(JArr(StoredLogs(before) + [entry])));
      |after| == |StoredLogs(before)| + 1
      && after[..|StoredLogs(before)|] == StoredLogs(before)
      && after[|after| - 1] == entry
  {
    var logs := StoredLogs(before);
    assert (logs + [entry])[..|logs|] == logs;
  }

  /** A user record with its `embedding` key removed and every other key kept. */
  function Public(user: Record): (p: Record)
    ensures EMBEDDING_KEY !in p
    ensures forall k :: k != EMBEDDING_KEY ==> (k in p <==> k in user)
    ensures forall k :: k in p ==> p[k] == user[k]
  {
    user - {EMBEDDING_KEY}
  }

  /** GET /api/users: every stored user, in order, without its embedding. */
  function GetAllUsers(users: FileContent): (resp: Response)
    ensures resp.status == 200 || resp == Response(500, Message("error", "Failed to fetch users"))
    ensures resp.status == 200 <==>
      && ListItems(LoadData(users)).Some?
      && forall i :: 0 <= i < |ListItems(LoadData(users)).value| ==> ListItems(LoadData(users)).value[i].JObj?
    ensures resp.status == 200 ==>
      var items := ListItems(LoadData(users)).value;
      && resp.body.JArr? && |resp.body.items| == |items|
      && forall i :: 0 <= i < |items| ==> resp.body.items[i] == JObj(Public(items[i].fields))
  {
    match ListItems(LoadData(users))
    case None => Response(500, Message("error", "Failed to fetch users"))
    case Some(items) =>
      if forall i :: 0 <= i < |items| ==> items[i].JObj? then
        Response(200, JArr(seq(|items|, i requires 0 <= i < |items| => JObj(Public(items[i].fields)))))
      else
        Response(500, Message("error", "Failed to fetch users"))
  }

  /** A stored record whose `name` is the string `name` (`user.get('name') == name`). */
  predicate HasName(record: Json, name: string) {
    record.JObj? && Get(record.fields, "name") == JStr(name)
  }

  /** GET /api/login-logs[?username=...]. */
  function GetLoginLogs(logs: FileContent, username: Option<string>): (resp: Response)
    ensures resp.status == 200 || resp == Response(500, Message("error", "Failed to fetch login logs"))
    ensures !(logs.Parsed? && logs.value.JArr?) ==> resp == Response(200, JArr([]))
    ensures logs.Parsed? && logs.value.JArr? && (username.None? || username.value == "") ==>
      resp == Response(200, logs.value)
    ensures logs.Parsed? && logs.value.JArr? && username.Some? && username.value != "" ==>
      var items := logs.value.items;
      if forall i :: 0 <= i < |items| ==> items[i].JObj? then
        resp == Response(200, JArr(Sequences.Filter(items, (e: Json) => HasName(e, username.value))))
      else resp.status == 500
  {
    if logs.Missing? then Response(200, JArr([]))
    else
      var loaded := LoadData(logs);
      if !loaded.JArr? then Response(200, JArr([]))
      else if username.Some? && username.value != "" then
        if forall i :: 0 <= i < |loaded.items| ==> loaded.items[i].JObj? then
          Response(200, JArr(Sequences.Filter(loaded.items, (e: Json) => HasName(e, username.value))))
        else
          // `log.get` on an entry that is not an object raises
          Response(500, Message("error", "Failed to fetch login logs"))
      else Response(200, loaded)
  }

  /** A user's log query returns exactly that user's entries, each as often
      as stored and in stored order. */
  lemma FilteredLogsAreTheUsers(logs: seq<Json>, name: string)
    requires forall i :: 0 <= i < |logs| ==> logs[i].JObj?
    requires name != ""
    ensures GetLoginLogs(Parsed(JArr(logs)), Some(name)).status == 200
    ensures var r := GetLoginLogs(Parsed(JArr(logs)), Some(name)).body.items;
      && (forall e :: e in r ==> HasName(e, name))
      && (forall e :: HasName(e, name) ==> multiset(r)[e] == multiset(logs)[e])
      && Sequences.IsSubsequence(r, logs)
  {
    var keep := (e: Json) => HasName(e, name);
    var r := Sequences.Filter(logs, keep);
    Sequences.FilterKeepsExactly(logs, keep);
    assert GetLoginLogs(Parsed(JArr(logs)), Some(name)) == Response(200, JArr(r));
    forall e | HasName(e, name)
      ensures multiset(r)[e] == multiset(logs)[e]
    {
      assert keep(e);
    }
  }

  /** Querying a name that no entry has gives an empty history, not an error. */
  lemma UnknownNameHasNoLogs(logs: seq<Json>, name: string)
    requires forall i :: 0 <= i < |logs| ==> logs[i].JObj? && !HasName(logs[i], name)
    requires name != ""
    ensures GetLoginLogs(Parsed(JArr(logs)), Some(name)) == Response(200, JArr([]))
  {
    Sequences.FilterNone(logs, (e: Json) => HasName(e, name));
  }

  /** The users a delete keeps: those whose name is not `username`, in order
      (defined from the back, the way the loop builds it). */
  function Survivors(users: seq<Json>, username: string): (kept: seq<Json>)
    ensures |kept| <= |users|
    ensures forall i :: 0 <= i < |kept| ==> !HasName(kept[i], username)
    decreases |users|
  {
    if |users| == 0 then []
    else
      var last := users[|users| - 1];
      Survivors(users[..|users| - 1], username) + (if HasName(last, username) then [] else [last])
  }

  /** The loop of `delete_user_by_admin`: the users whose name differs, in
      order, and whether any user had the name. `None` when an element is not
      an object, on which `user.get` raises. */
  method RemoveNamed(users: seq<Json>, username: string) returns (outcome: Option<(seq<Json>, bool)>)
    ensures outcome.None? <==> exists i :: 0 <= i < |users| && !users[i].JObj?
    ensures outcome.Some? ==>
      && outcome.value.0 == Survivors(users, username)
      && (outcome.value.1 <==> exists i :: 0 <= i < |users| && HasName(users[i], username))
  {
    var updated: seq<Json> := [];
    var found := false;
    var i := 0;
    while i < |users|
      invariant 0 <= i <= |users|
      invariant forall j :: 0 <= j < i ==> users[j].JObj?
      invariant updated == Survivors(users[..i], username)
      invariant found <==> exists j :: 0 <= j < i && HasName(users[j], username)
    {
      var user := users[i];
      if !user.JObj? {
        return None;
      }
      assert users[..i + 1][..i] == users[..i];
      if HasName(user, username) {
        found := true;
      } else {
        updated := updated + [user];
      }
      i := i + 1;
    }
    assert users[..i] == users;
    return Some((updated, found));
  }

  /** The survivors are the order-preserving filter of the users. */
  lemma {:induction false} SurvivorsAreFiltered(users: seq<Json>, username: string)
    ensures Survivors(users, username) == Sequences.Filter(users, (u: Json) => !HasName(u, username))
    decreases |users|
  {
    if |users| > 0 {
      var init, last := users[..|users| - 1], users[|users| - 1];
      SurvivorsAreFiltered(init, username);
      assert users == init + [last];
      Sequences.FilterSnoc(init, last, (u: Json) => !HasName(u, username));
    }
  }

  /** DELETE /api/users/<username>. */
  method DeleteUserByAdmin(files: DataFiles, username: string) returns (resp: Response)
    modifies files
    ensures files.logs == old(files.logs)
    ensures resp.status in {200, 404, 500}
    ensures resp.status != 200 ==> files.users == old(files.users)
    ensures resp.status == 404 <==>
      && ListItems(LoadData(old(files.users))).Some?
      && (forall i :: 0 <= i < |ListItems(LoadData(old(files.users))).value| ==>
            ListItems(LoadData(old(files.users))).value[i].JObj?)
      && !exists i :: 0 <= i < |ListItems(LoadData(old(files.users))).value| &&
            HasName(ListItems(LoadData(old(files.users))).value[i], username)
    ensures resp.status == 404 ==> resp.body == Message("error", "User not found")
    ensures resp.status == 200 <==>
      && ListItems(LoadData(old(files.users))).Some?
      && (forall i :: 0 <= i < |ListItems(LoadData(old(files.users))).value| ==>
            ListItems(LoadData(old(files.users))).value[i].JObj?)
      && exists i :: 0 <= i < |ListItems(LoadData(old(files.users))).value| &&
            HasName(ListItems(LoadData(old(files.users))).value[i], username)
    ensures resp.status == 500 ==> resp.body == Message("error", "Failed to delete user " + username)
    ensures resp.status == 200 ==>
      && ListItems(LoadData(old(files.users))).Some?
      && resp.body == Message("message", "User '" + username + "' deleted successfully")
      && files.users == Parsed(JArr(Survivors(ListItems(LoadData(old(files.users))).value, username)))
  {
    var failure := Response(500, Message("error", "Failed to delete user " + username));
    var items := ListItems(LoadData(files.users));
    if items.None? {
      return failure;
    }
    var outcome := RemoveNamed(items.value, username);
    if outcome.None? {
      return failure;
    }
    var (updated, found) := outcome.value;
    if !found {
      return Response(404, Message("error", "User not found"));
    }
    files.users := Parsed(JArr(updated));
    resp := Response(200, Message("message", "User '" + username + "' deleted successfully"));
  }

  /** After a delete no user with the name is left, every other user is kept
      as often as before, and their order is unchanged. */
  lemma DeleteRemovesEveryMatch(users: seq<Json>, username: string)
    ensures var kept := Survivors(users, username);
      && (forall u :: u in kept ==> !HasName(u, username))
      && (forall u :: !HasName(u, username) ==> multiset(kept)[u] == multiset(users)[u])
      && Sequences.IsSubsequence(kept, users)
  {
    SurvivorsAreFiltered(users, username);
    Sequences.FilterKeepsExactly(users, (u: Json) => !HasName(u, username));
  }
}
