/** ScheduleMasterAPI's credential state: the instance's field mapping
    (`__dict__`), the JSON state file it is loaded from and saved to, the
    credential parameters added to every request made through `_request`,
    and the two checks made on what the server sends back. */
module Session {
  import opened Common
  import opened Json
  import opened Text
  import Query
  import MySchedule

  const StatePathField := "state_path"
  const SessionField := "session"
  const UserIdField := "userid"
  const SessionIdField := "sessionid"

  /** The text by which the server says the credentials are no longer valid. */
  const SessionInvalidMarker := "Schedule Master could not validate your user or session information."

  /** What the login POST must redirect to for the login to count. */
  const LoginMarker := "USERID="

  /** The content of one file: JSON text, or text `json.load` rejects. */
  datatype FileContent = Unparsable | Document(doc: JsonValue)

  /** The file system as `open` sees it: a path that is not a key is a missing file. */
  class Disk {
    var files: map<string, FileContent>

    constructor (files: map<string, FileContent>)
      ensures this.files == files
    {
      this.files := files;
    }
  }

  /** A caller's `params` dict, which `_add_auth` updates in place. */
  class ParamDict {
    var items: map<string, Value>

    constructor (items: map<string, Value>)
      ensures this.items == items
    {
      this.items := items;
    }
  }

  /** What a request returned: its HTTP status and its body. */
  datatype Response = Response(status: int, text: string)

  /** The fields `__init__` sets before it loads the state file. */
  function InitialFields(configFile: string): (r: map<string, Value>)
    ensures r.Keys == {SessionField, StatePathField}
    ensures StatePath(r) == Some(configFile)
    ensures !Serializable(r[SessionField])
  {
    map[SessionField := Foreign("requests.Session"), StatePathField := Str(configFile)]
  }

  /** The path `open(self.state_path)` opens, if `state_path` holds a path string. */
  function StatePath(fields: map<string, Value>): (p: Option<string>)
    ensures p.Some? <==> StatePathField in fields && fields[StatePathField].Str?
    ensures p.Some? ==> fields[StatePathField] == Str(p.value)
  {
    if StatePathField in fields && fields[StatePathField].Str? then Some(fields[StatePathField].s) else None
  }

  /** `dict.update`: every key of `update` takes its new value, every other field stays. */
  function Merge(fields: map<string, Value>, update: map<string, Value>): (r: map<string, Value>)
    ensures r.Keys == fields.Keys + update.Keys
    ensures forall k :: k in update ==> r[k] == update[k]
    ensures forall k :: k in fields && k !in update ==> r[k] == fields[k]
  {
    fields + update
  }

  /** What `_load_state` reads: the JSON object in the state file, or the
      exception it raises (no path string, no such file, not JSON, not an object). */
  function Loaded(fields: map<string, Value>, files: map<string, FileContent>): (r: Result<map<string, Value>, Error>)
    ensures StatePath(fields).None? ==> r == Err(CannotOpen)
    ensures StatePath(fields).Some? && StatePath(fields).value !in files ==> r == Err(CannotOpen)
    ensures StatePath(fields).Some? && StatePath(fields).value in files ==>
              var content := files[StatePath(fields).value];
              && (content.Unparsable? ==> r == Err(NotJson))
              && (content.Document? && !content.doc.Object? ==> r == Err(NotAnObject))
              && (content.Document? && content.doc.Object? ==> r == Ok(content.doc.members))
    ensures r.Ok? ==> forall k :: k in r.value ==> Serializable(r.value[k])
  {
    match StatePath(fields)
    case None => Err(CannotOpen)
    case Some(path) =>
      if path !in files then Err(CannotOpen)
      else match files[path]
        case Unparsable => Err(NotJson)
        case Document(doc) => if doc.Object? then Ok(doc.members) else Err(NotAnObject)
  }

  /** The mapping `_save_state` writes: each field whose value encodes on its
      own, with that value; every other field is left out. */
  function Persistable(fields: map<string, Value>): (js: map<string, Value>)
    ensures forall k :: k in js <==> k in fields && Serializable(fields[k])
    ensures forall k :: k in js ==> js[k] == fields[k]
    ensures Serializable(Object(js))
  {
    map k | k in fields && Serializable(fields[k]) :: fields[k]
  }

  /** The file system after `_save_state`, or the exception it raises when
      `state_path` is not a path string. */
  function Saved(fields: map<string, Value>, files: map<string, FileContent>): (r: Result<map<string, FileContent>, Error>)
    ensures r.Ok? <==> StatePath(fields).Some?
    ensures r.Ok? ==> r.value.Keys == files.Keys + {StatePath(fields).value}
    ensures r.Ok? ==> forall p :: p in files && p != StatePath(fields).value ==> r.value[p] == files[p]
  {
    match StatePath(fields)
    case None => Err(CannotOpen)
    case Some(path) => Ok(files[path := Document(Object(Persistable(fields)))])
  }

  /** The fields the constructor ends with: the initial ones, merged with the
      state file when it loads, and left alone when it does not. */
  function Restored(configFile: string, files: map<string, FileContent>): (r: map<string, Value>)
    ensures SessionField in r && StatePathField in r
    ensures Loaded(InitialFields(configFile), files).Err? ==> r == InitialFields(configFile)
    ensures Loaded(InitialFields(configFile), files).Ok? ==>
              var js := Loaded(InitialFields(configFile), files).value;
              && r.Keys == InitialFields(configFile).Keys + js.Keys
              && (forall k :: k in js ==> r[k] == js[k])
              && (forall k :: k in InitialFields(configFile) && k !in js ==> r[k] == InitialFields(configFile)[k])
  {
    var initial := InitialFields(configFile);
    match Loaded(initial, files)
    case Ok(js) => Merge(initial, js)
    case Err(_) => initial
  }

  /** The effect of one `_save_state` on the file system and its outcome. */
  ghost predicate SaveEffect(fields: map<string, Value>, before: map<string, FileContent>,
                             after: map<string, FileContent>, o: Outcome<Error>)
  {
    match Saved(fields, before)
    case Ok(files) => after == files && o == Pass
    case Err(e) => after == before && o == Fail(e)
  }

  /** The effect of `_adopt_url(url)` on the fields, the file system and its outcome. */
  ghost predicate AdoptUrlEffect(url: string, pct: string -> string,
                                 oldFields: map<string, Value>, oldFiles: map<string, FileContent>,
                                 fields: map<string, Value>, files: map<string, FileContent>, o: Outcome<Error>)
  {
    match Query.Credentials(url, pct)
    case Err(e) => o == Fail(e) && fields == oldFields && files == oldFiles
    case Ok(creds) =>
      && fields == oldFields[UserIdField := Str(creds.0)][SessionIdField := Str(creds.1)]
      && SaveEffect(fields, oldFiles, files, o)
  }

  /** Saving and then loading into the same instance changes no field: what
      was saved is exactly what the file now holds, and every saved value is
      already the field's value. */
  lemma SaveThenLoad(fields: map<string, Value>, files: map<string, FileContent>)
    requires Saved(fields, files).Ok?
    ensures Loaded(fields, Saved(fields, files).value) == Ok(Persistable(fields))
    ensures Merge(fields, Persistable(fields)) == fields
  {
  }

  /** A new instance started on the file an earlier instance saved to gets
      back every field that encoded, its own fresh `requests.Session`, and
      nothing the earlier instance did not have. */
  lemma RestartRestores(fields: map<string, Value>, files: map<string, FileContent>, configFile: string)
    requires StatePath(fields) == Some(configFile)
    ensures var restored := Restored(configFile, Saved(fields, files).value);
      && (forall k :: k in fields && Serializable(fields[k]) ==> k in restored && restored[k] == fields[k])
      && (forall k :: k in restored ==> k in fields || k == SessionField)
      && (SessionField in fields && !Serializable(fields[SessionField]) ==>
            restored[SessionField] == Foreign("requests.Session"))
  {
    var saved := Saved(fields, files).value;
    assert saved[configFile] == Document(Object(Persistable(fields)));
    assert Loaded(InitialFields(configFile), saved) == Ok(Persistable(fields));
  }

  /** After `_adopt(u, s)` the file holds each credential exactly when it encodes. */
  lemma AdoptPersists(fields: map<string, Value>, userid: Value, session: Value)
    ensures var now := Persistable(fields[UserIdField := userid][SessionIdField := session]);
      && (UserIdField in now <==> Serializable(userid))
      && (SessionIdField in now <==> Serializable(session))
      && (UserIdField in now ==> now[UserIdField] == userid)
      && (SessionIdField in now ==> now[SessionIdField] == session)
  {
    FieldNamesDistinct();
    var f := fields[UserIdField := userid][SessionIdField := session];
    assert f[UserIdField] == userid && f[SessionIdField] == session;
  }

  /** `_adopt` persists every other field exactly as before. */
  lemma AdoptKeepsOtherFields(fields: map<string, Value>, userid: Value, session: Value, k: string)
    requires k != UserIdField && k != SessionIdField
    ensures var now := Persistable(fields[UserIdField := userid][SessionIdField := session]);
      && (k in now <==> k in Persistable(fields))
      && (k in now ==> now[k] == Persistable(fields)[k])
  {
    var f := fields[UserIdField := userid][SessionIdField := session];
    assert k in f <==> k in fields;
    if k in f {
      assert f[k] == fields[k];
    }
  }

  lemma FieldNamesDistinct()
    ensures UserIdField != SessionIdField && UserIdField != StatePathField && SessionIdField != StatePathField
    ensures SessionField != UserIdField && SessionField != SessionIdField && SessionField != StatePathField
  {
  }

  /** The two credential parameters, or the AttributeError for the first
      credential field never set. */
  function AuthParams(fields: map<string, Value>): (r: Result<map<string, Value>, Error>)
    ensures r.Ok? <==> UserIdField in fields && SessionIdField in fields
    ensures UserIdField !in fields ==> r == Err(AttributeMissing("userid"))
    ensures UserIdField in fields && SessionIdField !in fields ==> r == Err(AttributeMissing("sessionid"))
    ensures r.Ok? ==> r.value.Keys == {"userid", "session"}
    ensures r.Ok? ==> r.value["userid"] == fields[UserIdField] && r.value["session"] == fields[SessionIdField]
  {
    if UserIdField !in fields then Err(AttributeMissing(UserIdField))
    else if SessionIdField !in fields then Err(AttributeMissing(SessionIdField))
    else Ok(map["userid" := fields[UserIdField], "session" := fields[SessionIdField]])
  }

  /** The parameters `_add_auth(params)` returns: the caller's, with `userid`
      and `session` set to the current credentials. */
  function WithAuth(params: map<string, Value>, fields: map<string, Value>): (r: Result<map<string, Value>, Error>)
    ensures r.Ok? <==> UserIdField in fields && SessionIdField in fields
    ensures UserIdField !in fields ==> r == Err(AttributeMissing("userid"))
    ensures UserIdField in fields && SessionIdField !in fields ==> r == Err(AttributeMissing("sessionid"))
    ensures r.Ok? ==> r.value.Keys == params.Keys + {"userid", "session"}
    ensures r.Ok? ==> r.value["userid"] == fields[UserIdField] && r.value["session"] == fields[SessionIdField]
    ensures r.Ok? ==> forall k :: k in params && k != "userid" && k != "session" ==> r.value[k] == params[k]
  {
    match AuthParams(fields)
    case Err(e) => Err(e)
    case Ok(auth) => Ok(params + auth)
  }

  /** What `_request` does with a response: a 4xx or 5xx status raises
      HTTPError; a body containing the session-invalid marker raises "Login
      information expired"; any other body is returned. */
  function CheckResponse(resp: Response): (r: Result<string, Error>)
    ensures 400 <= resp.status < 600 ==> r == Err(HttpStatus(resp.status))
    ensures !(400 <= resp.status < 600) ==>
              (r.Ok? <==> forall i: nat :: !OccursAt(resp.text, SessionInvalidMarker, i))
    ensures !(400 <= resp.status < 600) && r.Err? ==> r == Err(LoginExpired)
    ensures r.Ok? ==> r.value == resp.text
  {
    if 400 <= resp.status < 600 then Err(HttpStatus(resp.status))
    else if Contains(resp.text, SessionInvalidMarker) then Err(LoginExpired)
    else Ok(resp.text)
  }

  /** The redirect check of `cmd_login`: no `Location` header raises
      TypeError, one without `USERID=` raises "Login failed", any other is
      the URL to adopt. */
  function LoginRedirect(location: Option<string>): (r: Result<string, Error>)
    ensures location.None? ==> r == Err(NoRedirect)
    ensures location.Some? ==> (r.Ok? <==> exists i: nat :: OccursAt(location.value, LoginMarker, i))
    ensures location.Some? && r.Err? ==> r == Err(LoginFailed)
    ensures r.Ok? ==> r.value == location.value
  {
    match location
    case None => Err(NoRedirect)
    case Some(url) => if Contains(url, LoginMarker) then Ok(url) else Err(LoginFailed)
  }

  class ScheduleMasterApi {
    /** The instance's `__dict__`. */
    var fields: map<string, Value>
    /** The file system the state file lives on. */
    const disk: Disk

    /** `__init__`: set the session and the state path, then try to load the
        state file; any failure to load is swallowed. */
    constructor (configFile: string, disk: Disk)
      ensures this.disk == disk
      ensures fields == Restored(configFile, disk.files)
    {
      this.disk := disk;
      fields := InitialFields(configFile);
      new;
      var _ := LoadState();
    }

    /** `_load_state`: merge the JSON object in the state file into the fields. */
    method LoadState() returns (o: Outcome<Error>)
      modifies this
      ensures match Loaded(old(fields), disk.files)
        case Ok(js) => fields == Merge(old(fields), js) && o == Pass
        case Err(e) => fields == old(fields) && o == Fail(e)
    {
      var path := StatePath(fields);
      if path.None? {
        return Fail(CannotOpen);
      }
      if path.value !in disk.files {
        return Fail(CannotOpen);
      }
      match disk.files[path.value]
      case Unparsable =>
        return Fail(NotJson);
      case Document(doc) =>
        if !doc.Object? {
          return Fail(NotAnObject);
        }
        fields := fields + doc.members;
        return Pass;
    }

    /** `_save_state`: collect, field by field, those that encode on their
        own, and write them to the state file. */
    method SaveState() returns (o: Outcome<Error>)
      modifies disk
      ensures SaveEffect(fields, old(disk.files), disk.files, o)
    {
      var path := StatePath(fields);
      if path.None? {
        return Fail(CannotOpen);
      }
      var js: map<string, Value> := map[];
      var pending := fields.Keys;
      while pending != {}
        invariant pending <= fields.Keys
        invariant forall k :: k in js <==> k in fields && k !in pending && Serializable(fields[k])
        invariant forall k :: k in js ==> js[k] == fields[k]
        decreases pending
      {
        var k :| k in pending;
        if Serializable(fields[k]) {
          js := js[k := fields[k]];
        }
        pending := pending - {k};
      }
      assert js == Persistable(fields);
      disk.files := disk.files[path.value := Document(Object(js))];
      return Pass;
    }

    /** `_adopt`: set both credentials, then save. */
    method Adopt(userid: Value, session: Value) returns (o: Outcome<Error>)
      modifies this, disk
      ensures fields == old(fields)[UserIdField := userid][SessionIdField := session]
      ensures SaveEffect(fields, old(disk.files), disk.files, o)
    {
      fields := fields[UserIdField := userid];
      fields := fields[SessionIdField := session];
      o := SaveState();
    }

    /** `_adopt_url`: adopt the credentials found in a redirect URL; when
        either key is missing nothing is changed. */
    method AdoptUrl(url: string, pct: string -> string) returns (o: Outcome<Error>)
      modifies this, disk
      ensures AdoptUrlEffect(url, pct, old(fields), old(disk.files), fields, disk.files, o)
    {
      match Query.Credentials(url, pct)
      case Err(e) =>
        return Fail(e);
      case Ok(creds) =>
        o := Adopt(Str(creds.0), Str(creds.1));
    }

    /** `cmd_login` after the POST: `status` and `location` are the status
        code and the `Location` header of the response. */
    method Login(status: int, location: Option<string>, pct: string -> string) returns (o: Outcome<Error>)
      modifies this, disk
      ensures 400 <= status < 600 ==>
                o == Fail(HttpStatus(status)) && fields == old(fields) && disk.files == old(disk.files)
      ensures !(400 <= status < 600) ==> match LoginRedirect(location)
        case Err(e) => o == Fail(e) && fields == old(fields) && disk.files == old(disk.files)
        case Ok(url) => AdoptUrlEffect(url, pct, old(fields), old(disk.files), fields, disk.files, o)
    {
      if 400 <= status < 600 {
        return Fail(HttpStatus(status));
      }
      match LoginRedirect(location)
      case Err(e) =>
        return Fail(e);
      case Ok(url) =>
        o := AdoptUrl(url, pct);
    }

    /** `_add_auth`: a missing or empty `params` is replaced by a new dict;
        a non-empty one is updated in place and returned. */
    method AddAuth(params: ParamDict?) returns (r: Result<ParamDict, Error>)
      modifies params
      ensures AuthParams(fields).Err? ==> r == Err(AuthParams(fields).error)
      ensures params != null && (r.Err? || old(params.items) == map[]) ==> params.items == old(params.items)
      ensures r.Ok? <==> AuthParams(fields).Ok?
      ensures r.Ok? && (params == null || old(params.items) == map[]) ==>
                fresh(r.value) && r.value.items == WithAuth(map[], fields).value
      ensures r.Ok? && params != null && old(params.items) != map[] ==>
                r.value == params && params.items == WithAuth(old(params.items), fields).value
    {
      var target := params;
      if params == null || params.items == map[] {
        target := new ParamDict(map[]);
      }
      match AuthParams(fields)
      case Err(e) =>
        return Err(e);
      case Ok(auth) =>
        target.items := target.items + auth;
        return Ok(target);
    }

    /** `_request` around the network call: the credentials are added first,
        then `resp`, what the server answered, is checked. */
    method Request(params: ParamDict?, resp: Response) returns (r: Result<string, Error>)
      modifies params
      ensures r == match AuthParams(fields) case Err(e) => Err(e) case Ok(_) => CheckResponse(resp)
      ensures params != null ==>
                params.items == if AuthParams(fields).Ok? && old(params.items) != map[]
                                then WithAuth(old(params.items), fields).value
                                else old(params.items)
    {
      var sent := AddAuth(params);
      if sent.Err? {
        return Err(sent.error);
      }
      r := CheckResponse(resp);
    }

    /** `get_my_schedule`: request the schedule list with `mysched=1`, then
        collect the schedules from the page; `cells` stands for the HTML
        parsing, the cell selection and the clean-up of each part's text. */
    method GetMySchedule(resp: Response, cells: string -> seq<seq<string>>,
                         parse: string -> Option<MySchedule.DateTime>)
      returns (r: Result<seq<MySchedule.Schedule>, Error>)
      ensures r == match AuthParams(fields)
        case Err(e) => Err(e)
        case Ok(_) =>
          match CheckResponse(resp)
          case Err(e) => Err(e)
          case Ok(page) => MySchedule.Schedules(cells(page), parse)
    {
      var params := new ParamDict(map["mysched" := Int(1)]);
      var page := Request(params, resp);
      if page.Err? {
        return Err(page.error);
      }
      r := MySchedule.CollectSchedules(cells(page.value), parse);
    }
  }
}
