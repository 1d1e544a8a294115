# sched-cli credential store and schedule listing, in Dafny

sched-cli.py is a command-line client for the ScheduleMaster reservation web
site. Its `ScheduleMasterAPI` object keeps its state in its own attribute
dictionary. That state is the HTTP session, the path of a JSON state file and
the two credentials, `userid` and `sessionid`. The object loads this state from
the file when it is created and saves every JSON-encodable attribute back
whenever new credentials are adopted. Credentials come either directly or from
the `USERID=…&SESSION=…` query of the URL that the login POST redirects to. Every
request made through `_request` carries them as the `userid` and `session`
parameters. A
response is refused when its status is 4xx/5xx or when its page says the
session is no longer valid. `get_my_schedule` turns each seven-part table cell
of the "my schedule" page into a `Schedule` record with owner `you`. It first
strips a trailing dash from the start time.

The project has six modules:

- `Common`: `Option`, `Result`, `Outcome` and one `Error` constructor per exception the modelled code raises.
- `Json`: the values an attribute can hold, and when `json.dumps` accepts them (`Serializable`). A `Foreign` value stands for an object such as the `requests.Session`, which cannot be encoded.
- `Text`: Python's `in`, `split`, `lower` and `replace` on strings.
- `Query`: the pure part of `_adopt_url`. It covers `urlparse(url).query`, `str.lower`, `parse_qsl`, `dict` (the last duplicate wins) and the two key lookups.
- `Session`:
  - the state file, as a `Disk` object whose `files` map a path to its content;
  - the caller's `params` dict, as a `ParamDict` object;
  - the `ScheduleMasterApi` class, whose `fields` map is the instance's `__dict__`. Its methods are `__init__`, `_load_state`, `_save_state`, `_adopt`, `_adopt_url`, the redirect check of `cmd_login`, `_add_auth`, the response checks of `_request` and `get_my_schedule`;
  - beside each method, the pure function that specifies it.
- `MySchedule`:
  - the `Schedule` record, whose fields all default to None;
  - `re.sub(' ?- ?$', '', start)`, modelled on Python's regular-expression semantics for that pattern;
  - the loop of `get_my_schedule`, as a method proved equal to the recursive specification `Schedules`.

The network, the HTML parser, `dateutil` and percent-decoding are parameters
of the model:

- a `Response` value is what the server answered;
- `cells` stands for parsing the page into its cells' part texts;
- `parse` stands for `dateutil.parser.parse`, where `None` means it raises;
- `pct` stands for `unquote` on text that contains `%`.

## Model

| member | source | states |
|---|---|---|
| `Json.ForeignInsideIsNotSerializable` | sched-cli.py:52-57 | a value with an unencodable object anywhere inside it cannot be encoded, so `_save_state` drops the whole field |
| `Json.NotSerializableHasForeign` | sched-cli.py:52-57 | conversely, a value `json.dumps` refuses has an unencodable object inside it, reached through object keys and list indices |
| `Text.Contains` | sched-cli.py:84 | Python's `sub in s` holds exactly when `sub` occurs at some index of `s` |
| `Text.Lower` | sched-cli.py:69 | the model's `str.lower` lower-cases each ASCII letter and keeps the length |
| `Text.LowerIsLower` | sched-cli.py:69 | a lower-cased string has no upper-case letter, and lower-casing again changes nothing |
| `Text.Split` | sched-cli.py:69 | `str.split(c)` yields at least one piece, and no piece contains `c` |
| `Text.JoinSplit` | sched-cli.py:69 | splitting the query on `&` loses nothing: joining the pieces gives the query back |
| `Query.UrlQuery` | sched-cli.py:68 | the `query` of `urlparse` never holds a fragment mark |
| `Query.UrlQueryDeletes` | sched-cli.py:68 | `urlsplit` deletes tab, CR and LF before splitting: the query is that of the URL without them |
| `Query.UrlQueryNone` | sched-cli.py:68 | a URL with no `?` before its fragment has the empty query |
| `Query.NoQueryNoCredentials` | sched-cli.py:68-70 | with an empty query `_adopt_url` raises KeyError for `userid` |
| `Query.UrlQueryOf` | sched-cli.py:68 | the query is exactly the text between the first `?` and the fragment |
| `Query.Unquote` | sched-cli.py:69 | `unquote` returns text without a `%` escape unchanged; other text goes to the `pct` parameter |
| `Query.Decode` | sched-cli.py:69 | without a `%` escape, `parse_qsl` decoding only turns `+` into a space |
| `Query.ParseQsl` | sched-cli.py:69 | the empty query gives no pairs, and there is at most one pair per `&` piece |
| `Query.ParsePiece` | sched-cli.py:69 | a piece yields a pair exactly when it holds `=` and a non-blank value after the first `=`; other pieces are dropped |
| `Query.ParsePieceSupplies` | sched-cli.py:69 | a piece yields a pair named `key` exactly when it supplies `key`, and the pair's value is the decoded raw value |
| `Query.ParsePairsSound` | sched-cli.py:69 | every pair `parse_qsl` returns is the parse of one of the pieces |
| `Query.ParsePairsComplete` | sched-cli.py:69 | every piece that parses contributes its pair |
| `Query.ToDict` | sched-cli.py:69 | `dict([])` is empty, and the name of the last pair maps to that pair's value |
| `Query.ToDictLastWins` | sched-cli.py:69 | `dict(pairs)` has exactly the keys of the pairs, and each key maps to the value of its last pair |
| `Query.QueryArgs` | sched-cli.py:68-69 | `dict(parse_qsl(uo.query.lower()))`: an empty query gives the empty dict, and lower-casing the query is the same as lower-casing the whole URL first |
| `Query.Credentials` | sched-cli.py:69-70 | the credentials are the `userid` and `session` entries of the query dict; a missing `userid` raises KeyError for it before `session` is looked up |
| `Query.DictOfPieces` | sched-cli.py:69 | a key is in the parsed query dict exactly when some `&` piece supplies it with a non-blank value (`LastSupplied` is not -1), and its value is the decoded value of that last supplying piece |
| `Query.LastSuppliedIsLast` | sched-cli.py:69 | the piece `LastSupplied` picks supplies the key and no later piece does, so a later duplicate overrides an earlier one |
| `Query.NoSupplier` | sched-cli.py:69 | `LastSupplied` is -1 exactly when no piece supplies the key |
| `Query.DictHoldsSupplied` | sched-cli.py:69 | the parsed dict of a non-empty query holds a key exactly when one of its pieces supplies it |
| `Query.CredentialsPresent` | sched-cli.py:69-70 | `_adopt_url` gets credentials exactly when the lower-cased query supplies both `userid` and `session`; otherwise the KeyError names `userid` first, then `session` |
| `Query.CaseInsensitive` | sched-cli.py:69 | URLs equal up to case give the same credentials or the same error |
| `Query.LowerQuery` | sched-cli.py:68-69 | lower-casing the query equals taking the query of the lower-cased URL |
| `Query.AdoptedAreLowerCase` | sched-cli.py:69-70 | when no piece supplying `userid` or `session` has a `%` escape in its value, both adopted credentials are lower-case |
| `Query.NoEscapeIsPlain` | sched-cli.py:69 | a query without any `%` meets that condition for every key |
| `Query.ParseTwoPairs` | sched-cli.py:69 | `parse_qsl` of `k1=a&k2=b` with plain names and values is the two pairs in order |
| `Query.LoginRedirectCredentials` | sched-cli.py:67-70 | the site's redirect `<base>?USERID=<u>&SESSION=<s>` yields the credentials `(lower(u), lower(s))` |
| `Session.InitialFields` | sched-cli.py:33-37 | before loading, the fields are exactly `session` and `state_path`; `state_path` is the configured path and the session cannot be encoded |
| `Session.StatePath` | sched-cli.py:44 | `open(self.state_path)` gets a path exactly when `state_path` is set to a string, and it is that string |
| `Session.Merge` | sched-cli.py:46 | `__dict__.update(js)`: every loaded key takes its loaded value, and every other field stays |
| `Session.Loaded` | sched-cli.py:43-46 | no path string or no such file raises on `open`, a non-JSON file raises in `json.load`, a non-object document is refused, and a JSON object yields exactly its members, all encodable |
| `Session.Restored` | sched-cli.py:32-46 | `__init__` always ends with `session` and `state_path` set; when loading fails the fields are the initial two, and when it succeeds they are those two plus the loaded keys, each loaded key with its loaded value and each initial field the file lacks with its initial value |
| `Session.Persistable` | sched-cli.py:50-57 | the saved mapping holds exactly the fields whose value encodes on its own, with their values, and it encodes as a whole |
| `Session.Saved` | sched-cli.py:48-58 | saving succeeds exactly when `state_path` is a path string; it writes that file and leaves every other file alone |
| `Session.SaveThenLoad` | sched-cli.py:43-58 | loading what was just saved gives back exactly the persistable fields, and merging them changes no field |
| `Session.RestartRestores` | sched-cli.py:32-58 | a new instance on the saved file regains every encodable field, nothing the old one lacked, and its own fresh session |
| `Session.AdoptPersists` | sched-cli.py:60-63 | after `_adopt` each credential is saved exactly when it encodes, with the adopted value |
| `Session.AdoptKeepsOtherFields` | sched-cli.py:60-63 | `_adopt` leaves what is saved of every other field unchanged |
| `Session.AuthParams` | sched-cli.py:92 | the dict `_add_auth` merges in has exactly the keys `userid` and `session`, holding the `userid` and `sessionid` fields; an unset field raises AttributeError, `userid` first |
| `Session.WithAuth` | sched-cli.py:89-93 | the parameters are the caller's plus `userid` and `session` set to the current credentials; an unset credential raises AttributeError, `userid` checked first |
| `Session.CheckResponse` | sched-cli.py:97-99 | a 4xx/5xx status raises HTTPError; otherwise the body is returned exactly when it does not contain the session-invalid message, and "Login information expired" is raised when it does |
| `Session.LoginRedirect` | sched-cli.py:83-87 | a missing `Location` raises TypeError; the URL is adopted exactly when it contains `USERID=`, otherwise "Login failed" |
| `Session.ScheduleMasterApi.constructor` | sched-cli.py:32-41 | the new instance's fields are the session and the state path, merged with the state file when it loads, and left alone when loading fails |
| `Session.ScheduleMasterApi.LoadState` | sched-cli.py:43-46 | the fields are merged with the loaded object, or left unchanged with the error |
| `Session.ScheduleMasterApi.SaveState` | sched-cli.py:48-58 | the loop over the fields writes exactly `Persistable(fields)` to the state file, and no other file changes |
| `Session.ScheduleMasterApi.Adopt` | sched-cli.py:60-63 | both credential fields are set, then the state is saved |
| `Session.ScheduleMasterApi.AdoptUrl` | sched-cli.py:67-70 | the credentials from the URL are adopted and saved; when a key is missing nothing changes |
| `Session.ScheduleMasterApi.Login` | sched-cli.py:81-87 | a 4xx/5xx status or a rejected redirect changes nothing; an accepted redirect is adopted as `_adopt_url` does |
| `Session.ScheduleMasterApi.AddAuth` | sched-cli.py:89-93 | a missing or empty `params` gets a new dict holding only the credentials; a non-empty one is updated in place and returned |
| `Session.ScheduleMasterApi.Request` | sched-cli.py:95-103 | the credentials are added before the response is checked; the result is the body or the first error |
| `Session.ScheduleMasterApi.GetMySchedule` | sched-cli.py:105-125 | the schedules of the page's cells, or the error of the request |
| `MySchedule.ScheduleDefaults` | sched-cli.py:20-28 | `Schedule()` is the record with all five fields None |
| `MySchedule.StripDash` | sched-cli.py:116 | the substitution removes one contiguous run of at most three characters and keeps the rest in order |
| `MySchedule.DashTexts` | sched-cli.py:116 | the texts ` ?- ?` matches are exactly `-`, ` -`, `- ` and ` - ` |
| `MySchedule.StripDashLeftmost` | sched-cli.py:116 | `StripDash` removes the leftmost match of ` ?- ?$`, and a string with no match comes back unchanged |
| `MySchedule.SingleReplacement` | sched-cli.py:116 | every match ends where the leftmost one ends, so exactly one replacement is made |
| `MySchedule.StripsSpacedDash` | sched-cli.py:116 | a trailing ` -` is removed, and nothing else |
| `MySchedule.StripsSpacedDashSpace` | sched-cli.py:116 | a trailing ` - ` is removed, and nothing else |
| `MySchedule.StripsBareDash` | sched-cli.py:116 | a trailing `-` after a character other than a space is removed, and nothing else |
| `MySchedule.NoDashUnchanged` | sched-cli.py:116 | a start time not ending in a dash, space or newline is unchanged |
| `MySchedule.RowSchedule` | sched-cli.py:115-123 | a seven-part cell gives the record with owner `you`, the parsed stripped start, the parsed end, resource part 3 and notes part 5; the start is parsed first, and the first unparsable text is the error |
| `MySchedule.Schedules` | sched-cli.py:111-125 | a successful listing has at most one record per cell, and a failed one fails with an unparsable date |
| `MySchedule.SchedulesOk` | sched-cli.py:112-123 | the listing succeeds exactly when every seven-part cell parses |
| `MySchedule.SchedulesRows` | sched-cli.py:111-125 | on success there is one record per seven-part cell, in the cells' order, each built from its cell |
| `MySchedule.AllYours` | sched-cli.py:117-123 | every listed record is owned by `you` and carries its cell's resource and notes |
| `MySchedule.SchedulesAppend` | sched-cli.py:112-125 | cells are handled in order: the result for `a + b` is that of `a` followed by that of `b`, and the first error wins |
| `MySchedule.SchedulesPrefixErr` | sched-cli.py:112-123 | once some prefix of the cells fails to parse, the whole listing fails with that same error |
| `MySchedule.CollectSchedules` | sched-cli.py:111-125 | the loop skips cells without seven parts, appends one record per other cell and stops at the first parse error, exactly as `Schedules` specifies |

## Left out

- HTTP transport (`requests.Session`, its headers, the login POST and its form data, timeouts, redirects) is out of the model. Responses enter as a `Response` value or as the login's status and `Location` header.
- Parsing HTML with `lxml`, selecting cells with `cssselect` and `unicodedata` NFKD normalisation with `strip` are out of the model. The `cells` parameter stands for all of them. It is total, so the `ParserError` that `lxml.html.fromstring` raises on an empty body is out of the model: `GetMySchedule` returns `Schedules(cells(""), parse)` there.
- `dateutil.parser.parse` is the `parse` parameter, because date parsing is a library of its own. `DateTime` only records its result. With `default=None` the parser fills missing date parts from today's date, so the real parse depends on the clock; the fixed `parse` function does not capture that.
- Percent-decoding in `unquote` is the `pct` parameter, used only on text that contains `%`.
- Query.AdoptedAreLowerCase: it assumes that no piece supplying `userid` or `session` has a `%` escape in its value. Such an escape (`%41`) may decode to an upper-case letter after lower-casing, and with `pct` a parameter the model cannot say which.
- `Text.Lower` lower-cases ASCII letters only and keeps the length. Python's `str.lower` also maps non-ASCII letters, and some of them to more than one code point (`'İ'.lower()` has two).
- Session.ScheduleMasterApi.LoadState: every document that is not a JSON object is refused as `NotAnObject`. Python's `dict.update` accepts any iterable of pairs, so the JSON string `""` (no pairs) or an array of two-element arrays would be merged without error. An array whose later element is not a pair makes `dict.update` fail after it has set the earlier pairs, and `__init__` swallows that error, leaving a partly merged instance; the model does not capture this either, since it refuses arrays outright.
- Session.Merge: `__dict__.update(js)` can also set keys named like the methods (`_save_state`, `_add_auth`, …). Such an instance attribute shadows the method, so a later call raises TypeError. The model keeps methods apart from the fields, so its methods run regardless of what the file sets.
- Session.ScheduleMasterApi.SaveState: writing succeeds for every path string. Failures of `open` for writing (missing directory, permissions) are out of the model, and so is a `state_path` holding an integer, which Python would take as a file descriptor.
- `Json.Value`: JSON numbers are integers only, because floats are not modelled. Object keys are strings.
- `Query.UrlQuery`: the `ValueError`s that `urlsplit` raises are out of the model: one for a malformed bracketed IPv6 host, and one when a non-ASCII host NFKC-normalises to contain one of `/?#@:`. The model keeps only the query.
- `Query.ParseQsl`: it splits on `&` only, as Python 3.9.2 and later do. The order of dict and query parameters is not modelled, because maps have no order.
- `cmd_adopt`, `cmd_adopturl`, `cmd_mysched`, `cmd_me`, argument parsing and `main` are thin command-line wrappers, and printing is I/O.
- `get_all_schedules` and `cmd_allsched` are out of the model, as they are outside the credential and my-schedule core.
- This revision of sched-cli.py has no code that filters schedules or joins resources with their reservations, so the model has none either.
