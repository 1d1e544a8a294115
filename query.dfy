/** How `_adopt_url` turns a redirect URL into credentials:
    `urlparse(url).query`, lower-cased, through `parse_qsl` into a `dict`,
    then the keys `userid` and `session`. */
module Query {
  import opened Common
  import opened Text

  /** Tab, carriage return and line feed: urlsplit deletes them anywhere in
      the URL before splitting it. */
  const UnsafeUrlChars: set<char> := {'\t', '\r', '\n'}

  predicate NoUnsafe(s: string)
  {
    '\t' !in s && '\r' !in s && '\n' !in s
  }

  /** The `query` component of `urllib.parse.urlparse(url)`: what follows the
      first `?` in the part of the URL before the first `#`. */
  function UrlQuery(url: string): (q: string)
    ensures '#' !in q
  {
    var u := RemoveChars(url, UnsafeUrlChars);
    var beforeFragment := if '#' in u then SplitOnce(u, '#').0 else u;
    if '?' in beforeFragment then
      var q := SplitOnce(beforeFragment, '?').1;
      assert forall i :: 0 <= i < |q| ==> q[i] in beforeFragment;
      q
    else ""
  }

  /** The query is exactly the text between the first `?` and the fragment. */
  lemma UrlQueryOf(before: string, query: string, fragment: string)
    requires '?' !in before && '#' !in before && '#' !in query
    requires fragment == [] || fragment[0] == '#'
    requires NoUnsafe(before + "?" + query + fragment)
    ensures UrlQuery(before + "?" + query + fragment) == query
  {
    var url := before + "?" + query + fragment;
    assert RemoveChars(url, UnsafeUrlChars) == url;
    if fragment == [] {
      assert url == before + ['?'] + query;
      assert '#' !in url;
    } else {
      assert url == (before + "?" + query) + ['#'] + fragment[1..];
      SplitOnceAt(before + "?" + query, '#', fragment[1..]);
    }
    SplitOnceAt(before, '?', query);
  }

  /** Tab, carriage return and line feed make no difference to the query:
      it is the query of the URL with them deleted. */
  lemma UrlQueryDeletes(url: string)
    ensures UrlQuery(url) == UrlQuery(RemoveChars(url, UnsafeUrlChars))
  {
    var u := RemoveChars(url, UnsafeUrlChars);
    assert RemoveChars(u, UnsafeUrlChars) == u;
  }

  /** Without a `?` before the fragment the query is empty. */
  lemma UrlQueryNone(before: string, fragment: string)
    requires '?' !in before && '#' !in before && NoUnsafe(before)
    requires fragment == [] || (fragment[0] == '#' && NoUnsafe(fragment))
    ensures UrlQuery(before + fragment) == ""
  {
    var url := before + fragment;
    assert RemoveChars(url, UnsafeUrlChars) == url;
    if fragment == [] {
      assert url == before;
    } else {
      assert url == before + ['#'] + fragment[1..];
      SplitOnceAt(before, '#', fragment[1..]);
    }
  }

  /** A URL with an empty query gives no credentials: `uargs['userid']`
      raises KeyError. */
  lemma NoQueryNoCredentials(url: string, pct: string -> string)
    requires UrlQuery(url) == ""
    ensures Credentials(url, pct) == Err(KeyMissing("userid"))
  {
  }

  /** Python's `unquote`, with the decoding of `%xx` escapes left abstract as
      `pct`: a string without `%` comes back unchanged. */
  function Unquote(s: string, pct: string -> string): (r: string)
    ensures '%' !in s ==> r == s
    ensures '%' in s ==> r == pct(s)
  {
    if '%' in s then pct(s) else s
  }

  /** How `parse_qsl` decodes a name or a value: `+` becomes a space, then `unquote`. */
  function Decode(s: string, pct: string -> string): (r: string)
    ensures '%' !in s ==> r == ReplaceChar(s, '+', ' ')
  {
    var spaced := ReplaceChar(s, '+', ' ');
    assert '%' in spaced ==> '%' in s;
    Unquote(spaced, pct)
  }

  /** One `&`-separated piece as `parse_qsl` treats it with
      `keep_blank_values=False`: no `=` (an empty piece included) or an empty
      value drops it; otherwise the name before the first `=` and the value
      after it, both decoded. */
  function ParsePiece(piece: string, pct: string -> string): (r: Option<(string, string)>)
    ensures r.Some? <==> '=' in piece && RawValue(piece) != ""
  {
    if '=' !in piece then None
    else
      var (name, value) := SplitOnce(piece, '=');
      if value == "" then None else Some((Decode(name, pct), Decode(value, pct)))
  }

  /** The pairs of the accepted pieces, in order. */
  function ParsePieces(pieces: seq<string>, pct: string -> string): (r: seq<(string, string)>)
    ensures |r| <= |pieces|
  {
    if pieces == [] then []
    else
      var rest := ParsePieces(pieces[..|pieces| - 1], pct);
      match ParsePiece(pieces[|pieces| - 1], pct)
      case None => rest
      case Some(pair) => rest + [pair]
  }

  /** `urllib.parse.parse_qsl(q)`: split on `&`, then parse each piece. */
  function ParseQsl(q: string, pct: string -> string): (r: seq<(string, string)>)
    ensures q == "" ==> r == []
    ensures |r| <= |Split(q, '&')|
  {
    if q == "" then [] else ParsePieces(Split(q, '&'), pct)
  }

  /** Every pair `parse_qsl` returns is the parse of one of the pieces. */
  lemma {:induction false} ParsePairsSound(pieces: seq<string>, pct: string -> string)
    ensures forall i :: 0 <= i < |ParsePieces(pieces, pct)| ==>
              exists j :: 0 <= j < |pieces| && ParsePiece(pieces[j], pct) == Some(ParsePieces(pieces, pct)[i])
  {
    if pieces == [] {
      assert ParsePieces(pieces, pct) == [];
    } else {
      var init := pieces[..|pieces| - 1];
      var n := |pieces| - 1;
      ParsePairsSound(init, pct);
      var front := ParsePieces(init, pct);
      var extra := ParsePiecesSnoc(pieces, pct);
      var r := front + extra;
      forall i | 0 <= i < |r|
        ensures exists j :: 0 <= j < |pieces| && ParsePiece(pieces[j], pct) == Some(r[i])
      {
        if i < |front| {
          var j :| 0 <= j < |init| && ParsePiece(init[j], pct) == Some(front[i]);
          assert init[j] == pieces[j];
        } else {
          assert ParsePiece(pieces[n], pct) == Some(r[i]);
        }
      }
    }
  }

  /** Every piece that parses contributes its pair. */
  lemma {:induction false} ParsePairsComplete(pieces: seq<string>, pct: string -> string)
    ensures forall j :: 0 <= j < |pieces| && ParsePiece(pieces[j], pct).Some? ==>
              ParsePiece(pieces[j], pct).value in ParsePieces(pieces, pct)
  {
    if pieces != [] {
      var init := pieces[..|pieces| - 1];
      var n := |pieces| - 1;
      ParsePairsComplete(init, pct);
      var front := ParsePieces(init, pct);
      var extra := ParsePiecesSnoc(pieces, pct);
      forall j | 0 <= j < |pieces| && ParsePiece(pieces[j], pct).Some?
        ensures ParsePiece(pieces[j], pct).value in front + extra
      {
        if j < n {
          assert init[j] == pieces[j];
        } else {
          assert j == n;
          assert ParsePiece(pieces[n], pct).value in extra;
        }
      }
    }
  }

  /** The last piece adds its pair, if it has one, after the others' pairs. */
  lemma ParsePiecesSnoc(pieces: seq<string>, pct: string -> string) returns (extra: seq<(string, string)>)
    requires pieces != []
    ensures ParsePieces(pieces, pct) == ParsePieces(pieces[..|pieces| - 1], pct) + extra
    ensures ParsePiece(pieces[|pieces| - 1], pct).None? ==> extra == []
    ensures ParsePiece(pieces[|pieces| - 1], pct).Some? ==> extra == [ParsePiece(pieces[|pieces| - 1], pct).value]
  {
    extra := if ParsePiece(pieces[|pieces| - 1], pct).Some? then [ParsePiece(pieces[|pieces| - 1], pct).value] else [];
  }

  /** `dict(pairs)`: later pairs overwrite earlier ones with the same name. */
  function ToDict(pairs: seq<(string, string)>): (r: map<string, string>)
    ensures pairs == [] ==> r == map[]
    ensures pairs != [] ==> var last := pairs[|pairs| - 1]; last.0 in r && r[last.0] == last.1
  {
    if pairs == [] then map[]
    else
      var last := pairs[|pairs| - 1];
      ToDict(pairs[..|pairs| - 1])[last.0 := last.1]
  }

  /** `dict(pairs)` holds exactly the names of `pairs`, each mapped to the
      value of the last pair with that name. */
  lemma {:induction false} ToDictLastWins(pairs: seq<(string, string)>)
    ensures forall i :: 0 <= i < |pairs| ==> pairs[i].0 in ToDict(pairs)
    ensures forall k :: k in ToDict(pairs) ==> exists i :: 0 <= i < |pairs| && pairs[i].0 == k
    ensures forall i :: 0 <= i < |pairs| && (forall j :: i < j < |pairs| ==> pairs[j].0 != pairs[i].0) ==>
                        ToDict(pairs)[pairs[i].0] == pairs[i].1
  {
    if pairs != [] {
      var front := pairs[..|pairs| - 1];
      ToDictLastWins(front);
      assert forall i :: 0 <= i < |front| ==> front[i] == pairs[i];
    }
  }

  /** The dictionary `_adopt_url` reads the credentials from. */
  function QueryArgs(url: string, pct: string -> string): (r: map<string, string>)
    ensures UrlQuery(url) == "" ==> r == map[]
    ensures r == ToDict(ParseQsl(UrlQuery(Lower(url)), pct))
  {
    LowerQuery(url);
    ToDict(ParseQsl(Lower(UrlQuery(url)), pct))
  }

  /** `(uargs['userid'], uargs['session'])`, or the KeyError raised for the
      first of the two that is missing. */
  function Credentials(url: string, pct: string -> string): (r: Result<(string, string), Error>)
    ensures var args := QueryArgs(url, pct);
      && (r.Ok? <==> "userid" in args && "session" in args)
      && ("userid" !in args ==> r == Err(KeyMissing("userid")))
      && ("userid" in args && "session" !in args ==> r == Err(KeyMissing("session")))
      && (r.Ok? ==> r.value.0 == args["userid"] && r.value.1 == args["session"])
  {
    var args := QueryArgs(url, pct);
    if "userid" !in args then Err(KeyMissing("userid"))
    else if "session" !in args then Err(KeyMissing("session"))
    else Ok((args["userid"], args["session"]))
  }

  /** The raw value of a piece, before decoding; a piece without `=` has none. */
  function RawValue(piece: string): string
  {
    if '=' in piece then SplitOnce(piece, '=').1 else ""
  }

  /** `piece` is `name=value` with a non-blank value and a name that decodes to `key`. */
  predicate Supplies(piece: string, key: string, pct: string -> string)
  {
    '=' in piece && RawValue(piece) != "" && Decode(SplitOnce(piece, '=').0, pct) == key
  }

  /** Some piece of query `q` supplies `key`. */
  predicate Supplied(q: string, key: string, pct: string -> string)
  {
    q != "" && exists j :: 0 <= j < |Split(q, '&')| && Supplies(Split(q, '&')[j], key, pct)
  }

  lemma ToDictSnoc(pairs: seq<(string, string)>, last: (string, string))
    ensures ToDict(pairs + [last]) == ToDict(pairs)[last.0 := last.1]
  {
    assert (pairs + [last])[..|pairs|] == pairs;
  }

  /** `j` is the last of `pieces` that supplies `key`. */
  predicate LastSupplier(pieces: seq<string>, key: string, pct: string -> string, j: int)
  {
    && 0 <= j < |pieces|
    && Supplies(pieces[j], key, pct)
    && forall j' :: j < j' < |pieces| ==> !Supplies(pieces[j'], key, pct)
  }

  /** Which of `pieces` supply `key`. */
  function SupplyFlags(pieces: seq<string>, key: string, pct: string -> string): (f: seq<bool>)
    ensures |f| == |pieces|
    decreases |pieces|
  {
    if pieces == [] then []
    else SupplyFlags(pieces[..|pieces| - 1], key, pct) + [Supplies(pieces[|pieces| - 1], key, pct)]
  }

  lemma {:induction false} SupplyFlagsAt(pieces: seq<string>, key: string, pct: string -> string, i: nat)
    requires i < |pieces|
    ensures SupplyFlags(pieces, key, pct)[i] == Supplies(pieces[i], key, pct)
    decreases |pieces|
  {
    if i < |pieces| - 1 {
      var front := pieces[..|pieces| - 1];
      SupplyFlagsAt(front, key, pct, i);
      assert front[i] == pieces[i];
    }
  }

  /** The index of the last true flag, or -1. */
  function LastTrue(f: seq<bool>): (j: int)
    ensures -1 <= j < |f|
    decreases |f|
  {
    if f == [] then -1
    else if f[|f| - 1] then |f| - 1
    else LastTrue(f[..|f| - 1])
  }

  /** `LastTrue` is the last true flag, and -1 means there is none. */
  lemma {:induction false} LastTrueIsLast(f: seq<bool>)
    ensures LastTrue(f) >= 0 ==> f[LastTrue(f)] && forall j :: LastTrue(f) < j < |f| ==> !f[j]
    ensures LastTrue(f) == -1 <==> forall j :: 0 <= j < |f| ==> !f[j]
    decreases |f|
  {
    if f != [] && !f[|f| - 1] {
      var front := f[..|f| - 1];
      LastTrueIsLast(front);
      assert forall j :: 0 <= j < |front| ==> f[j] == front[j];
    }
  }

  /** The index of the last piece that supplies `key`, or -1. */
  function LastSupplied(pieces: seq<string>, key: string, pct: string -> string): (j: int)
    ensures -1 <= j < |pieces|
  {
    LastTrue(SupplyFlags(pieces, key, pct))
  }

  /** `LastSupplied` finds a supplier, and no later piece supplies `key`. */
  lemma LastSuppliedIsLast(pieces: seq<string>, key: string, pct: string -> string)
    ensures LastSupplied(pieces, key, pct) >= 0 ==> LastSupplier(pieces, key, pct, LastSupplied(pieces, key, pct))
  {
    var f := SupplyFlags(pieces, key, pct);
    var j := LastTrue(f);
    LastTrueIsLast(f);
    if j >= 0 {
      SupplyFlagsAt(pieces, key, pct, j);
      forall j' | j < j' < |pieces| ensures !Supplies(pieces[j'], key, pct) {
        SupplyFlagsAt(pieces, key, pct, j');
      }
    }
  }

  /** `LastSupplied` is -1 exactly when no piece supplies `key`. */
  lemma NoSupplier(pieces: seq<string>, key: string, pct: string -> string)
    ensures LastSupplied(pieces, key, pct) == -1 <==> forall i :: 0 <= i < |pieces| ==> !Supplies(pieces[i], key, pct)
  {
    var f := SupplyFlags(pieces, key, pct);
    LastTrueIsLast(f);
    forall i | 0 <= i < |pieces| ensures f[i] == Supplies(pieces[i], key, pct) {
      SupplyFlagsAt(pieces, key, pct, i);
    }
  }

  /** A piece supplies `key` exactly when `parse_qsl` keeps it under that name. */
  lemma ParsePieceSupplies(piece: string, key: string, pct: string -> string)
    ensures Supplies(piece, key, pct) <==> ParsePiece(piece, pct).Some? && ParsePiece(piece, pct).value.0 == key
    ensures ParsePiece(piece, pct).Some? ==> ParsePiece(piece, pct).value.1 == Decode(RawValue(piece), pct)
  {
  }

  /** The effect of one more piece on the parsed dictionary, for one key. */
  lemma DictStep(pieces: seq<string>, key: string, pct: string -> string)
    requires pieces != []
    ensures var d := ToDict(ParsePieces(pieces, pct));
            var d0 := ToDict(ParsePieces(pieces[..|pieces| - 1], pct));
            var last := pieces[|pieces| - 1];
      && (Supplies(last, key, pct) ==> key in d && d[key] == Decode(RawValue(last), pct))
      && (!Supplies(last, key, pct) ==> (key in d <==> key in d0) && (key in d ==> d[key] == d0[key]))
  {
    var front, last := pieces[..|pieces| - 1], pieces[|pieces| - 1];
    ParsePieceSupplies(last, key, pct);
    if ParsePiece(last, pct).Some? {
      ToDictSnoc(ParsePieces(front, pct), ParsePiece(last, pct).value);
    }
  }

  /** `dict(parse_qsl(...))` holds `key` exactly when some piece supplies it,
      and then maps it to the decoded value of the LAST such piece. */
  lemma {:induction false} DictOfPieces(pieces: seq<string>, key: string, pct: string -> string)
    ensures var d, j := ToDict(ParsePieces(pieces, pct)), LastSupplied(pieces, key, pct);
      && (key in d <==> j >= 0)
      && (key in d ==> d[key] == Decode(RawValue(pieces[j]), pct))
    decreases |pieces|
  {
    if pieces != [] {
      var front := pieces[..|pieces| - 1];
      DictOfPieces(front, key, pct);
      DictStep(pieces, key, pct);
      var f0 := SupplyFlags(front, key, pct);
      var f := SupplyFlags(pieces, key, pct);
      assert f[..|f| - 1] == f0;
      if !Supplies(pieces[|pieces| - 1], key, pct) {
        var j := LastTrue(f0);
        if j >= 0 {
          assert pieces[j] == front[j];
        }
      }
    }
  }

  lemma DictHoldsSupplied(q: string, key: string, pct: string -> string)
    requires q != ""
    ensures key in ToDict(ParsePieces(Split(q, '&'), pct)) <==> Supplied(q, key, pct)
  {
    DictOfPieces(Split(q, '&'), key, pct);
    NoSupplier(Split(q, '&'), key, pct);
  }

  /** `_adopt_url` obtains credentials exactly when the lower-cased query
      supplies both keys with non-blank values; otherwise the KeyError names
      `userid` when that one is missing, and `session` only after it. */
  lemma CredentialsPresent(url: string, pct: string -> string)
    ensures var q := Lower(UrlQuery(url));
      && (Credentials(url, pct).Ok? <==> Supplied(q, "userid", pct) && Supplied(q, "session", pct))
      && (!Supplied(q, "userid", pct) ==> Credentials(url, pct) == Err(KeyMissing("userid")))
      && (Supplied(q, "userid", pct) && !Supplied(q, "session", pct) ==>
            Credentials(url, pct) == Err(KeyMissing("session")))
  {
    var q := Lower(UrlQuery(url));
    if q != "" {
      DictHoldsSupplied(q, "userid", pct);
      DictHoldsSupplied(q, "session", pct);
    }
  }

  /** Keys are found case-insensitively: two URLs that agree once lower-cased
      yield the same credentials or the same error. */
  lemma CaseInsensitive(url1: string, url2: string, pct: string -> string)
    requires Lower(url1) == Lower(url2)
    ensures Credentials(url1, pct) == Credentials(url2, pct)
  {
    LowerQuery(url1);
    LowerQuery(url2);
  }

  /** Lower-casing the query is the same as taking the query of the
      lower-cased URL (`?`, `#` and the deleted characters are not letters). */
  lemma LowerQuery(url: string)
    ensures Lower(UrlQuery(url)) == UrlQuery(Lower(url))
  {
    LowerRemoveChars(url, UnsafeUrlChars);
    var u := RemoveChars(url, UnsafeUrlChars);
    LowerHas(u, '#');
    var beforeFragment := if '#' in u then SplitOnce(u, '#').0 else u;
    if '#' in u {
      LowerSplitOnce(u, '#');
    }
    LowerHas(beforeFragment, '?');
    if '?' in beforeFragment {
      LowerSplitOnce(beforeFragment, '?');
    }
  }

  /** The characters of a piece's raw value all come from the query. */
  lemma RawValueChars(q: string, j: nat, k: nat)
    requires j < |Split(q, '&')| && '=' in Split(q, '&')[j] && k < |RawValue(Split(q, '&')[j])|
    ensures RawValue(Split(q, '&')[j])[k] in q
  {
    var piece := Split(q, '&')[j];
    var (name, value) := SplitOnce(piece, '=');
    assert piece[|name| + 1 + k] == value[k];
    SplitChars(q, '&', j, |name| + 1 + k);
  }

  /** A raw value from a query without upper-case letters has none itself. */
  lemma RawValuePlain(q: string, j: nat)
    requires NoUpper(q)
    requires j < |Split(q, '&')| && '=' in Split(q, '&')[j]
    ensures NoUpper(RawValue(Split(q, '&')[j]))
  {
    var raw := RawValue(Split(q, '&')[j]);
    forall k | 0 <= k < |raw| ensures !IsUpper(raw[k]) {
      RawValueChars(q, j, k);
    }
  }

  /** Decoding text without `%` and without upper-case letters keeps it free of them. */
  lemma DecodeNoUpper(raw: string, pct: string -> string)
    requires NoUpper(raw) && '%' !in raw
    ensures NoUpper(Decode(raw, pct))
  {
  }

  /** No piece of `q` that supplies `key` carries a `%` escape in its value. */
  predicate PlainSupply(q: string, key: string, pct: string -> string)
  {
    forall j :: 0 <= j < |Split(q, '&')| && Supplies(Split(q, '&')[j], key, pct) ==>
      '%' !in RawValue(Split(q, '&')[j])
  }

  /** A query without any `%` supplies every key plainly. */
  lemma NoEscapeIsPlain(q: string, key: string, pct: string -> string)
    requires '%' !in q
    ensures PlainSupply(q, key, pct)
  {
    forall j | 0 <= j < |Split(q, '&')| && Supplies(Split(q, '&')[j], key, pct)
      ensures '%' !in RawValue(Split(q, '&')[j])
    {
      var raw := RawValue(Split(q, '&')[j]);
      forall k | 0 <= k < |raw| ensures raw[k] != '%' {
        RawValueChars(q, j, k);
      }
    }
  }

  /** The value a dictionary built from a query without upper-case letters
      holds for `key` has no upper-case letter either, provided the pieces
      supplying `key` carry no `%` escape. */
  lemma ValueIsLower(q: string, key: string, pct: string -> string)
    requires NoUpper(q) && PlainSupply(q, key, pct)
    requires key in ToDict(ParsePieces(Split(q, '&'), pct))
    ensures NoUpper(ToDict(ParsePieces(Split(q, '&'), pct))[key])
  {
    var pieces := Split(q, '&');
    DictOfPieces(pieces, key, pct);
    LastSuppliedIsLast(pieces, key, pct);
    var j := LastSupplied(pieces, key, pct);
    RawValuePlain(q, j);
    DecodeNoUpper(RawValue(pieces[j]), pct);
  }

  /** When the pieces that supply `userid` and `session` carry no `%` escape
      in their values, the adopted credentials are themselves lower-case
      (a `%41` escape would still decode to `A`). */
  lemma AdoptedAreLowerCase(url: string, pct: string -> string)
    requires PlainSupply(Lower(UrlQuery(url)), "userid", pct)
    requires PlainSupply(Lower(UrlQuery(url)), "session", pct)
    ensures Credentials(url, pct).Ok? ==>
      NoUpper(Credentials(url, pct).value.0) && NoUpper(Credentials(url, pct).value.1)
  {
    if Credentials(url, pct).Ok? {
      var q := Lower(UrlQuery(url));
      LowerIsLower(UrlQuery(url));
      assert q != "";
      ValueIsLower(q, "userid", pct);
      ValueIsLower(q, "session", pct);
    }
  }

  lemma LowerKeyNames()
    ensures Lower("USERID=") == "userid=" && Lower("&SESSION=") == "&session="
  {
  }

  /** Lower-casing the query of a login redirect. */
  lemma LowerRedirectQuery(userid: string, session: string)
    ensures Lower("USERID=" + userid + "&SESSION=" + session)
            == ("userid" + ['='] + Lower(userid)) + ['&'] + ("session" + ['='] + Lower(session))
  {
    LowerConcat("USERID=" + userid + "&SESSION=", session);
    LowerConcat("USERID=" + userid, "&SESSION=");
    LowerConcat("USERID=", userid);
    LowerKeyNames();
  }

  /** Text without `%` and `+` decodes to itself. */
  lemma DecodePlain(s: string, pct: string -> string)
    requires '%' !in s && '+' !in s
    ensures Decode(s, pct) == s
  {
    assert ReplaceChar(s, '+', ' ') == s;
  }

  /** No character of `s` is special to `parse_qsl`. */
  predicate QueryPlain(s: string)
  {
    '&' !in s && '=' !in s && '%' !in s && '+' !in s
  }

  /** Parsing `<k1>=<a>&<k2>=<b>` when none of the four is special. */
  lemma ParseTwoPairs(k1: string, a: string, k2: string, b: string, pct: string -> string)
    requires QueryPlain(k1) && QueryPlain(a) && QueryPlain(k2) && QueryPlain(b)
    requires a != "" && b != ""
    ensures ParseQsl((k1 + ['='] + a) + ['&'] + (k2 + ['='] + b), pct) == [(k1, a), (k2, b)]
  {
    var p1, p2 := k1 + ['='] + a, k2 + ['='] + b;
    assert '&' !in p1 && '&' !in p2;
    SplitAt(p1, '&', p2);
    SplitOnceAt(k1, '=', a);
    SplitOnceAt(k2, '=', b);
    DecodePlain(k1, pct);
    DecodePlain(k2, pct);
    DecodePlain(a, pct);
    DecodePlain(b, pct);
    assert ParsePiece(p1, pct) == Some((k1, a));
    assert ParsePiece(p2, pct) == Some((k2, b));
    assert [p1, p2][..1] == [p1];
    assert ParsePieces([p1], pct) == [(k1, a)];
  }

  /** The redirect ScheduleMaster sends after a login,
      `<base>?USERID=<userid>&SESSION=<session>`: both keys are found although
      they are upper-case, and the adopted values are the lower-cased tokens. */
  lemma LoginRedirectCredentials(base: string, userid: string, session: string, pct: string -> string)
    requires '?' !in base && '#' !in base && NoUnsafe(base)
    requires QueryPlain(userid) && '#' !in userid && NoUnsafe(userid) && userid != ""
    requires QueryPlain(session) && '#' !in session && NoUnsafe(session) && session != ""
    ensures Credentials(base + "?USERID=" + userid + "&SESSION=" + session, pct)
            == Ok((Lower(userid), Lower(session)))
  {
    var url := base + "?USERID=" + userid + "&SESSION=" + session;
    var query := "USERID=" + userid + "&SESSION=" + session;
    assert url == base + "?" + query;
    assert '#' !in query && NoUnsafe(url);
    RedirectQuery(base, query);
    var a, b := Lower(userid), Lower(session);
    LowerRedirectQuery(userid, session);
    LowerPlain(userid);
    LowerPlain(session);
    KeyNames();
    ParseTwoPairs("userid", a, "session", b, pct);
    ToDictTwo("userid", a, "session", b);
    CredentialsOf(url, pct, a, b);
  }

  /** The query of `<base>?<query>` when neither holds a fragment mark. */
  lemma RedirectQuery(base: string, query: string)
    requires '?' !in base && '#' !in base && '#' !in query && NoUnsafe(base + "?" + query)
    ensures UrlQuery(base + "?" + query) == query
  {
    assert base + "?" + query == base + "?" + query + "";
    UrlQueryOf(base, query, "");
  }

  /** Both keys present in the dictionary gives the credentials. */
  lemma CredentialsOf(url: string, pct: string -> string, a: string, b: string)
    requires QueryArgs(url, pct) == map["userid" := a, "session" := b]
    ensures Credentials(url, pct) == Ok((a, b))
  {
  }

  lemma KeyNames()
    ensures QueryPlain("userid") && QueryPlain("session") && "userid" != "session"
  {
  }

  lemma ToDictTwo(k1: string, a: string, k2: string, b: string)
    requires k1 != k2
    ensures ToDict([(k1, a), (k2, b)]) == map[k1 := a, k2 := b]
  {
    assert [(k1, a), (k2, b)][..1] == [(k1, a)];
    assert [(k1, a)][..0] == [];
    assert ToDict([(k1, a)]) == map[k1 := a];
  }

  /** Lower-casing keeps a token free of query syntax. */
  lemma LowerPlain(s: string)
    requires QueryPlain(s)
    ensures QueryPlain(Lower(s)) && |Lower(s)| == |s|
  {
    LowerHas(s, '&');
    LowerHas(s, '=');
    LowerHas(s, '%');
    LowerHas(s, '+');
  }
}
