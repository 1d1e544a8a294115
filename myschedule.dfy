/** `get_my_schedule`: the user's reservations, one `Schedule` per table
    cell of the schedule list that has exactly seven parts. */
module MySchedule {
  import opened Common

  /** A point in time as `dateutil.parser.parse` returns it. */
  datatype DateTime = DateTime(year: int, month: int, day: int, hour: int, minute: int, second: int)

  /** The `Schedule` record; every field is optional and defaults to None. */
  datatype Schedule = Schedule(
    owner: Option<string> := None,
    startTime: Option<DateTime> := None,
    endTime: Option<DateTime> := None,
    resource: Option<string> := None,
    notes: Option<string> := None)

  /** `Schedule()` is the record with every field None. */
  lemma ScheduleDefaults()
    ensures Schedule() == Schedule(None, None, None, None, None)
  {
  }

  /** The texts the pattern ` ?- ?` matches: a dash with an optional space
      on either side. */
  predicate IsDash(x: string)
  {
    || (|x| == 1 && x[0] == '-')
    || (|x| == 2 && x[0] == ' ' && x[1] == '-')
    || (|x| == 2 && x[0] == '-' && x[1] == ' ')
    || (|x| == 3 && x[0] == ' ' && x[1] == '-' && x[2] == ' ')
  }

  /** These are exactly the four texts `-`, ` -`, `- ` and ` - `. */
  lemma DashTexts(x: string)
    ensures IsDash(x) <==> x == "-" || x == " -" || x == "- " || x == " - "
  {
    if IsDash(x) {
      if |x| == 1 {
        assert x == [x[0]];
      } else if |x| == 2 {
        assert x == [x[0], x[1]];
      } else {
        assert x == [x[0], x[1], x[2]];
      }
    }
  }

  /** Where `$` matches without MULTILINE: at the very end, or just before a
      final newline. */
  predicate AtEnd(s: string, e: nat)
  {
    e == |s| || (e + 1 == |s| && s[e] == '\n')
  }

  /** The pattern ` ?- ?$` matches `s[p..e]`. */
  predicate MatchAt(s: string, p: nat, e: nat)
  {
    p <= e <= |s| && IsDash(s[p..e]) && AtEnd(s, e)
  }

  /** `s[p..e]` is the match `re.sub` replaces first: no match starts earlier. */
  ghost predicate Leftmost(s: string, p: nat, e: nat)
  {
    MatchAt(s, p, e) && forall p': nat, e': nat :: MatchAt(s, p', e') ==> p <= p'
  }

  /** `s` without a final newline. */
  function Body(s: string): (t: string)
    ensures s == t || s == t + "\n"
    ensures s == t ==> |s| == 0 || s[|s| - 1] != '\n'
  {
    if |s| > 0 && s[|s| - 1] == '\n' then s[..|s| - 1] else s
  }

  /** The length of the longest dash text `t` ends with, or 0. */
  function DashLength(t: string): (k: nat)
    ensures k <= 3 && k <= |t|
    ensures k > 0 ==> IsDash(t[|t| - k..])
  {
    var n := |t|;
    if n >= 3 && t[n - 3] == ' ' && t[n - 2] == '-' && t[n - 1] == ' ' then 3
    else if n >= 2 && ((t[n - 2] == ' ' && t[n - 1] == '-') || (t[n - 2] == '-' && t[n - 1] == ' ')) then 2
    else if n >= 1 && t[n - 1] == '-' then 1
    else 0
  }

  /** Every match ends where the body of `s` ends. */
  lemma MatchShape(s: string, p: nat, e: nat)
    requires MatchAt(s, p, e)
    ensures e == |Body(s)| && p < e
    ensures IsDash(Body(s)[p..])
  {
    var x := s[p..e];
    assert '\n' !in x;
    assert e == |s| ==> s[e - 1] == x[|x| - 1];
    assert Body(s)[p..] == x;
  }

  /** A dash text ending the body of `s` is a match. */
  lemma MatchOfShape(s: string, p: nat)
    requires p <= |Body(s)| && IsDash(Body(s)[p..])
    ensures MatchAt(s, p, |Body(s)|)
  {
    assert s[p..|Body(s)|] == Body(s)[p..];
  }

  /** Any dash text ending `t` is at most `DashLength(t)` long. */
  lemma DashLengthLongest(t: string, p: nat)
    requires p <= |t| && IsDash(t[p..])
    ensures |t| - p <= DashLength(t)
  {
    var x := t[p..];
    assert forall i :: 0 <= i < |x| ==> x[i] == t[p + i];
  }

  /** `re.sub(' ?- ?$', '', s)`, computed from the end: the longest dash text
      before the final newline is cut out. */
  function StripDash(s: string): (r: string)
    ensures |r| <= |s| <= |r| + 3
    ensures exists p: nat :: p <= |r| && r == s[..p] + s[p + (|s| - |r|)..]
  {
    var t := Body(s);
    var p := |t| - DashLength(t);
    assert s[..p] == t[..p];
    assert s[..p] + s[p + DashLength(t)..] == t[..p] + s[|t|..];
    t[..p] + s[|t|..]
  }

  /** `StripDash` is what `re.sub` does: the leftmost match is removed; with
      no match `s` is returned unchanged. */
  lemma StripDashLeftmost(s: string)
    ensures (forall p: nat, e: nat :: !MatchAt(s, p, e)) ==> StripDash(s) == s
    ensures (exists p: nat, e: nat :: MatchAt(s, p, e)) ==>
              exists p: nat, e: nat :: Leftmost(s, p, e) && StripDash(s) == s[..p] + s[e..]
  {
    var t := Body(s);
    var k := DashLength(t);
    assert StripDash(s) == s[..|t| - k] + s[|t|..];
    if k == 0 {
      forall p: nat, e: nat | MatchAt(s, p, e) ensures false {
        MatchShape(s, p, e);
        DashLengthLongest(t, p);
      }
    } else {
      MatchOfShape(s, |t| - k);
      forall p': nat, e': nat | MatchAt(s, p', e') ensures |t| - k <= p' {
        MatchShape(s, p', e');
        DashLengthLongest(t, p');
      }
      assert Leftmost(s, |t| - k, |t|);
    }
  }

  /** Every match overlaps the leftmost one and ends where it ends, so the
      left-to-right scan of `re.sub` makes exactly one replacement. */
  lemma SingleReplacement(s: string, p: nat, e: nat, p': nat, e': nat)
    requires Leftmost(s, p, e) && MatchAt(s, p', e')
    ensures e' == e && p <= p' < e
  {
    MatchShape(s, p, e);
    MatchShape(s, p', e');
  }

  /** The dash after a start time is removed together with the space before it. */
  lemma StripsSpacedDash(a: string)
    ensures StripDash(a + " -") == a
  {
    var s := a + " -";
    assert s[|s| - 1] == '-' && s[|s| - 2] == ' ';
    assert Body(s) == s;
    assert DashLength(s) == 2;
    assert s[..|a|] == a;
  }

  /** A dash between spaces at the end is removed with both spaces. */
  lemma StripsSpacedDashSpace(a: string)
    ensures StripDash(a + " - ") == a
  {
    var s := a + " - ";
    assert s[|s| - 1] == ' ' && s[|s| - 2] == '-' && s[|s| - 3] == ' ';
    assert Body(s) == s;
    assert DashLength(s) == 3;
    assert s[..|a|] == a;
  }

  /** After a character other than a space, a lone final dash is removed. */
  lemma StripsBareDash(a: string)
    requires |a| == 0 || a[|a| - 1] != ' '
    ensures StripDash(a + "-") == a
  {
    var s := a + "-";
    assert s[|s| - 1] == '-';
    assert |a| > 0 ==> s[|s| - 2] == a[|a| - 1];
    assert Body(s) == s;
    assert DashLength(s) == 1;
    assert s[..|a|] == a;
  }

  /** Text that ends in neither a dash, a space nor a newline is left alone. */
  lemma NoDashUnchanged(a: string)
    requires |a| == 0 || (a[|a| - 1] != '-' && a[|a| - 1] != ' ' && a[|a| - 1] != '\n')
    ensures StripDash(a) == a
  {
    assert Body(a) == a;
    assert DashLength(a) == 0;
    assert a[..|a|] + a[|a|..] == a;
  }

  /** The `Schedule` built from one seven-part cell: start, end, resource and
      notes are parts 1, 2, 3 and 5; the start is parsed (after its trailing
      dash is removed) before the end, and the first text the parser rejects
      is the error. */
  function RowSchedule(row: seq<string>, parse: string -> Option<DateTime>): (r: Result<Schedule, Error>)
    requires |row| == 7
    ensures r.Ok? <==> parse(StripDash(row[1])).Some? && parse(row[2]).Some?
    ensures parse(StripDash(row[1])).None? ==> r == Err(UnparsableDate(StripDash(row[1])))
    ensures parse(StripDash(row[1])).Some? && parse(row[2]).None? ==> r == Err(UnparsableDate(row[2]))
    ensures r.Ok? ==> && r.value.owner == Some("you")
                      && r.value.startTime == parse(StripDash(row[1]))
                      && r.value.endTime == parse(row[2])
                      && r.value.resource == Some(row[3])
                      && r.value.notes == Some(row[5])
  {
    var start := StripDash(row[1]);
    match parse(start)
    case None => Err(UnparsableDate(start))
    case Some(startTime) =>
      match parse(row[2])
      case None => Err(UnparsableDate(row[2]))
      case Some(endTime) =>
        Ok(Schedule(startTime := Some(startTime), endTime := Some(endTime), owner := Some("you"),
                    notes := Some(row[5]), resource := Some(row[3])))
  }

  /** What the loop over the cells computes: the schedules of the seven-part
      cells in order, or the error of the first one that does not parse. */
  function Schedules(rows: seq<seq<string>>, parse: string -> Option<DateTime>): (r: Result<seq<Schedule>, Error>)
    ensures r.Ok? ==> |r.value| <= |rows|
    ensures r.Err? ==> r.error.UnparsableDate?
    decreases |rows|
  {
    if rows == [] then Ok([])
    else
      match Schedules(rows[..|rows| - 1], parse)
      case Err(e) => Err(e)
      case Ok(out) =>
        var row := rows[|rows| - 1];
        if |row| != 7 then Ok(out)
        else match RowSchedule(row, parse)
          case Err(e) => Err(e)
          case Ok(x) => Ok(out + [x])
  }

  /** The cells with exactly seven parts, in order. */
  function Complete(rows: seq<seq<string>>): (c: seq<seq<string>>)
    ensures |c| <= |rows|
    ensures forall j :: 0 <= j < |c| ==> |c[j]| == 7
    decreases |rows|
  {
    if rows == [] then []
    else Complete(rows[..|rows| - 1]) + (if |rows[|rows| - 1]| == 7 then [rows[|rows| - 1]] else [])
  }

  /** A cell the loop does not reject: it is skipped, or it parses. */
  predicate Parses(row: seq<string>, parse: string -> Option<DateTime>)
  {
    |row| != 7 || RowSchedule(row, parse).Ok?
  }

  /** The loop succeeds exactly when every seven-part cell parses. */
  lemma {:induction false} SchedulesOk(rows: seq<seq<string>>, parse: string -> Option<DateTime>)
    ensures Schedules(rows, parse).Ok? <==> forall i :: 0 <= i < |rows| ==> Parses(rows[i], parse)
    decreases |rows|
  {
    if rows != [] {
      var init := rows[..|rows| - 1];
      SchedulesOk(init, parse);
      assert forall i :: 0 <= i < |init| ==> init[i] == rows[i];
    }
  }

  /** On success there is one schedule per seven-part cell, in the cells'
      order, each built from its cell. */
  lemma {:induction false} SchedulesRows(rows: seq<seq<string>>, parse: string -> Option<DateTime>)
    requires Schedules(rows, parse).Ok?
    ensures |Schedules(rows, parse).value| == |Complete(rows)|
    ensures forall j :: 0 <= j < |Complete(rows)| ==>
              && RowSchedule(Complete(rows)[j], parse).Ok?
              && Schedules(rows, parse).value[j] == RowSchedule(Complete(rows)[j], parse).value
    decreases |rows|
  {
    if rows != [] {
      SchedulesRows(rows[..|rows| - 1], parse);
    }
  }

  /** Every schedule the loop returns is owned by "you" and carries its
      cell's resource and notes. */
  lemma {:induction false} AllYours(rows: seq<seq<string>>, parse: string -> Option<DateTime>)
    requires Schedules(rows, parse).Ok?
    ensures forall x :: x in Schedules(rows, parse).value ==> x.owner == Some("you")
    ensures |Schedules(rows, parse).value| == |Complete(rows)|
    ensures forall j :: 0 <= j < |Complete(rows)| ==>
              && Schedules(rows, parse).value[j].resource == Some(Complete(rows)[j][3])
              && Schedules(rows, parse).value[j].notes == Some(Complete(rows)[j][5])
  {
    SchedulesRows(rows, parse);
  }

  /** The cells are processed in order: the result for `a + b` is the result
      for `a` followed by the result for `b`, and the first error wins. */
  lemma {:induction false} SchedulesAppend(a: seq<seq<string>>, b: seq<seq<string>>, parse: string -> Option<DateTime>)
    ensures Schedules(a + b, parse) ==
      match Schedules(a, parse)
      case Err(e) => Err(e)
      case Ok(x) =>
        match Schedules(b, parse)
        case Err(e) => Err(e)
        case Ok(y) => Ok(x + y)
    decreases |b|
  {
    if b == [] {
      assert a + b == a;
      if Schedules(a, parse).Ok? {
        assert Schedules(a, parse).value + [] == Schedules(a, parse).value;
      }
    } else {
      var init := b[..|b| - 1];
      SchedulesAppend(a, init, parse);
      assert (a + b)[..|a + b| - 1] == a + init;
      assert (a + b)[|a + b| - 1] == b[|b| - 1];
      match Schedules(a, parse)
      case Err(e) =>
      case Ok(x) =>
        match Schedules(init, parse)
        case Err(e) =>
        case Ok(y) =>
          var row := b[|b| - 1];
          if |row| == 7 && RowSchedule(row, parse).Ok? {
            assert x + (y + [RowSchedule(row, parse).value]) == (x + y) + [RowSchedule(row, parse).value];
          }
    }
  }

  /** Once a prefix of the cells fails, so do all the cells, with that error. */
  lemma SchedulesPrefixErr(rows: seq<seq<string>>, n: nat, parse: string -> Option<DateTime>)
    requires n <= |rows| && Schedules(rows[..n], parse).Err?
    ensures Schedules(rows, parse) == Schedules(rows[..n], parse)
  {
    SchedulesAppend(rows[..n], rows[n..], parse);
    assert rows[..n] + rows[n..] == rows;
  }

  /** The loop of `get_my_schedule` over the cells' part texts. */
  method CollectSchedules(rows: seq<seq<string>>, parse: string -> Option<DateTime>) returns (r: Result<seq<Schedule>, Error>)
    ensures r == Schedules(rows, parse)
  {
    var out: seq<Schedule> := [];
    var i := 0;
    while i < |rows|
      invariant 0 <= i <= |rows|
      invariant Schedules(rows[..i], parse) == Ok(out)
    {
      assert rows[..i + 1][..i] == rows[..i] && rows[..i + 1][i] == rows[i];
      var elms := rows[i];
      if |elms| != 7 {
        i := i + 1;
        continue;
      }
      var start := StripDash(elms[1]);
      var startTime := parse(start);
      if startTime.None? {
        SchedulesPrefixErr(rows, i + 1, parse);
        return Err(UnparsableDate(start));
      }
      var endTime := parse(elms[2]);
      if endTime.None? {
        SchedulesPrefixErr(rows, i + 1, parse);
        return Err(UnparsableDate(elms[2]));
      }
      out := out + [Schedule(startTime := startTime, endTime := endTime, owner := Some("you"),
                             notes := Some(elms[5]), resource := Some(elms[3]))];
      i := i + 1;
    }
    assert rows[..i] == rows;
    return Ok(out);
  }
}
