/**
 * The calendar's event handlers in server/event.go, with the HTTP plumbing,
 * the session lookup and the SQL driver replaced by plain inputs: the user's
 * zone preferences, the parsed query values, and the rows the query returns.
 */
module Events {
  import opened Options
  import opened Civil
  import Recurrence
  import opened Seqs

  /** A row of `calendar_events`, with the attendee list the handlers attach to it. */
  datatype Event = Event(
    id: string,
    title: string,
    start: Time,
    end: Time,
    attendees: seq<string>,
    created: Time,
    owner: string,
    channel: Option<string>,
    processed: Option<int>,
    recurrent: bool,
    recurrence: Recurrence.Field)

  /** One row of an events-by-members join: the event columns and `cm."user"` (NULL for no member). */
  datatype Row = Row(event: Event, user: Option<string>)

  /** Where a query can fail: the query itself, or scanning the row at a given position. */
  datatype Fault = NoFault | QueryError | ScanError(row: nat)

  /** What a handler writes: a JSON answer, or nothing (it logged an error and returned). */
  datatype Response<T> = Answer(data: T) | NoAnswer

  /** The query fails, or the scan fails at a row the result actually has. */
  predicate Aborts(fault: Fault, rowCount: nat) {
    fault == QueryError || (fault.ScanError? && fault.row < rowCount)
  }

  // ---------------------------------------------------------------------
  // GetUserLocation

  /** The tz database, reduced to fixed offsets (seconds east of UTC) by zone name. */
  type ZoneDb = map<string, int>

  /** Names `time.LoadLocation` resolves without the database. */
  predicate IsBuiltinZone(name: string) {
    name == "" || name == "UTC" || name == "Local"
  }

  /**
   * `time.LoadLocation`: "" and "UTC" are UTC, "Local" is the server's own
   * zone (offset `local`); any other name must be in the database.
   */
  function LoadLocation(db: ZoneDb, local: int, name: string): (r: Option<int>)
    ensures r.None? <==> !IsBuiltinZone(name) && name !in db
    ensures r.Some? && !IsBuiltinZone(name) ==> r.value == db[name]
    ensures r.Some? && (name == "" || name == "UTC") ==> r.value == 0
    ensures name == "Local" ==> r == Some(local)
  {
    if name == "" || name == "UTC" then Some(0)
    else if name == "Local" then Some(local)
    else if name in db then Some(db[name])
    else None
  }

  /** A Go map read: a missing key reads as the empty string. */
  function Lookup(m: map<string, string>, key: string): string {
    if key in m then m[key] else ""
  }

  /** The zone name `GetUserLocation` tries: automatic iff the user enabled it. */
  function ZoneName(timezone: map<string, string>): string {
    if Lookup(timezone, "useAutomaticTimezone") == "true"
    then Lookup(timezone, "automaticTimezone")
    else Lookup(timezone, "manualTimezone")
  }

  /** `GetUserLocation`: the user's zone, or UTC when its name cannot be loaded. */
  function GetUserLocation(db: ZoneDb, local: int, timezone: map<string, string>): (offset: int)
    ensures LoadLocation(db, local, ZoneName(timezone)).Some? ==>
      offset == LoadLocation(db, local, ZoneName(timezone)).value
    ensures LoadLocation(db, local, ZoneName(timezone)).None? ==> offset == 0
  {
    match LoadLocation(db, local, ZoneName(timezone))
    case Some(loc) => loc
    case None => 0
  }

  /** The automatic zone is used exactly when "useAutomaticTimezone" is "true"; a
      missing preference reads as UTC, "Local" as the server's zone, and an
      unknown name never fails, it gives UTC. */
  lemma UserLocationChoice(db: ZoneDb, local: int, timezone: map<string, string>)
    ensures var chosen := if "useAutomaticTimezone" in timezone && timezone["useAutomaticTimezone"] == "true"
                          then "automaticTimezone" else "manualTimezone";
      var name := if chosen in timezone then timezone[chosen] else "";
      GetUserLocation(db, local, timezone) ==
        (if name == "Local" then local
         else if name in db && name != "" && name != "UTC" then db[name] else 0)
  {
  }

  // ---------------------------------------------------------------------
  // CreateEvent

  /** `event.Recurrence != nil && len(*event.Recurrence) > 0`. */
  predicate HasRecurrence(r: Recurrence.Field) {
    r.Present? && r.codes.Some? && |r.codes.value| > 0
  }

  /**
   * The event row `CreateEvent` inserts, from the decoded request body
   * `submitted`: a new id, the creation instant in UTC, the acting user as
   * owner, the submitted date/time fields read as wall-clock time in the
   * user's zone and stored as UTC instants, and `recurrent` derived from the
   * recurrence list. The `processed` column is not written (NULL).
   */
  function StoredRow(submitted: Event, id: string, now: int, userId: string, userLoc: int): (stored: Event)
    ensures stored.id == id && stored.owner == userId && stored.created == Time(now, 0)
    ensures stored.start.offset == 0 && stored.end.offset == 0
    ensures FieldsOf(In(stored.start, userLoc)) == FieldsOf(submitted.start)
    ensures FieldsOf(In(stored.end, userLoc)) == FieldsOf(submitted.end)
    ensures stored.recurrent <==> |Codes(submitted)| > 0
    ensures stored.processed.None?
    ensures stored.(start := submitted.start, end := submitted.end, id := submitted.id,
                    created := submitted.created, owner := submitted.owner,
                    processed := submitted.processed, recurrent := submitted.recurrent) == submitted
  {
    ToLocalOfToUTC(FieldsOf(submitted.start), userLoc);
    ToLocalOfToUTC(FieldsOf(submitted.end), userLoc);
    submitted.(
      id := id,
      created := Time(now, 0),
      owner := userId,
      start := Time(ToUTC(FieldsOf(submitted.start), userLoc), 0),
      end := Time(ToUTC(FieldsOf(submitted.end), userLoc), 0),
      processed := None,
      recurrent := HasRecurrence(submitted.recurrence))
  }

  /**
   * `CreateEvent`: inserts the row, then one member row per attendee, and
   * answers with the stored row. A failed event insert ends it without an
   * answer. Each member insert overwrites the error of the one before and only
   * the last is checked, so it also gives no answer when the LAST attendee's
   * insert fails, and ignores the failure of any earlier one. The id, the
   * clock and the failing inserts are inputs.
   */
  method CreateEvent(submitted: Event, id: string, now: int, userId: string, userLoc: int,
                     eventInsertFails: bool, memberFails: set<string>)
    returns (r: Response<Event>)
    ensures var attendees := submitted.attendees;
      r.Answer? <==> !eventInsertFails && (attendees == [] || attendees[|attendees| - 1] !in memberFails)
    ensures r.Answer? ==> r.data == StoredRow(submitted, id, now, userId, userLoc)
  {
    if eventInsertFails {
      return NoAnswer;
    }
    var attendees := submitted.attendees;
    var failed := false;
    var i := 0;
    while i < |attendees|
      invariant 0 <= i <= |attendees|
      invariant failed <==> i > 0 && attendees[i - 1] in memberFails
    {
      failed := attendees[i] in memberFails;
      i := i + 1;
    }
    if failed {
      return NoAnswer;
    }
    return Answer(StoredRow(submitted, id, now, userId, userLoc));
  }

  // ---------------------------------------------------------------------
  // GetEvent

  /** Go's zero `time.Time` (0001-01-01T00:00:00Z). */
  const ZeroTime: Time := Time(-62135596800 * 1_000_000_000, 0)

  /** The zero `Event`, what `GetEvent` starts from before any row is scanned. */
  const ZeroEvent: Event := Event("", "", ZeroTime, ZeroTime, [], ZeroTime, "", None, None, false, Recurrence.Missing)

  /** The members of an event: the non-NULL `user` values of its rows, in row order. */
  function Members(rows: seq<Row>): (users: seq<string>)
    ensures |users| <= |rows|
  {
    if rows == [] then []
    else
      var last := rows[|rows| - 1];
      var prefix := Members(rows[..|rows| - 1]);
      if last.user.Some? then prefix + [last.user.value] else prefix
  }

  /** Every member value is the user of some row, and every non-NULL user is a member. */
  lemma {:induction false} MembersContents(rows: seq<Row>)
    ensures forall u :: u in Members(rows) <==> exists i :: 0 <= i < |rows| && rows[i].user == Some(u)
  {
    if rows != [] {
      var p := rows[..|rows| - 1];
      MembersContents(p);
      assert forall i :: 0 <= i < |p| ==> p[i] == rows[i];
      var last := rows[|rows| - 1];
      if last.user.Some? {
        assert rows[|rows| - 1].user == Some(last.user.value);
      }
    }
  }

  /** The rows of a query result that satisfy its WHERE clause, in table order. */
  function Filter(rows: seq<Row>, keep: Row -> bool): (r: seq<Row>)
    ensures |r| <= |rows|
    ensures forall x :: x in r <==> x in rows && keep(x)
  {
    if rows == [] then []
    else
      var prefix := Filter(rows[..|rows| - 1], keep);
      var last := rows[|rows| - 1];
      assert rows == rows[..|rows| - 1] + [last];
      if keep(last) then prefix + [last] else prefix
  }

  /** The rows `GetEvent` selects: those of the requested event. */
  function RowsOfEvent(rows: seq<Row>, eventId: string): (r: seq<Row>)
    ensures forall x :: x in r <==> x in rows && x.event.id == eventId
  {
    Filter(rows, (x: Row) => x.event.id == eventId)
  }

  /** The answer of `GetEvent` built from its scanned rows: the columns of the
      last row scanned (or the zero event), the collected members as attendees,
      and the times shown in the user's zone. */
  function EventAnswer(rows: seq<Row>, userLoc: int): Event {
    var e := if rows == [] then ZeroEvent else rows[|rows| - 1].event;
    Event(e.id, e.title, In(e.start, userLoc), In(e.end, userLoc), Members(rows),
          e.created, e.owner, e.channel, None, false, e.recurrence)
  }

  /**
   * `GetEvent`: selects the rows of one event, folds their member values into
   * the attendee list and shows the times in the user's zone; a query or
   * scan failure ends the request without an answer.
   */
  method GetEvent(table: seq<Row>, eventId: string, userLoc: int, fault: Fault)
    returns (r: Response<Event>)
    ensures var rows := RowsOfEvent(table, eventId);
      r == if Aborts(fault, |rows|) then NoAnswer else Answer(EventAnswer(rows, userLoc))
  {
    if fault == QueryError {
      return NoAnswer;
    }
    var rows := RowsOfEvent(table, eventId);
    var members: seq<string> := [];
    var eventDb := ZeroEvent;
    var i := 0;
    while i < |rows|
      invariant 0 <= i <= |rows|
      invariant members == Members(rows[..i])
      invariant eventDb == if i == 0 then ZeroEvent else rows[i - 1].event
      invariant !(fault.ScanError? && fault.row < i)
    {
      if fault == ScanError(i) {
        return NoAnswer;
      }
      TakeTake(rows, i);
      eventDb := rows[i].event;
      if rows[i].user.Some? {
        members := members + [rows[i].user.value];
      }
      i := i + 1;
    }
    TakeAll(rows, i);
    var event := Event(eventDb.id, eventDb.title, eventDb.start, eventDb.end, members,
                       eventDb.created, eventDb.owner, eventDb.channel, None, false, eventDb.recurrence);
    event := event.(start := In(event.start, userLoc), end := In(event.end, userLoc));
    return Answer(event);
  }


  // ---------------------------------------------------------------------
  // GetEvents

  /** The WHERE clause of `GetEvents`: rows the user attends or owns, starting
      inside [lo, hi] (both ends included) or recurrent. */
  predicate InCalendar(row: Row, userId: string, lo: int, hi: int) {
    (row.user == Some(userId) || row.event.owner == userId) &&
    ((lo <= row.event.start.at && row.event.start.at <= hi) || row.event.recurrent)
  }

  function SelectCalendar(rows: seq<Row>, userId: string, lo: int, hi: int): (r: seq<Row>)
    ensures forall x :: x in r <==> x in rows && InCalendar(x, userId, lo, hi)
  {
    Filter(rows, (x: Row) => InCalendar(x, userId, lo, hi))
  }

  /** A selected row's event as `GetEvents` scans it (there is no attendee
      column and `processed` is not selected) with its start and end shown in
      the user's zone. */
  function Shown(e: Event, loc: int): (r: Event)
    ensures r.start.at == e.start.at && r.end.at == e.end.at
    ensures r.start.offset == loc && r.end.offset == loc
    ensures r.attendees == [] && r.processed.None?
    ensures r.(start := e.start, end := e.end, attendees := e.attendees, processed := e.processed) == e
  {
    e.(start := In(e.start, loc), end := In(e.end, loc), attendees := [], processed := None)
  }

  /** The selected rows' events, shown in the user's zone. */
  function ShownEvents(rows: seq<Row>, loc: int): (evs: seq<Event>)
    ensures |evs| == |rows|
    ensures forall i :: 0 <= i < |rows| ==> evs[i] == Shown(rows[i].event, loc)
  {
    seq(|rows|, i requires 0 <= i < |rows| => Shown(rows[i].event, loc))
  }

  /** The ids occurring in a list of events. */
  function Ids(evs: seq<Event>): (r: set<string>)
    ensures forall id :: id in r <==> exists i :: 0 <= i < |evs| && evs[i].id == id
  {
    set e | e in evs :: e.id
  }

  /** Non-recurring events, kept once per id, in the order their first row came. */
  function Singles(evs: seq<Event>): seq<Event> {
    if evs == [] then []
    else
      var prefix := Singles(evs[..|evs| - 1]);
      var last := evs[|evs| - 1];
      if last.recurrent || last.id in Ids(prefix) then prefix else prefix + [last]
  }

  /** The weekday codes of an event (a nil pointer or a nil list has none). */
  function Codes(e: Event): seq<int> {
    if e.recurrence.Present? && e.recurrence.codes.Some? then e.recurrence.codes.value else []
  }

  /** How many times `w` occurs in `codes`. */
  function Count(codes: seq<int>, w: int): (n: nat)
    ensures n <= |codes|
    ensures n > 0 <==> w in codes
  {
    if codes == [] then 0
    else Count(codes[..|codes| - 1], w) + (if codes[|codes| - 1] == w then 1 else 0)
  }

  function Repeat(e: Event, n: nat): (r: seq<Event>)
    ensures |r| == n && forall i :: 0 <= i < n ==> r[i] == e
  {
    seq(n, _ => e)
  }

  /** The recurrent events filed under weekday code `w`: each recurrent row once
      per occurrence of `w` in its codes, in row order. */
  function Bucket(evs: seq<Event>, w: int): seq<Event> {
    if evs == [] then []
    else
      var last := evs[|evs| - 1];
      Bucket(evs[..|evs| - 1], w) + (if last.recurrent then Repeat(last, Count(Codes(last), w)) else [])
  }

  /** A recurrent row whose recurrence column is NULL: dereferencing the nil pointer panics. */
  predicate Crashes(evs: seq<Event>) {
    exists i :: 0 <= i < |evs| && evs[i].recurrent && evs[i].recurrence.Missing?
  }

  function GetOrEmpty(m: map<int, seq<Event>>, w: int): seq<Event> {
    if w in m then m[w] else []
  }

  /** The weekday map holds, under every code, the bucket of that code. */
  ghost predicate Filed(buckets: map<int, seq<Event>>, evs: seq<Event>) {
    forall w :: GetOrEmpty(buckets, w) == Bucket(evs, w)
  }

  /** How many 24-hour steps the cursor takes from `start` before reaching `end`. */
  function DayCount(start: int, end: int): (n: nat)
    ensures forall k :: 0 <= k < n ==> start + k * 86_400_000_000_000 < end
    ensures start + n * 86_400_000_000_000 >= end
    ensures end <= start ==> n == 0
  {
    if end <= start then 0
    else
      var n := (end - start + 86_400_000_000_000 - 1) / 86_400_000_000_000;
      CeilSteps(end - start);
      n
  }

  lemma CeilSteps(span: int)
    requires span > 0
    ensures var n := (span + 86_400_000_000_000 - 1) / 86_400_000_000_000;
      n >= 1 && (n - 1) * 86_400_000_000_000 < span && n * 86_400_000_000_000 >= span &&
      forall k :: 0 <= k < n ==> k * 86_400_000_000_000 < span
  {
    var n := (span + 86_400_000_000_000 - 1) / 86_400_000_000_000;
    DayDivMod(span + 86_400_000_000_000 - 1);
    forall k | 0 <= k < n
      ensures k * 86_400_000_000_000 < span
    {
      assert k <= n - 1;
      assert k * 86_400_000_000_000 <= (n - 1) * 86_400_000_000_000;
    }
  }

  /**
   * An occurrence of `ev` on the cursor's day: the cursor's year, month and
   * day with the time of day of `ev`'s start (resp. end) in `ev`'s own zone;
   * every other field is copied.
   */
  function Redate(ev: Event, cursor: Time): (o: Event)
    ensures var c := FieldsOf(cursor);
      var s := FieldsOf(ev.start);
      var e := FieldsOf(ev.end);
      FieldsOf(o.start) == Fields(c.year, c.month, c.day, s.hour, s.minute, s.second, s.nanosecond) &&
      FieldsOf(o.end) == Fields(c.year, c.month, c.day, e.hour, e.minute, e.second, e.nanosecond)
    ensures o.start.offset == ev.start.offset && o.end.offset == ev.end.offset
    ensures o.(start := ev.start, end := ev.end) == ev
  {
    var c := FieldsOf(cursor);
    var s := FieldsOf(ev.start);
    var e := FieldsOf(ev.end);
    var fs := Fields(c.year, c.month, c.day, s.hour, s.minute, s.second, s.nanosecond);
    var fe := Fields(c.year, c.month, c.day, e.hour, e.minute, e.second, e.nanosecond);
    ToLocalOfToUTC(fs, ev.start.offset);
    ToLocalOfToUTC(fe, ev.end.offset);
    ev.(start := Time(ToUTC(fs, ev.start.offset), ev.start.offset),
        end := Time(ToUTC(fe, ev.end.offset), ev.end.offset))
  }

  /** The occurrences emitted on one cursor day: the bucket of that day's weekday, re-dated. */
  function DayOccurrences(evs: seq<Event>, cursor: Time): (r: seq<Event>)
    ensures |r| == |Bucket(evs, Weekday(cursor))|
  {
    var b := Bucket(evs, Weekday(cursor));
    seq(|b|, i requires 0 <= i < |b| => Redate(b[i], cursor))
  }

  /** The cursor day `k` 24-hour steps after `start`, in the user's zone. */
  function CursorDay(start: int, loc: int, k: int): Time {
    Time(start + k * 86_400_000_000_000, loc)
  }

  /** The occurrences emitted on each cursor day from `start`. */
  function DaysFrom(evs: seq<Event>, loc: int, start: int): nat -> seq<Event> {
    k => DayOccurrences(evs, CursorDay(start, loc, k))
  }

  /** The occurrences of the first `k` cursor days from `start`, day by day. */
  function Occurrences(evs: seq<Event>, loc: int, start: int, k: nat): seq<Event> {
    Concat(DaysFrom(evs, loc, start), k)
  }

  /**
   * `GetEvents`: selects the user's rows for the window [start, end] (plus
   * every recurrent row), shows them in the user's zone, keeps non-recurring
   * events once per id, files recurrent ones by weekday code, then walks a
   * cursor from `start` toward `end` in 24-hour steps emitting re-dated copies
   * of the recurrent events filed under the cursor's weekday. `start` and `end`
   * are the instants of the parsed wall-clock query values in the user's zone.
   */
  method GetEvents(table: seq<Row>, userId: string, userLoc: int, start: int, end: int, fault: Fault)
    returns (r: Response<seq<Event>>)
    ensures var rows := SelectCalendar(table, userId, start, end);
      var evs := ShownEvents(rows, userLoc);
      r == if Aborts(fault, |rows|) || Crashes(evs) then NoAnswer
           else Answer(Singles(evs) + Occurrences(evs, userLoc, start, DayCount(start, end)))
  {
    if fault == QueryError {
      return NoAnswer;
    }
    var rows := SelectCalendar(table, userId, start, end);
    var ok, events, buckets := CollectRows(rows, userLoc, fault);
    if !ok {
      return NoAnswer;
    }
    var occurrences := WalkDays(buckets, ShownEvents(rows, userLoc), userLoc, start, end);
    return Answer(events + occurrences);
  }

  /** The row loop of `GetEvents`: the kept non-recurring events and the
      weekday buckets, unless a scan fails or a recurrent row has no list. */
  method CollectRows(rows: seq<Row>, userLoc: int, fault: Fault)
    returns (ok: bool, events: seq<Event>, buckets: map<int, seq<Event>>)
    requires fault != QueryError
    ensures var evs := ShownEvents(rows, userLoc);
      ok == !(Aborts(fault, |rows|) || Crashes(evs)) &&
      (ok ==> events == Singles(evs) && Filed(buckets, evs))
  {
    ghost var evs := ShownEvents(rows, userLoc);
    events, buckets := [], map[];
    var added: set<string> := {};
    var i := 0;
    while i < |rows|
      invariant 0 <= i <= |rows|
      invariant events == Singles(evs[..i]) && added == Ids(events)
      invariant Filed(buckets, evs[..i])
      invariant !Crashes(evs[..i])
      invariant !(fault.ScanError? && fault.row < i)
    {
      if fault == ScanError(i) {
        return false, events, buckets;
      }
      var ev := Shown(rows[i].event, userLoc);
      TakeSnoc(evs, i);
      var kept;
      kept, events, added, buckets := CollectRow(ev, events, added, buckets, evs[..i]);
      if !kept {
        return false, events, buckets;
      }
      CrashesPrefix(evs, i);
      i := i + 1;
    }
    TakeAll(evs, i);
    return true, events, buckets;
  }

  /** One pass of the row loop: a recurrent row is filed under its codes (or
      stops the loop when it has no list); any other row is kept if its id is new. */
  method CollectRow(ev: Event, events: seq<Event>, added: set<string>, buckets: map<int, seq<Event>>,
                    ghost before: seq<Event>)
    returns (ok: bool, events': seq<Event>, added': set<string>, buckets': map<int, seq<Event>>)
    requires events == Singles(before) && added == Ids(events) && Filed(buckets, before)
    ensures ok == !(ev.recurrent && ev.recurrence.Missing?)
    ensures ok ==> events' == Singles(before + [ev]) && added' == Ids(events') && Filed(buckets', before + [ev])
  {
    assert (before + [ev])[..|before|] == before;
    events', added', buckets' := events, added, buckets;
    if ev.recurrent {
      if ev.recurrence.Missing? {
        return false, events', added', buckets';
      }
      var codes := if ev.recurrence.codes.Some? then ev.recurrence.codes.value else [];
      buckets' := FileByWeekday(buckets, ev, codes, before);
    } else {
      FiledSkipsSingle(buckets, before, ev);
      if ev.id !in added {
        IdsSnoc(events, ev);
        events' := events + [ev];
        added' := added + {ev.id};
      }
    }
    return true, events', added', buckets';
  }

  /** The inner loop over a recurrent event's codes: one more copy of `ev` under each code. */
  method FileByWeekday(buckets: map<int, seq<Event>>, ev: Event, codes: seq<int>, ghost before: seq<Event>)
    returns (after: map<int, seq<Event>>)
    requires Filed(buckets, before)
    requires ev.recurrent && codes == Codes(ev)
    ensures Filed(after, before + [ev])
  {
    after := buckets;
    FiledNoCodes(buckets, before, ev, codes);
    var j := 0;
    while j < |codes|
      invariant 0 <= j <= |codes|
      invariant FiledUpTo(after, before, ev, codes[..j])
    {
      FiledOneMore(after, before, ev, codes, j);
      after := after[codes[j] := GetOrEmpty(after, codes[j]) + [ev]];
      j := j + 1;
    }
    FiledAllCodes(after, before, ev, codes, j);
  }

  /** Buckets holding the rows of `before`, plus one copy of `ev` per listed code in `done`. */
  ghost predicate FiledUpTo(buckets: map<int, seq<Event>>, before: seq<Event>, ev: Event, done: seq<int>) {
    forall w :: GetOrEmpty(buckets, w) == Bucket(before, w) + Repeat(ev, Count(done, w))
  }

  lemma FiledNoCodes(buckets: map<int, seq<Event>>, before: seq<Event>, ev: Event, codes: seq<int>)
    requires Filed(buckets, before)
    ensures FiledUpTo(buckets, before, ev, codes[..0])
  {
    assert codes[..0] == [];
  }

  lemma FiledOneMore(buckets: map<int, seq<Event>>, before: seq<Event>, ev: Event, codes: seq<int>, j: nat)
    requires j < |codes| && FiledUpTo(buckets, before, ev, codes[..j])
    ensures FiledUpTo(buckets[codes[j] := GetOrEmpty(buckets, codes[j]) + [ev]], before, ev, codes[..j + 1])
  {
    var next := buckets[codes[j] := GetOrEmpty(buckets, codes[j]) + [ev]];
    forall w
      ensures GetOrEmpty(next, w) == Bucket(before, w) + Repeat(ev, Count(codes[..j + 1], w))
    {
      FiledOneMoreAt(buckets, before, ev, codes, j, w);
    }
  }

  lemma FiledOneMoreAt(buckets: map<int, seq<Event>>, before: seq<Event>, ev: Event, codes: seq<int>, j: nat, w: int)
    requires j < |codes| && FiledUpTo(buckets, before, ev, codes[..j])
    ensures GetOrEmpty(buckets[codes[j] := GetOrEmpty(buckets, codes[j]) + [ev]], w) ==
      Bucket(before, w) + Repeat(ev, Count(codes[..j + 1], w))
  {
    var b := Bucket(before, w);
    var r := Repeat(ev, Count(codes[..j], w));
    assert GetOrEmpty(buckets, w) == b + r;
    CountSnoc(codes, j, w);
    if codes[j] == w {
      RepeatSnoc(ev, Count(codes[..j], w));
      AppendAssoc(b, r, [ev]);
    }
  }

  lemma FiledAllCodes(buckets: map<int, seq<Event>>, before: seq<Event>, ev: Event, codes: seq<int>, j: nat)
    requires ev.recurrent && codes == Codes(ev) && j == |codes| && FiledUpTo(buckets, before, ev, codes[..j])
    ensures Filed(buckets, before + [ev])
  {
    assert codes[..j] == codes;
    forall w
      ensures GetOrEmpty(buckets, w) == Bucket(before + [ev], w)
    {
      BucketSnoc(before, ev, w);
    }
  }

  /** A non-recurrent row is filed under no code. */
  lemma FiledSkipsSingle(buckets: map<int, seq<Event>>, before: seq<Event>, ev: Event)
    requires Filed(buckets, before) && !ev.recurrent
    ensures Filed(buckets, before + [ev])
  {
    forall w
      ensures GetOrEmpty(buckets, w) == Bucket(before + [ev], w)
    {
      BucketSnoc(before, ev, w);
    }
  }

  lemma CountSnoc(codes: seq<int>, j: nat, w: int)
    requires j < |codes|
    ensures Count(codes[..j + 1], w) == Count(codes[..j], w) + (if codes[j] == w then 1 else 0)
  {
    assert codes[..j + 1][..j] == codes[..j];
  }

  lemma RepeatSnoc(e: Event, n: nat)
    ensures Repeat(e, n + 1) == Repeat(e, n) + [e]
  {
  }

  lemma BucketSnoc(before: seq<Event>, ev: Event, w: int)
    ensures Bucket(before + [ev], w) ==
      Bucket(before, w) + (if ev.recurrent then Repeat(ev, Count(Codes(ev), w)) else [])
  {
    assert (before + [ev])[..|before|] == before;
  }

  /** The cursor loop of `GetEvents`. */
  method WalkDays(buckets: map<int, seq<Event>>, ghost evs: seq<Event>, userLoc: int, start: int, end: int)
    returns (occurrences: seq<Event>)
    requires Filed(buckets, evs)
    ensures occurrences == Occurrences(evs, userLoc, start, DayCount(start, end))
  {
    occurrences := [];
    var cursor := start;
    ghost var k := 0;
    while cursor < end
      invariant 0 <= k <= DayCount(start, end)
      invariant cursor == start + k * 86_400_000_000_000
      invariant occurrences == Occurrences(evs, userLoc, start, k)
    {
      var day := Time(cursor, userLoc);
      assert day == CursorDay(start, userLoc, k);
      occurrences := EmitDay(occurrences, GetOrEmpty(buckets, Weekday(day)), day, evs);
      cursor := cursor + 86_400_000_000_000;
      k := k + 1;
    }
  }

  /** The inner loop of the cursor walk: appends the day's bucket, re-dated. */
  method EmitDay(acc: seq<Event>, bucket: seq<Event>, day: Time, ghost evs: seq<Event>)
    returns (out: seq<Event>)
    requires bucket == Bucket(evs, Weekday(day))
    ensures out == acc + DayOccurrences(evs, day)
  {
    out := acc;
    var j := 0;
    while j < |bucket|
      invariant 0 <= j <= |bucket|
      invariant out == acc + DayOccurrences(evs, day)[..j]
    {
      var d := DayOccurrences(evs, day);
      assert d[j] == Redate(bucket[j], day);
      AppendTake(acc, d, j);
      out := out + [Redate(bucket[j], day)];
      j := j + 1;
    }
    TakeAll(DayOccurrences(evs, day), j);
  }

  /** The row loop gets past row `i` exactly when it is not a recurrent row with a NULL recurrence. */
  lemma CrashesPrefix(evs: seq<Event>, i: nat)
    requires i < |evs| && !Crashes(evs[..i])
    ensures Crashes(evs[..i + 1]) <==> evs[i].recurrent && evs[i].recurrence.Missing?
  {
    var p := evs[..i + 1];
    if evs[i].recurrent && evs[i].recurrence.Missing? {
      assert p[i] == evs[i];
    } else {
      forall j | 0 <= j < |p|
        ensures !(p[j].recurrent && p[j].recurrence.Missing?)
      {
        if j < i {
          assert p[j] == evs[..i][j];
        }
      }
    }
  }


  // ---------------------------------------------------------------------
  // What GetEvents promises about its answer.

  /** Row `i` is the first non-recurrent row carrying its id. */
  predicate FirstOfId(evs: seq<Event>, i: int)
    requires 0 <= i < |evs|
  {
    !evs[i].recurrent && forall j :: 0 <= j < i ==> evs[j].recurrent || evs[j].id != evs[i].id
  }

  /** The ids kept are exactly those of the non-recurrent rows. */
  lemma {:induction false} SinglesIds(evs: seq<Event>)
    ensures forall id :: id in Ids(Singles(evs)) <==>
      exists i :: 0 <= i < |evs| && !evs[i].recurrent && evs[i].id == id
  {
    forall id
      ensures id in Ids(Singles(evs)) <==>
        exists i :: 0 <= i < |evs| && !evs[i].recurrent && evs[i].id == id
    {
      if id in Ids(Singles(evs)) {
        KeptIdSource(evs, id);
      }
      if exists i :: 0 <= i < |evs| && !evs[i].recurrent && evs[i].id == id {
        var i :| 0 <= i < |evs| && !evs[i].recurrent && evs[i].id == id;
        IdKept(evs, i);
      }
    }
  }

  lemma {:induction false} KeptIdSource(evs: seq<Event>, id: string)
    requires id in Ids(Singles(evs))
    ensures exists i :: 0 <= i < |evs| && !evs[i].recurrent && evs[i].id == id
  {
    var n := |evs| - 1;
    var p := evs[..n];
    var last := evs[n];
    if Singles(evs) == Singles(p) {
      KeptIdSource(p, id);
      var i :| 0 <= i < |p| && !p[i].recurrent && p[i].id == id;
      assert evs[i] == p[i];
    } else {
      assert Singles(evs) == Singles(p) + [last] && !last.recurrent;
      IdsSnoc(Singles(p), last);
      if id in Ids(Singles(p)) {
        KeptIdSource(p, id);
        var i :| 0 <= i < |p| && !p[i].recurrent && p[i].id == id;
        assert evs[i] == p[i];
      } else {
        assert evs[n].id == id;
      }
    }
  }

  lemma {:induction false} IdKept(evs: seq<Event>, i: nat)
    requires i < |evs| && !evs[i].recurrent
    ensures evs[i].id in Ids(Singles(evs))
  {
    var n := |evs| - 1;
    var p := evs[..n];
    var last := evs[n];
    if Singles(evs) != Singles(p) {
      assert Singles(evs) == Singles(p) + [last];
      IdsSnoc(Singles(p), last);
    }
    if i < n {
      IdKept(p, i);
      assert p[i] == evs[i];
    }
  }

  lemma IdsSnoc(evs: seq<Event>, x: Event)
    ensures Ids(evs + [x]) == Ids(evs) + {x.id}
  {
    assert (evs + [x])[|evs|] == x;
    assert forall i :: 0 <= i < |evs| ==> (evs + [x])[i] == evs[i];
  }

  /** No two events of the list share an id. */
  predicate UniqueIds(s: seq<Event>) {
    forall k, l :: 0 <= k < l < |s| ==> s[k].id != s[l].id
  }

  /** No id is kept twice. */
  lemma {:induction false} SinglesUnique(evs: seq<Event>)
    ensures UniqueIds(Singles(evs))
  {
    if evs != [] {
      var p := Singles(evs[..|evs| - 1]);
      var s := Singles(evs);
      var last := evs[|evs| - 1];
      SinglesUnique(evs[..|evs| - 1]);
      if !last.recurrent && last.id !in Ids(p) {
        assert s == p + [last];
        forall k, l | 0 <= k < l < |s|
          ensures s[k].id != s[l].id
        {
          assert s[k] == p[k];
          if l == |p| {
            assert s[l] == last;
            assert 0 <= k < |p| && p[k].id == s[k].id;
            assert s[k].id in Ids(p);
          } else {
            assert s[l] == p[l];
          }
        }
      } else {
        assert s == p;
      }
    }
  }

  /** Whether a row is the first of its id does not depend on the rows after it. */
  lemma FirstOfIdPrefix(evs: seq<Event>, n: nat, i: nat)
    requires i < n <= |evs|
    ensures FirstOfId(evs[..n], i) == FirstOfId(evs, i)
  {
    assert forall j :: 0 <= j <= i ==> evs[..n][j] == evs[j];
  }

  /** Every kept event is the first non-recurrent row of its id. */
  lemma {:induction false} SinglesSound(evs: seq<Event>)
    ensures forall e :: e in Singles(evs) ==> exists i :: 0 <= i < |evs| && FirstOfId(evs, i) && e == evs[i]
  {
    forall e | e in Singles(evs)
      ensures exists i :: 0 <= i < |evs| && FirstOfId(evs, i) && e == evs[i]
    {
      KeptIsFirst(evs, e);
    }
  }

  lemma {:induction false} KeptIsFirst(evs: seq<Event>, e: Event)
    requires e in Singles(evs)
    ensures exists i :: 0 <= i < |evs| && FirstOfId(evs, i) && e == evs[i]
  {
    var n := |evs| - 1;
    var p := evs[..n];
    if e in Singles(p) {
      KeptIsFirst(p, e);
      var i :| 0 <= i < |p| && FirstOfId(p, i) && e == p[i];
      FirstOfIdPrefix(evs, n, i);
    } else {
      SinglesIds(p);
      assert e == evs[n] && e.id !in Ids(Singles(p));
      forall j | 0 <= j < n
        ensures evs[j].recurrent || evs[j].id != e.id
      {
        assert p[j] == evs[j];
      }
      assert FirstOfId(evs, n);
    }
  }

  /** Every first non-recurrent row of an id is kept. */
  lemma {:induction false} SinglesComplete(evs: seq<Event>)
    ensures forall i :: 0 <= i < |evs| && FirstOfId(evs, i) ==> evs[i] in Singles(evs)
  {
    forall i | 0 <= i < |evs| && FirstOfId(evs, i)
      ensures evs[i] in Singles(evs)
    {
      FirstIsKept(evs, i);
    }
  }

  lemma {:induction false} FirstIsKept(evs: seq<Event>, i: nat)
    requires i < |evs| && FirstOfId(evs, i)
    ensures evs[i] in Singles(evs)
  {
    var n := |evs| - 1;
    var p := evs[..n];
    if i < n {
      FirstOfIdPrefix(evs, n, i);
      FirstIsKept(p, i);
      assert evs[i] == p[i];
      assert Singles(p) <= Singles(evs);
    } else {
      assert forall j :: 0 <= j < n ==> p[j] == evs[j];
      if evs[n].id in Ids(Singles(p)) {
        KeptIdSource(p, evs[n].id);
        assert false;
      }
    }
  }

  /** Rows scanned later never reorder what was kept earlier: first-seen order. */
  lemma {:induction false} SinglesPrefix(evs: seq<Event>, i: nat)
    requires i <= |evs|
    ensures Singles(evs[..i]) <= Singles(evs)
    decreases |evs| - i
  {
    if i < |evs| {
      SinglesPrefix(evs, i + 1);
      assert evs[..i + 1][..i] == evs[..i];
    } else {
      assert evs[..i] == evs;
    }
  }

  /** Filing rows one after another: the buckets of a concatenation concatenate. */
  lemma {:induction false} BucketConcat(a: seq<Event>, b: seq<Event>, w: int)
    ensures Bucket(a + b, w) == Bucket(a, w) + Bucket(b, w)
  {
    if b != [] {
      var p := b[..|b| - 1];
      var last := b[|b| - 1];
      var tail := if last.recurrent then Repeat(last, Count(Codes(last), w)) else [];
      BucketConcat(a, p, w);
      assert (a + b)[..|a + b| - 1] == a + p;
      assert (a + b)[|a + b| - 1] == last;
      assert Bucket(a + b, w) == Bucket(a + p, w) + tail;
      assert Bucket(b, w) == Bucket(p, w) + tail;
    } else {
      assert a + b == a;
    }
  }

  /** A bucket holds exactly the recurrent rows listing its code. */
  lemma {:induction false} BucketContents(evs: seq<Event>, w: int)
    ensures forall e :: e in Bucket(evs, w) <==> e in evs && e.recurrent && w in Codes(e)
  {
    if evs != [] {
      var p := evs[..|evs| - 1];
      BucketContents(p, w);
      assert evs == p + [evs[|evs| - 1]];
    }
  }

  /** A code no recurrent row lists has an empty bucket. */
  lemma {:induction false} EmptyBucket(evs: seq<Event>, w: int)
    requires forall e :: e in evs && e.recurrent ==> w !in Codes(e)
    ensures Bucket(evs, w) == []
  {
    if evs != [] {
      var p := evs[..|evs| - 1];
      assert forall e :: e in p ==> e in evs;
      EmptyBucket(p, w);
      assert evs[|evs| - 1] in evs;
    }
  }

  /** Neither duplicate join rows nor repeated codes are collapsed: two copies of
      a row listing `w` twice put four copies in the bucket. */
  lemma DuplicatesKept(e: Event, w: int)
    requires e.recurrent && Codes(e) == [w, w]
    ensures Bucket([e, e], w) == [e, e, e, e]
  {
    BucketConcat([e], [e], w);
    assert [e, e] == [e] + [e];
    assert Count([w, w], w) == 2 by {
      assert [w, w][..1] == [w];
    }
    assert Bucket([e], w) == Repeat(e, 2) by {
      assert [e][..0] == [];
    }
  }

  /** After `k` cursor steps the weekday has moved on by `k`, modulo 7. */
  lemma {:induction false} WeekdayAfterDays(at: int, offset: int, k: nat)
    ensures Weekday(Time(at + k * 86_400_000_000_000, offset)) == (Weekday(Time(at, offset)) + k) % 7
  {
    if k > 0 {
      var prev := at + (k - 1) * 86_400_000_000_000;
      WeekdayAfterDays(at, offset, k - 1);
      WeekdayNextDay(prev, offset);
      assert prev + 86_400_000_000_000 == at + k * 86_400_000_000_000;
      NextModSeven(Weekday(Time(at, offset)) + k - 1);
    }
  }

  lemma NextModSeven(a: int)
    ensures (a % 7 + 1) % 7 == (a + 1) % 7
  {
  }

  /** The occurrences emitted on one day are the day's bucket, re-dated. */
  lemma DayOccurrencesContents(evs: seq<Event>, cursor: Time)
    ensures forall o :: o in DayOccurrences(evs, cursor) <==>
      exists e :: e in evs && e.recurrent && Weekday(cursor) in Codes(e) && o == Redate(e, cursor)
  {
    var b := Bucket(evs, Weekday(cursor));
    BucketContents(evs, Weekday(cursor));
    forall o | o in DayOccurrences(evs, cursor)
      ensures exists e :: e in evs && e.recurrent && Weekday(cursor) in Codes(e) && o == Redate(e, cursor)
    {
      var i :| 0 <= i < |b| && DayOccurrences(evs, cursor)[i] == o;
      assert b[i] in b;
    }
    forall e | e in evs && e.recurrent && Weekday(cursor) in Codes(e)
      ensures Redate(e, cursor) in DayOccurrences(evs, cursor)
    {
      var i :| 0 <= i < |b| && b[i] == e;
      assert DayOccurrences(evs, cursor)[i] == Redate(e, cursor);
    }
  }

  /** The occurrences of `n` cursor days: for each day `k < n`, one re-dated copy
      of each recurrent row whose codes include that day's weekday. */
  lemma {:induction false} OccurrencesContents(evs: seq<Event>, loc: int, start: int, n: nat)
    ensures forall o :: o in Occurrences(evs, loc, start, n) <==>
      exists k :: 0 <= k < n && o in DayOccurrences(evs, CursorDay(start, loc, k))
  {
    var days := DaysFrom(evs, loc, start);
    forall o
      ensures o in Occurrences(evs, loc, start, n) <==>
        exists k :: 0 <= k < n && o in DayOccurrences(evs, CursorDay(start, loc, k))
    {
      if o in Concat(days, n) {
        ConcatSource(days, n, o);
        var k: nat :| k < n && o in days(k);
        assert o in DayOccurrences(evs, CursorDay(start, loc, k));
      }
      if exists k :: 0 <= k < n && o in DayOccurrences(evs, CursorDay(start, loc, k)) {
        var k :| 0 <= k < n && o in DayOccurrences(evs, CursorDay(start, loc, k));
        ConcatKeeps(days, n, k, o);
      }
    }
  }

  /** Codes outside 0..6 never match a weekday, so rows listing only such codes
      produce no occurrence. */
  lemma {:induction false} NoWeekCodesNoOccurrences(evs: seq<Event>, loc: int, start: int, n: nat)
    requires forall e :: e in evs && e.recurrent ==> forall c :: c in Codes(e) ==> c < 0 || c > 6
    ensures Occurrences(evs, loc, start, n) == []
  {
    if n > 0 {
      NoWeekCodesNoOccurrences(evs, loc, start, n - 1);
      EmptyBucket(evs, Weekday(CursorDay(start, loc, n - 1)));
    }
  }

  /** The codes of a list that a weekday can match: those in 0..6, in order. */
  function InWeek(codes: seq<int>): (r: seq<int>)
    ensures |r| <= |codes|
    ensures forall c :: c in r <==> c in codes && 0 <= c < 7
  {
    if codes == [] then []
    else
      var p := InWeek(codes[..|codes| - 1]);
      var c := codes[|codes| - 1];
      assert codes == codes[..|codes| - 1] + [c];
      if 0 <= c < 7 then p + [c] else p
  }

  /** Dropping the codes outside 0..6 keeps the count of every weekday. */
  lemma {:induction false} CountInWeek(codes: seq<int>, w: int)
    requires 0 <= w < 7
    ensures Count(InWeek(codes), w) == Count(codes, w)
  {
    if codes != [] {
      var p := codes[..|codes| - 1];
      var c := codes[|codes| - 1];
      CountInWeek(p, w);
      if 0 <= c < 7 {
        var t := InWeek(p) + [c];
        assert t[..|t| - 1] == InWeek(p);
      }
    }
  }

  /** An event with the codes outside 0..6 dropped from its list; a nil pointer
      or a nil list, and every other field, stay as they are. */
  function Trimmed(e: Event): (t: Event)
    ensures Codes(t) == InWeek(Codes(e))
    ensures t.(recurrence := e.recurrence) == e
  {
    if e.recurrence.Present? && e.recurrence.codes.Some? then
      e.(recurrence := Recurrence.Present(Some(InWeek(e.recurrence.codes.value))))
    else e
  }

  function TrimAll(evs: seq<Event>): (r: seq<Event>)
    ensures |r| == |evs| && forall k :: 0 <= k < |evs| ==> r[k] == Trimmed(evs[k])
  {
    seq(|evs|, k requires 0 <= k < |evs| => Trimmed(evs[k]))
  }

  lemma TrimAllAppend(a: seq<Event>, b: seq<Event>)
    ensures TrimAll(a + b) == TrimAll(a) + TrimAll(b)
  {
  }

  lemma TrimRepeat(e: Event, n: nat)
    ensures TrimAll(Repeat(e, n)) == Repeat(Trimmed(e), n)
  {
  }

  /** For a weekday, the bucket of the trimmed rows is the trimmed bucket. */
  lemma {:induction false} BucketTrimmed(evs: seq<Event>, w: int)
    requires 0 <= w < 7
    ensures Bucket(TrimAll(evs), w) == TrimAll(Bucket(evs, w))
  {
    if evs != [] {
      var p := evs[..|evs| - 1];
      var last := evs[|evs| - 1];
      var t := TrimAll(evs);
      BucketTrimmed(p, w);
      assert t[..|t| - 1] == TrimAll(p);
      CountInWeek(Codes(last), w);
      var tail := if last.recurrent then Repeat(last, Count(Codes(last), w)) else [];
      TrimAllAppend(Bucket(p, w), tail);
      if last.recurrent {
        TrimRepeat(last, Count(Codes(last), w));
      } else {
        assert TrimAll(tail) == [];
      }
    }
  }

  /** Re-dating and trimming touch different fields. */
  lemma RedateTrimmed(e: Event, cursor: Time)
    ensures Redate(Trimmed(e), cursor) == Trimmed(Redate(e, cursor))
  {
  }

  lemma DayTrimmed(evs: seq<Event>, cursor: Time)
    ensures DayOccurrences(TrimAll(evs), cursor) == TrimAll(DayOccurrences(evs, cursor))
  {
    var b := Bucket(evs, Weekday(cursor));
    BucketTrimmed(evs, Weekday(cursor));
    forall i | 0 <= i < |b|
      ensures DayOccurrences(TrimAll(evs), cursor)[i] == TrimAll(DayOccurrences(evs, cursor))[i]
    {
      RedateTrimmed(b[i], cursor);
    }
  }

  /**
   * A code outside 0..6 adds nothing: dropping such codes from every row's
   * list changes the occurrences in no other way than dropping the same codes
   * from the lists they carry. So a row listing `[1, 9]` is shown on exactly
   * the days, and as often, as one listing `[1]`.
   */
  lemma {:induction false} NoOccurrencesOutsideWeek(evs: seq<Event>, loc: int, start: int, n: nat)
    ensures Occurrences(TrimAll(evs), loc, start, n) == TrimAll(Occurrences(evs, loc, start, n))
  {
    if n > 0 {
      NoOccurrencesOutsideWeek(evs, loc, start, n - 1);
      var day := CursorDay(start, loc, n - 1);
      OccurrencesSnoc(evs, loc, start, n);
      OccurrencesSnoc(TrimAll(evs), loc, start, n);
      DayTrimmed(evs, day);
      TrimAllAppend(Occurrences(evs, loc, start, n - 1), DayOccurrences(evs, day));
    }
  }

  /** The walk over `n` days is the walk over the first `n - 1` followed by the last day. */
  lemma OccurrencesSnoc(evs: seq<Event>, loc: int, start: int, n: nat)
    requires n > 0
    ensures Occurrences(evs, loc, start, n) ==
      Occurrences(evs, loc, start, n - 1) + DayOccurrences(evs, CursorDay(start, loc, n - 1))
  {
    var days := DaysFrom(evs, loc, start);
    assert Concat(days, n) == Concat(days, n - 1) + days(n - 1);
  }

  /** How many copies a day of weekday `w` emits: for each recurrent row, one per code equal to `w`. */
  function Listed(evs: seq<Event>, w: int): nat {
    if evs == [] then 0
    else
      var last := evs[|evs| - 1];
      Listed(evs[..|evs| - 1], w) + (if last.recurrent then Count(Codes(last), w) else 0)
  }

  /** A bucket holds one copy of a recurrent row per listing of its code. */
  lemma {:induction false} BucketSize(evs: seq<Event>, w: int)
    ensures |Bucket(evs, w)| == Listed(evs, w)
  {
    if evs != [] {
      BucketSize(evs[..|evs| - 1], w);
    }
  }

  /** The number of occurrences the first `n` cursor days emit, day by day. */
  function DailyCount(evs: seq<Event>, loc: int, start: int, n: nat): nat {
    if n == 0 then 0
    else DailyCount(evs, loc, start, n - 1) + Listed(evs, Weekday(CursorDay(start, loc, n - 1)))
  }

  /** The walk emits, on each cursor day, one occurrence per recurrent row and
      per code of it equal to that day's weekday, and nothing else. */
  lemma {:induction false} OccurrenceCount(evs: seq<Event>, loc: int, start: int, n: nat)
    ensures |Occurrences(evs, loc, start, n)| == DailyCount(evs, loc, start, n)
  {
    if n > 0 {
      OccurrenceCount(evs, loc, start, n - 1);
      BucketSize(evs, Weekday(CursorDay(start, loc, n - 1)));
    }
  }

  /** A row listing every weekday once is shown exactly once on each cursor
      day: `n` occurrences over `n` days, the `k`-th re-dated to day `k`. */
  lemma {:induction false} EveryDayOnce(e: Event, loc: int, start: int, n: nat)
    requires e.recurrent && forall w :: 0 <= w < 7 ==> Count(Codes(e), w) == 1
    ensures Occurrences([e], loc, start, n) == Daily(e, loc, start, n)
  {
    if n > 0 {
      EveryDayOnce(e, loc, start, n - 1);
      var day := CursorDay(start, loc, n - 1);
      assert DayOccurrences([e], day) == [Redate(e, day)] by {
        OneRowBucket(e, Weekday(day));
      }
      DailySnoc(e, loc, start, n);
    }
  }

  /** `e` re-dated to each of the first `n` cursor days, in day order. */
  function Daily(e: Event, loc: int, start: int, n: nat): (r: seq<Event>)
    ensures |r| == n
    ensures forall k :: 0 <= k < n ==> r[k] == Redate(e, CursorDay(start, loc, k))
  {
    seq(n, k requires 0 <= k < n => Redate(e, CursorDay(start, loc, k)))
  }

  lemma DailySnoc(e: Event, loc: int, start: int, n: nat)
    requires n > 0
    ensures Daily(e, loc, start, n) == Daily(e, loc, start, n - 1) + [Redate(e, CursorDay(start, loc, n - 1))]
  {
    var before := Daily(e, loc, start, n - 1);
    var after := before + [Redate(e, CursorDay(start, loc, n - 1))];
    forall k | 0 <= k < n
      ensures Daily(e, loc, start, n)[k] == after[k]
    {
      if k < n - 1 {
        assert after[k] == before[k];
      }
    }
  }

  lemma OneRowBucket(e: Event, w: int)
    requires e.recurrent && Count(Codes(e), w) == 1
    ensures Bucket([e], w) == [e]
  {
    assert [e][..0] == [];
  }

  /** Over a window of at least seven cursor days, a recurrent row listing weekday
      `w` in 0..6 is shown at least once, on a day whose weekday is `w`. */
  lemma WeeklyOccurrence(evs: seq<Event>, loc: int, start: int, end: int, e: Event, w: int)
    requires e in evs && e.recurrent && w in Codes(e) && 0 <= w < 7
    requires DayCount(start, end) >= 7
    ensures exists k :: (0 <= k < DayCount(start, end) && Weekday(CursorDay(start, loc, k)) == w &&
      Redate(e, CursorDay(start, loc, k)) in Occurrences(evs, loc, start, DayCount(start, end)))
  {
    var k := WeekdayReached(start, loc, w);
    OccursOnDay(evs, loc, start, DayCount(start, end), k, e);
    assert 0 <= k < DayCount(start, end) && Weekday(CursorDay(start, loc, k)) == w &&
      Redate(e, CursorDay(start, loc, k)) in Occurrences(evs, loc, start, DayCount(start, end));
  }

  /** Within seven cursor steps of `start` every weekday comes round. */
  lemma WeekdayReached(start: int, loc: int, w: int) returns (k: nat)
    requires 0 <= w < 7
    ensures k < 7 && Weekday(CursorDay(start, loc, k)) == w
  {
    var w0 := Weekday(Time(start, loc));
    k := if w >= w0 then w - w0 else w - w0 + 7;
    WeekdayAfterDays(start, loc, k);
    DivModUnique(w0 + k, if w >= w0 then 0 else 1, w, 7);
  }

  /** A recurrent row is shown on every cursor day whose weekday it lists. */
  lemma OccursOnDay(evs: seq<Event>, loc: int, start: int, n: nat, k: nat, e: Event)
    requires k < n && e in evs && e.recurrent && Weekday(CursorDay(start, loc, k)) in Codes(e)
    ensures Redate(e, CursorDay(start, loc, k)) in Occurrences(evs, loc, start, n)
  {
    var day := CursorDay(start, loc, k);
    assert Redate(e, day) in DaysFrom(evs, loc, start)(k) by {
      DayOccurrencesContents(evs, day);
    }
    ConcatKeeps(DaysFrom(evs, loc, start), n, k, Redate(e, day));
  }

  /** An occurrence keeps the base row's times of day, so its length is the
      difference of the two clock readings: an end earlier in the day than the
      start gives an end before the start. */
  lemma RedateSpan(ev: Event, cursor: Time)
    requires ev.start.offset == ev.end.offset
    ensures Redate(ev, cursor).end.at - Redate(ev, cursor).start.at ==
      ClockNanos(FieldsOf(ev.end)) - ClockNanos(FieldsOf(ev.start))
  {
    var c := FieldsOf(cursor);
    var s := FieldsOf(ev.start);
    var e := FieldsOf(ev.end);
    var fs := Fields(c.year, c.month, c.day, s.hour, s.minute, s.second, s.nanosecond);
    var fe := Fields(c.year, c.month, c.day, e.hour, e.minute, e.second, e.nanosecond);
    ToUTCOfValidMonth(fs, ev.start.offset);
    ToUTCOfValidMonth(fe, ev.end.offset);
  }

  /** An event that ends after midnight, say 23:00 to 01:00, is shown on each
      day with its end 22 hours before its start, not 2 hours after it. */
  lemma RedateAcrossMidnight(ev: Event, cursor: Time)
    requires ev.start.offset == ev.end.offset
    requires ClockNanos(FieldsOf(ev.end)) < ClockNanos(FieldsOf(ev.start))
    ensures Redate(ev, cursor).end.at < Redate(ev, cursor).start.at
    ensures ev.start.at < ev.end.at ==>
      Redate(ev, cursor).end.at - Redate(ev, cursor).start.at < ev.end.at - ev.start.at
  {
    RedateSpan(ev, cursor);
  }

}
