/**
 * The notification scanner: every 15 seconds it floors the tick to its
 * minute, selects the events starting at that minute that were not yet
 * processed for it, groups their member rows into one event each, posts the
 * notices and marks each event processed for that minute.
 */
module BackgroundJob {
  import opened Options
  import opened Civil
  import opened Events
  import opened Seqs
  import opened Db
  import Recurrence

  /** `time.NewTicker(15 * time.Second)`, in nanoseconds. */
  const Period: int := 15_000_000_000

  /** The message posted to an event's channel. */
  const ChannelNotice: string := "New event start now"

  // ---------------------------------------------------------------------
  // The tick's minute.

  /**
   * `time.Date(t.Year(), t.Month(), t.Day(), t.Hour(), t.Minute(), 0, 0, UTC)`:
   * the wall-clock reading of the tick in its own zone, cut to the minute and
   * read as a UTC instant. It is the minute of the tick's local reading, so
   * it is the minute of the instant itself only for a tick in UTC.
   */
  function TickFloor(t: Time): (floor: int)
    ensures floor % 60_000_000_000 == 0
    ensures floor <= t.at + t.offset * 1_000_000_000 < floor + 60_000_000_000
  {
    var f := FieldsOf(t);
    var g := Fields(f.year, f.month, f.day, f.hour, f.minute, 0, 0);
    ToUTCOfToLocal(t.at, t.offset);
    ToUTCOfValidMonth(f, t.offset);
    ToUTCOfValidMonth(g, 0);
    DivModUnique(ToUTC(g, 0), DaysFromCivil(f.year, f.month, f.day) * 1440 + f.hour * 60 + f.minute,
                 0, 60_000_000_000);
    ToUTC(g, 0)
  }

  /** A minute boundary is the floor of every tick whose local reading falls in that minute. */
  lemma MinuteOfTick(t: Time, minute: int)
    requires minute % 60_000_000_000 == 0
    requires minute <= t.at + t.offset * 1_000_000_000 < minute + 60_000_000_000
    ensures TickFloor(t) == minute
  {
    var floor := TickFloor(t);
    var a, b := floor / 60_000_000_000, minute / 60_000_000_000;
    assert floor == a * 60_000_000_000;
    assert minute == b * 60_000_000_000;
    assert -1 < a - b < 1;
  }

  /**
   * A ticker started at `t0` in a zone of offset `offset` ticks at
   * `t0 + k * Period` for k = 1, 2, …; every later minute boundary of its
   * local clock is the floor of one of those ticks, so no start minute is
   * skipped as long as each tick is handled.
   */
  lemma TickerReachesMinute(t0: int, offset: int, minute: int) returns (k: nat)
    requires minute % 60_000_000_000 == 0
    requires t0 + offset * 1_000_000_000 < minute
    ensures 1 <= k && TickFloor(Time(t0 + k * 15_000_000_000, offset)) == minute
  {
    var x := minute - (t0 + offset * 1_000_000_000);
    k := (x + 14_999_999_999) / 15_000_000_000;
    var r := (x + 14_999_999_999) % 15_000_000_000;
    assert x + 14_999_999_999 == k * 15_000_000_000 + r;
    MinuteOfTick(Time(t0 + k * 15_000_000_000, offset), minute);
  }

  // ---------------------------------------------------------------------
  // The query and the grouping of its rows.

  /** The query's WHERE clause: `start = floor AND (processed isnull OR processed != floor)`. */
  predicate Due(e: Event, floor: int) {
    e.start.at == floor && (e.processed.None? || e.processed.value != floor)
  }

  /** The rows the scanner's query returns, in join order. */
  function Candidates(rows: seq<Row>, floor: int): (r: seq<Row>)
    ensures forall x :: x in r <==> x in rows && x.event.start.at == floor && x.event.processed != Some(floor)
  {
    Filter(rows, (x: Row) => Due(x.event, floor))
  }

  /**
   * The event the scanner builds from the first member row of an event: the
   * selected columns (id, title, start, end, created, owner, channel), and
   * Go's zero values for the columns it does not select.
   */
  function Scanned(e: Event): (s: Event)
    ensures s.id == e.id && s.title == e.title && s.channel == e.channel
    ensures s.start == e.start && s.end == e.end && s.created == e.created && s.owner == e.owner
    ensures s.attendees == [] && s.processed.None? && !s.recurrent && s.recurrence.Missing?
  {
    Event(e.id, e.title, e.start, e.end, [], e.created, e.owner, e.channel, None, false, Recurrence.Missing)
  }

  /** One step of the scan loop: rows without a member are skipped, the rest add their user. */
  function AddRow(groups: map<string, Event>, row: Row): map<string, Event> {
    if row.user.None? then groups
    else if row.event.id in groups then
      groups[row.event.id := groups[row.event.id].(attendees := groups[row.event.id].attendees + [row.user.value])]
    else groups[row.event.id := Scanned(row.event).(attendees := [row.user.value])]
  }

  /** The map the scan loop builds from the rows, event id to event with its attendees. */
  function Group(rows: seq<Row>): map<string, Event> {
    if rows == [] then map[] else AddRow(Group(rows[..|rows| - 1]), rows[|rows| - 1])
  }

  predicate HasMemberRow(rows: seq<Row>, id: string) {
    exists x :: x in rows && x.event.id == id && x.user.Some?
  }

  lemma GroupStep(rows: seq<Row>, i: nat)
    requires i < |rows|
    ensures Group(rows[..i + 1]) == AddRow(Group(rows[..i]), rows[i])
  {
    TakeTake(rows, i);
  }

  /** Each entry is keyed by its event's id. */
  lemma {:induction false} GroupIds(rows: seq<Row>)
    ensures forall id :: id in Group(rows) ==> Group(rows)[id].id == id
  {
    if rows != [] {
      GroupIds(rows[..|rows| - 1]);
    }
  }

  /** An event is grouped iff some row of it has a member: rows with a NULL user are dropped. */
  lemma {:induction false} GroupKeys(rows: seq<Row>, id: string)
    ensures id in Group(rows) <==> HasMemberRow(rows, id)
  {
    if rows != [] {
      var p := rows[..|rows| - 1];
      var last := rows[|rows| - 1];
      GroupKeys(p, id);
      assert rows == p + [last];
      if HasMemberRow(rows, id) {
        var x :| x in rows && x.event.id == id && x.user.Some?;
        InConcat(x, p, [last]);
      }
      if HasMemberRow(p, id) {
        var x :| x in p && x.event.id == id && x.user.Some?;
        InConcat(x, p, [last]);
      }
    }
  }

  lemma MembersSnoc(rs: seq<Row>, x: Row)
    ensures Members(rs + [x]) == Members(rs) + (if x.user.Some? then [x.user.value] else [])
  {
    assert (rs + [x])[..|rs|] == rs;
  }

  lemma MembersNone(rs: seq<Row>)
    requires forall x :: x in rs ==> x.user.None?
    ensures Members(rs) == []
  {
    MembersContents(rs);
  }

  /** A grouped event's attendees are the users of its rows, in row order. */
  lemma {:induction false} GroupAttendees(rows: seq<Row>, id: string)
    requires id in Group(rows)
    ensures Group(rows)[id].attendees == Members(RowsOfEvent(rows, id))
  {
    var p := rows[..|rows| - 1];
    var last := rows[|rows| - 1];
    var g := Group(p);
    if last.event.id == id {
      MembersSnoc(RowsOfEvent(p, id), last);
      if id in g {
        GroupAttendees(p, id);
      } else {
        GroupKeys(p, id);
        MembersNone(RowsOfEvent(p, id));
      }
    } else {
      GroupAttendees(p, id);
    }
  }

  /**
   * A grouped event carries the selected columns of the first row of it that
   * has a member.
   */
  lemma {:induction false} GroupColumns(rows: seq<Row>, id: string)
    requires id in Group(rows)
    ensures exists i :: (0 <= i < |rows| && rows[i].event.id == id && rows[i].user.Some? &&
                         (forall j :: 0 <= j < i ==> !(rows[j].event.id == id && rows[j].user.Some?)) &&
                         Group(rows)[id] == Scanned(rows[i].event).(attendees := Group(rows)[id].attendees))
  {
    var n := |rows| - 1;
    var p := rows[..n];
    var last := rows[n];
    if id in Group(p) {
      GroupColumns(p, id);
      var i :| 0 <= i < |p| && p[i].event.id == id && p[i].user.Some? &&
        (forall j :: 0 <= j < i ==> !(p[j].event.id == id && p[j].user.Some?)) &&
        Group(p)[id] == Scanned(p[i].event).(attendees := Group(p)[id].attendees);
      assert forall j :: 0 <= j <= i ==> p[j] == rows[j];
    } else {
      GroupKeys(p, id);
      assert forall j :: 0 <= j < n ==> rows[j] == p[j] && p[j] in p;
      assert rows[n].event.id == id && rows[n].user.Some?;
    }
  }

  // ---------------------------------------------------------------------
  // The query and grouping over the stored tables.

  lemma {:induction false} CandidatesAppend(a: seq<Row>, b: seq<Row>, floor: int)
    ensures Candidates(a + b, floor) == Candidates(a, floor) + Candidates(b, floor)
  {
    if b == [] {
      assert a + b == a;
    } else {
      var q := b[..|b| - 1];
      var last := b[|b| - 1];
      CandidatesAppend(a, q, floor);
      assert (a + b)[..|a + b| - 1] == a + q;
      assert (a + b)[|a + b| - 1] == last;
      AppendAssoc(Candidates(a, floor), Candidates(q, floor), if Due(last.event, floor) then [last] else []);
    }
  }

  lemma {:induction false} RowsOfEventAppend(a: seq<Row>, b: seq<Row>, id: string)
    ensures RowsOfEvent(a + b, id) == RowsOfEvent(a, id) + RowsOfEvent(b, id)
  {
    if b == [] {
      assert a + b == a;
    } else {
      var q := b[..|b| - 1];
      var last := b[|b| - 1];
      RowsOfEventAppend(a, q, id);
      assert (a + b)[..|a + b| - 1] == a + q;
      assert (a + b)[|a + b| - 1] == last;
      AppendAssoc(RowsOfEvent(a, id), RowsOfEvent(q, id), if last.event.id == id then [last] else []);
    }
  }

  lemma {:induction false} CandidatesAll(rs: seq<Row>, floor: int)
    requires forall x :: x in rs ==> Due(x.event, floor)
    ensures Candidates(rs, floor) == rs
  {
    if rs != [] {
      var q := rs[..|rs| - 1];
      assert forall x :: x in q ==> x in rs;
      CandidatesAll(q, floor);
      TakeSnoc(rs, |rs| - 1);
      TakeAll(rs, |rs|);
    }
  }

  lemma {:induction false} RowsOfEventAll(rs: seq<Row>, id: string)
    requires forall x :: x in rs ==> x.event.id == id
    ensures RowsOfEvent(rs, id) == rs
  {
    if rs != [] {
      var q := rs[..|rs| - 1];
      assert forall x :: x in q ==> x in rs;
      RowsOfEventAll(q, id);
      TakeSnoc(rs, |rs| - 1);
      TakeAll(rs, |rs|);
    }
  }

  lemma RowsOfOtherEvent(ev: Event, members: seq<Member>, floor: int, id: string)
    requires ev.id != id
    ensures RowsOfEvent(Candidates(RowsFor(ev, members), floor), id) == []
  {
    var r := RowsOfEvent(Candidates(RowsFor(ev, members), floor), id);
    if r != [] {
      assert r[0] in r;
      RowsForContents(ev, members, r[0]);
    }
  }

  /**
   * With `id` the primary key, the query's rows for a due event are exactly
   * the join rows of that event: one per member, in member-table order.
   */
  lemma {:induction false} DueEventRows(events: seq<Event>, members: seq<Member>, floor: int, e: Event)
    requires UniqueIds(events) && e in events && Due(e, floor)
    ensures RowsOfEvent(Candidates(Join(events, members), floor), e.id) == RowsFor(e, members)
  {
    var n := |events| - 1;
    var p := events[..n];
    var last := events[n];
    if last == e {
      LastEventRows(events, members, floor);
    } else {
      assert e in p && last.id != e.id && UniqueIds(p) by {
        var i :| 0 <= i < |events| && events[i] == e;
        assert i < n && p[i] == e;
      }
      JoinRowsSplit(events, members, floor, e.id);
      DueEventRows(p, members, floor, e);
      RowsOfOtherEvent(last, members, floor, e.id);
    }
  }

  lemma LastEventRows(events: seq<Event>, members: seq<Member>, floor: int)
    requires UniqueIds(events) && events != [] && Due(events[|events| - 1], floor)
    ensures var e := events[|events| - 1];
      RowsOfEvent(Candidates(Join(events, members), floor), e.id) == RowsFor(e, members)
  {
    var n := |events| - 1;
    var p := events[..n];
    var e := events[n];
    assert forall i :: 0 <= i < n ==> p[i].id != e.id by {
      forall i | 0 <= i < n ensures p[i].id != e.id {
        assert p[i] == events[i];
      }
    }
    JoinRowsSplit(events, members, floor, e.id);
    OwnRows(e, members, floor);
    NoRowsOf(p, members, floor, e.id);
  }

  lemma JoinRowsSplit(events: seq<Event>, members: seq<Member>, floor: int, id: string)
    requires events != []
    ensures var n := |events| - 1;
      RowsOfEvent(Candidates(Join(events, members), floor), id) ==
      RowsOfEvent(Candidates(Join(events[..n], members), floor), id) +
      RowsOfEvent(Candidates(RowsFor(events[n], members), floor), id)
  {
    var n := |events| - 1;
    CandidatesAppend(Join(events[..n], members), RowsFor(events[n], members), floor);
    RowsOfEventAppend(Candidates(Join(events[..n], members), floor),
                      Candidates(RowsFor(events[n], members), floor), id);
  }

  lemma OwnRows(e: Event, members: seq<Member>, floor: int)
    requires Due(e, floor)
    ensures RowsOfEvent(Candidates(RowsFor(e, members), floor), e.id) == RowsFor(e, members)
  {
    forall x | x in RowsFor(e, members) ensures Due(x.event, floor) && x.event.id == e.id {
      RowsForContents(e, members, x);
    }
    CandidatesAll(RowsFor(e, members), floor);
    RowsOfEventAll(RowsFor(e, members), e.id);
  }

  lemma NoRowsOf(events: seq<Event>, members: seq<Member>, floor: int, id: string)
    requires forall i :: 0 <= i < |events| ==> events[i].id != id
    ensures RowsOfEvent(Candidates(Join(events, members), floor), id) == []
  {
    var rest := RowsOfEvent(Candidates(Join(events, members), floor), id);
    if rest != [] {
      var x := rest[0];
      assert x in rest;
      JoinSource(events, members, x);
      var i :| 0 <= i < |events| && x in RowsFor(events[i], members);
      RowsForContents(events[i], members, x);
      assert false;
    }
  }

  /** A stored event with this id is due at the minute, and it has member rows. */
  predicate DueWithMembers(events: seq<Event>, members: seq<Member>, floor: int, id: string) {
    exists e :: e in events && e.id == id && Due(e, floor) && UsersOf(members, id) != []
  }

  /**
   * An id is grouped on a tick iff a stored event with that id is due at the
   * tick's minute and has at least one member row. In particular an event
   * with no members is never notified, even one posting to a channel.
   */
  lemma GroupedIff(events: seq<Event>, members: seq<Member>, floor: int, id: string)
    ensures id in Group(Candidates(Join(events, members), floor)) <==> DueWithMembers(events, members, floor, id)
  {
    var rows := Candidates(Join(events, members), floor);
    GroupKeys(rows, id);
    if HasMemberRow(rows, id) {
      var x :| x in rows && x.event.id == id && x.user.Some?;
      JoinMemberRows(events, members, x);
      UsersOfContents(members, id, x.user.value);
    }
    if exists e :: e in events && e.id == id && Due(e, floor) && UsersOf(members, id) != [] {
      var e :| e in events && e.id == id && Due(e, floor) && UsersOf(members, id) != [];
      var u := UsersOf(members, id)[0];
      UsersOfContents(members, id, u);
      JoinMemberRows(events, members, Row(e, Some(u)));
      assert Row(e, Some(u)) in rows;
    }
  }

  /**
   * An event without member rows is never notified, even when it names a
   * channel: its only join row has a NULL user, and the scan loop skips it.
   */
  lemma ChannelEventWithoutMembers(events: seq<Event>, members: seq<Member>, floor: int, e: Event)
    requires e in events && e.channel.Some? && UsersOf(members, e.id) == []
    ensures e.id !in Group(Candidates(Join(events, members), floor))
  {
    GroupedIff(events, members, floor, e.id);
  }

  /**
   * A due event with members is grouped into its selected columns with its
   * members, in member-table order, as attendees.
   */
  lemma DueEventGrouped(events: seq<Event>, members: seq<Member>, floor: int, e: Event)
    requires UniqueIds(events) && e in events && Due(e, floor) && UsersOf(members, e.id) != []
    ensures var groups := Group(Candidates(Join(events, members), floor));
      e.id in groups && groups[e.id] == Scanned(e).(attendees := UsersOf(members, e.id))
  {
    var rows := Candidates(Join(events, members), floor);
    GroupedIff(events, members, floor, e.id);
    GroupAttendees(rows, e.id);
    DueEventRows(events, members, floor, e);
    MembersOfRowsFor(e, members);
    GroupColumns(rows, e.id);
    var i :| 0 <= i < |rows| && rows[i].event.id == e.id && rows[i].user.Some? &&
      Group(rows)[e.id] == Scanned(rows[i].event).(attendees := Group(rows)[e.id].attendees);
    assert rows[i] in rows;
    JoinMemberRows(events, members, rows[i]);
    var j :| 0 <= j < |events| && events[j] == rows[i].event;
    var k :| 0 <= k < |events| && events[k] == e;
  }

  /** Every stored row of `id` is marked processed for the minute `floor` it starts at. */
  ghost predicate Settled(events: seq<Event>, id: string, floor: int) {
    forall i :: 0 <= i < |events| && events[i].id == id ==>
      events[i].start.at == floor && events[i].processed == Some(floor)
  }

  /** An event marked for a minute is not selected again on a tick of that minute. */
  lemma SettledNotGrouped(events: seq<Event>, members: seq<Member>, floor: int, id: string)
    requires Settled(events, id, floor)
    ensures id !in Group(Candidates(Join(events, members), floor))
  {
    GroupedIff(events, members, floor, id);
  }

  /**
   * The next tick in the same minute selects exactly the events whose
   * `processed` update failed: once marking succeeds for all of them, a
   * repeated tick of that minute notifies nobody.
   */
  lemma SecondTick(events: seq<Event>, members: seq<Member>, floor: int, fails: set<string>)
    ensures var first := Group(Candidates(Join(events, members), floor)).Keys;
      Group(Candidates(Join(MarkAll(events, first - fails, floor), members), floor)).Keys == first * fails
  {
    var first := Group(Candidates(Join(events, members), floor)).Keys;
    var marked := MarkAll(events, first - fails, floor);
    forall id ensures id in Group(Candidates(Join(marked, members), floor)) <==> id in first && id in fails {
      SecondTickAt(events, members, floor, fails, id);
    }
  }

  lemma SecondTickAt(events: seq<Event>, members: seq<Member>, floor: int, fails: set<string>, id: string)
    ensures var first := Group(Candidates(Join(events, members), floor)).Keys;
      id in Group(Candidates(Join(MarkAll(events, first - fails, floor), members), floor)) <==>
      id in first && id in fails
  {
    var first := Group(Candidates(Join(events, members), floor)).Keys;
    var marked := MarkAll(events, first - fails, floor);
    GroupedIff(events, members, floor, id);
    GroupedIff(marked, members, floor, id);
    MarkedNotDue(events, members, first - fails, floor, id);
  }

  /** After marking, an id is due with members iff it was and was not marked. */
  lemma MarkedNotDue(events: seq<Event>, members: seq<Member>, ids: set<string>, floor: int, id: string)
    ensures DueWithMembers(MarkAll(events, ids, floor), members, floor, id) <==>
      DueWithMembers(events, members, floor, id) && id !in ids
  {
    var marked := MarkAll(events, ids, floor);
    if DueWithMembers(marked, members, floor, id) {
      var e :| e in marked && e.id == id && Due(e, floor) && UsersOf(members, id) != [];
      var i :| 0 <= i < |marked| && marked[i] == e;
      MarkedDue(events, ids, floor, i);
      assert events[i] in events;
    }
    if DueWithMembers(events, members, floor, id) && id !in ids {
      var e :| e in events && e.id == id && Due(e, floor) && UsersOf(members, id) != [];
      var i :| 0 <= i < |events| && events[i] == e;
      MarkedDue(events, ids, floor, i);
      assert marked[i] in marked;
    }
  }

  /** A marked row is no longer due at the minute; any other row is as due as it was. */
  lemma MarkedDue(events: seq<Event>, ids: set<string>, floor: int, i: int)
    requires 0 <= i < |events|
    ensures var r := MarkAll(events, ids, floor);
      |r| == |events| && r[i].id == events[i].id &&
      (Due(r[i], floor) <==> events[i].id !in ids && Due(events[i], floor))
  {
  }

  /** The pairs (event id, minute) recorded for a set of marked ids. */
  function Pairs(ids: set<string>, floor: int): set<(string, int)> {
    set id | id in ids :: (id, floor)
  }

  /**
   * Marking the grouped events keeps every recorded pair settled, and settles
   * the pairs of the events marked now.
   */
  lemma MarkingSettles(events: seq<Event>, members: seq<Member>, floor: int, fails: set<string>,
                       done: set<(string, int)>)
    requires UniqueIds(events)
    requires forall p :: p in done ==> Settled(events, p.0, p.1)
    ensures var marked := Group(Candidates(Join(events, members), floor)).Keys - fails;
      forall p :: p in done + Pairs(marked, floor) ==> Settled(MarkAll(events, marked, floor), p.0, p.1)
  {
    var marked := Group(Candidates(Join(events, members), floor)).Keys - fails;
    forall p | p in done + Pairs(marked, floor) ensures Settled(MarkAll(events, marked, floor), p.0, p.1) {
      GroupedIff(events, members, floor, p.0);
      var k := 0;
      if p.0 in marked {
        var e :| e in events && e.id == p.0 && Due(e, floor) && UsersOf(members, p.0) != [];
        k :| 0 <= k < |events| && events[k] == e;
      }
      SettleAt(events, marked, floor, p.0, p.1, p in done, k);
    }
  }

  /** One recorded pair stays, or becomes, settled when the due events in `marked` are marked. */
  lemma SettleAt(events: seq<Event>, marked: set<string>, floor: int, id: string, f: int, old_: bool, k: int)
    requires UniqueIds(events)
    requires id in marked ==> 0 <= k < |events| && events[k].id == id && Due(events[k], floor)
    requires if old_ then Settled(events, id, f) else id in marked && f == floor
    ensures Settled(MarkAll(events, marked, floor), id, f)
  {
    MarkAllRows(events, marked, floor);
    if id in marked && old_ {
      assert false;
    }
  }

  // ---------------------------------------------------------------------
  // Posting the notices.

  /** Where a notice goes: an event's channel, or the direct channel of the bot and a user. */
  datatype Target = Channel(channel: string) | Direct(user: string)

  /** What became of one notice. */
  datatype Outcome = Posted | NoDirectChannel | PostFailed

  /** One notice the scanner tried to post, as the bot. */
  datatype Attempt = Attempt(target: Target, message: string, sender: string, outcome: Outcome)

  /**
   * The server API's behaviour on this tick: the users whose direct channel
   * cannot be obtained, the targets whose post is refused, and the events
   * whose `processed` update fails.
   */
  datatype Api = Api(lookupFails: set<string>, postFails: set<Target>, updateFails: set<string>)

  function PostOutcome(target: Target, api: Api): Outcome {
    if target in api.postFails then PostFailed else Posted
  }

  function DirectAttempt(user: string, title: string, bot: string, api: Api): Attempt {
    if user in api.lookupFails then Attempt(Direct(user), title, bot, NoDirectChannel)
    else Attempt(Direct(user), title, bot, PostOutcome(Direct(user), api))
  }

  /**
   * The notices for one grouped event: a single post to its channel when it
   * has one, otherwise one direct message per attendee, in attendee order,
   * carrying the event title.
   */
  function Fanout(value: Event, bot: string, api: Api): (r: seq<Attempt>)
    ensures forall a :: a in r ==> a.sender == bot
    ensures value.channel.Some? ==>
      |r| == 1 && r[0].target == Channel(value.channel.value) && r[0].message == ChannelNotice
    ensures value.channel.None? ==>
      (|r| == |value.attendees| &&
       forall k :: 0 <= k < |r| ==> r[k].target == Direct(value.attendees[k]) && r[k].message == value.title)
  {
    if value.channel.Some? then
      [Attempt(Channel(value.channel.value), ChannelNotice, bot, PostOutcome(Channel(value.channel.value), api))]
    else
      seq(|value.attendees|, k requires 0 <= k < |value.attendees| =>
        DirectAttempt(value.attendees[k], value.title, bot, api))
  }

  /**
   * A failure for one target does not suppress or alter the notice to any
   * other: which notices are attempted does not depend on the failures at
   * all, and each notice's outcome depends only on its own target.
   */
  lemma FailuresIsolated(value: Event, bot: string, api: Api, api': Api, k: nat)
    requires k < |Fanout(value, bot, api)|
    ensures |Fanout(value, bot, api')| == |Fanout(value, bot, api)|
    ensures var a, a' := Fanout(value, bot, api)[k], Fanout(value, bot, api')[k];
      a.target == a'.target && a.message == a'.message &&
      ((a.target.Direct? ==> (a.target.user in api.lookupFails <==> a.target.user in api'.lookupFails)) &&
       (a.target in api.postFails <==> a.target in api'.postFails)
       ==> a.outcome == a'.outcome)
  {
  }

  /** The notices of the grouped events, visited in `order`. */
  function Dispatches(groups: map<string, Event>, order: seq<string>, bot: string, api: Api): seq<Attempt> {
    if order == [] then []
    else
      var id := order[|order| - 1];
      Dispatches(groups, order[..|order| - 1], bot, api) + (if id in groups then Fanout(groups[id], bot, api) else [])
  }

  lemma DispatchesSnoc(groups: map<string, Event>, order: seq<string>, id: string, bot: string, api: Api)
    requires id in groups
    ensures Dispatches(groups, order + [id], bot, api) == Dispatches(groups, order, bot, api) + Fanout(groups[id], bot, api)
  {
    assert (order + [id])[..|order|] == order;
  }

  lemma PairsAdd(ids: set<string>, id: string, floor: int)
    ensures Pairs(ids + {id}, floor) == Pairs(ids, floor) + {(id, floor)}
  {
  }

  lemma AddPair(a: set<(string, int)>, b: set<(string, int)>, p: (string, int))
    ensures (a + b) + {p} == a + (b + {p})
  {
  }

  lemma HandledStep(keys: set<string>, remaining: set<string>, fails: set<string>, id: string)
    requires id in remaining && remaining <= keys
    ensures keys - (remaining - {id}) == (keys - remaining) + {id}
    ensures (keys - (remaining - {id})) - fails ==
      if id in fails then (keys - remaining) - fails else ((keys - remaining) - fails) + {id}
  {
  }

  /** `order` lists every id of `ids` exactly once. */
  ghost predicate Enumerates(order: seq<string>, ids: set<string>) {
    (forall i, j :: 0 <= i < j < |order| ==> order[i] != order[j]) &&
    (forall id :: id in order <==> id in ids)
  }

  lemma EnumeratesSnoc(order: seq<string>, ids: set<string>, id: string)
    requires Enumerates(order, ids) && id !in ids
    ensures Enumerates(order + [id], ids + {id})
  {
    assert forall x :: x in order + [id] <==> x in order || x == id;
  }

  /** The order of a dispatch covers each grouped event once, so it has one entry per event. */
  lemma EnumeratesCount(order: seq<string>, ids: set<string>)
    requires Enumerates(order, ids)
    ensures |order| == |ids|
  {
    if order != [] {
      var q := order[..|order| - 1];
      var last := order[|order| - 1];
      assert order == q + [last];
      forall x ensures x in q <==> x in ids - {last} {
        if x in q {
          var i :| 0 <= i < |q| && q[i] == x;
          assert order[i] == x;
        }
        if x in ids - {last} {
          var i :| 0 <= i < |order| && order[i] == x;
          assert i != |order| - 1;
          assert q[i] == x;
        }
      }
      EnumeratesCount(q, ids - {last});
    }
  }

  // ---------------------------------------------------------------------
  // The scanner.

  /**
   * The scan loop of one tick: each row with a member adds its user to its
   * event's entry, creating the entry from the first such row. A failed scan
   * of a row ends the loop; `complete` says whether every row was scanned.
   */
  method GroupRows(rows: seq<Row>, fault: Fault) returns (complete: bool, groups: map<string, Event>)
    requires fault != QueryError
    ensures complete == !Aborts(fault, |rows|)
    ensures complete ==> groups == Group(rows)
  {
    groups := map[];
    var i := 0;
    while i < |rows|
      invariant 0 <= i <= |rows|
      invariant groups == Group(rows[..i])
      invariant fault.ScanError? ==> fault.row >= i
    {
      if fault == ScanError(i) {
        return false, groups;
      }
      var row := rows[i];
      GroupStep(rows, i);
      if row.user.Some? {
        var id := row.event.id;
        if id in groups {
          groups := groups[id := groups[id].(attendees := groups[id].attendees + [row.user.value])];
        } else {
          groups := groups[id := Scanned(row.event).(attendees := [row.user.value])];
        }
      }
      i := i + 1;
    }
    TakeAll(rows, i);
    return true, groups;
  }

  class Background {
    const store: Store
    const botId: string
    const period: int

    /** Every notice attempted so far, in order. */
    var log: seq<Attempt>

    /** The (event id, minute) pairs notified and marked processed so far. */
    ghost var done: set<(string, int)>

    ghost predicate Valid()
      reads this, store
    {
      store.Valid() && period == Period &&
      forall p :: p in done ==> Settled(store.events, p.0, p.1)
    }

    /** `NewBackgroundJob`: a scanner for the bot, ticking every 15 seconds. */
    constructor(store: Store, botId: string)
      requires store.Valid()
      ensures Valid()
      ensures this.store == store && this.botId == botId && period == Period
      ensures log == [] && done == {}
    {
      this.store := store;
      this.botId := botId;
      this.period := Period;
      this.log := [];
      this.done := {};
    }

    /** The notices for one grouped event; a failure is logged and the next attendee is served. */
    method Notify(value: Event, api: Api)
      modifies this`log
      ensures log == old(log) + Fanout(value, botId, api)
    {
      if value.channel.Some? {
        var target := Channel(value.channel.value);
        var outcome := if target in api.postFails then PostFailed else Posted;
        log := log + [Attempt(target, ChannelNotice, botId, outcome)];
      } else {
        var fanout := Fanout(value, botId, api);
        var j := 0;
        while j < |value.attendees|
          invariant 0 <= j <= |value.attendees|
          invariant log == old(log) + fanout[..j]
        {
          var user := value.attendees[j];
          var outcome;
          if user in api.lookupFails {
            outcome := NoDirectChannel;
          } else if Direct(user) in api.postFails {
            outcome := PostFailed;
          } else {
            outcome := Posted;
          }
          AppendTake(old(log), fanout, j);
          log := log + [Attempt(Direct(user), value.title, botId, outcome)];
          j := j + 1;
        }
        TakeAll(fanout, j);
      }
    }

    /** The notices for one grouped event, then `UPDATE … SET processed = floor` for it. */
    method Handle(value: Event, floor: int, api: Api)
      requires store.Valid()
      modifies this`log, this`done, store
      ensures store.Valid() && store.members == old(store.members)
      ensures log == old(log) + Fanout(value, botId, api)
      ensures value.id !in api.updateFails ==>
        store.events == MarkAll(old(store.events), {value.id}, floor) && done == old(done) + {(value.id, floor)}
      ensures value.id in api.updateFails ==> store.events == old(store.events) && done == old(done)
    {
      Notify(value, api);
      if value.id !in api.updateFails {
        store.SetProcessed(value.id, floor);
        done := done + {(value.id, floor)};
      }
    }

    /**
     * Posts the notices of every grouped event, in an order the runtime
     * chooses, and marks each event processed for the minute unless that
     * update fails.
     */
    method Dispatch(groups: map<string, Event>, floor: int, api: Api) returns (ghost order: seq<string>)
      requires store.Valid()
      requires forall id :: id in groups ==> groups[id].id == id
      modifies this`log, this`done, store
      ensures store.Valid() && store.members == old(store.members)
      ensures Enumerates(order, groups.Keys)
      ensures log == old(log) + Dispatches(groups, order, botId, api)
      ensures store.events == MarkAll(old(store.events), groups.Keys - api.updateFails, floor)
      ensures done == old(done) + Pairs(groups.Keys - api.updateFails, floor)
    {
      order := [];
      var remaining := groups.Keys;
      ghost var marked: set<string> := {};
      assert store.events == MarkAll(store.events, {}, floor);
      while remaining != {}
        invariant remaining <= groups.Keys
        invariant Enumerates(order, groups.Keys - remaining)
        invariant marked == (groups.Keys - remaining) - api.updateFails
        invariant log == old(log) + Dispatches(groups, order, botId, api)
        invariant store.Valid() && store.members == old(store.members)
        invariant store.events == MarkAll(old(store.events), marked, floor)
        invariant done == old(done) + Pairs(marked, floor)
        decreases |remaining|
      {
        var id :| id in remaining;
        var value := groups[id];
        DispatchesSnoc(groups, order, id, botId, api);
        AppendAssoc(old(log), Dispatches(groups, order, botId, api), Fanout(value, botId, api));
        if id !in api.updateFails {
          MarkAllUnion(old(store.events), marked, id, floor);
          PairsAdd(marked, id, floor);
          AddPair(old(done), Pairs(marked, floor), (id, floor));
        }
        Handle(value, floor, api);
        if id !in api.updateFails {
          marked := marked + {id};
        }
        EnumeratesSnoc(order, groups.Keys - remaining, id);
        HandledStep(groups.Keys, remaining, api.updateFails, id);
        order := order + [id];
        remaining := remaining - {id};
      }
    }

    /**
     * One tick: select the rows due at the tick's minute, group them by
     * event, and notify and mark each event. A failed query, or a failed
     * scan of a row, ends the tick before anything is posted or marked.
     */
    method Process(tick: Time, fault: Fault, api: Api) returns (ghost order: seq<string>)
      requires Valid()
      modifies this, store
      ensures Valid() && store.members == old(store.members)
      ensures var floor := TickFloor(tick);
        var rows := Candidates(Join(old(store.events), old(store.members)), floor);
        var groups := Group(rows);
        if Aborts(fault, |rows|) then
          log == old(log) && store.events == old(store.events) && done == old(done)
        else
          Enumerates(order, groups.Keys) &&
          log == old(log) + Dispatches(groups, order, botId, api) &&
          store.events == MarkAll(old(store.events), groups.Keys - api.updateFails, floor) &&
          done == old(done) + Pairs(groups.Keys - api.updateFails, floor)
      ensures var floor := TickFloor(tick);
        forall id :: id in Group(Candidates(Join(old(store.events), old(store.members)), floor)) ==>
          (id, floor) !in old(done)
    {
      var floor := TickFloor(tick);
      forall id | id in Group(Candidates(Join(store.events, store.members), floor))
        ensures (id, floor) !in done
      {
        if (id, floor) in done {
          SettledNotGrouped(store.events, store.members, floor, id);
        }
      }
      if fault == QueryError {
        return [];
      }
      var rows := Candidates(store.Joined(), floor);
      var complete, groups := GroupRows(rows, fault);
      if !complete {
        return [];
      }
      MarkingSettles(store.events, store.members, floor, api.updateFails, done);
      GroupIds(rows);
      order := Dispatch(groups, floor, api);
    }
  }
}
