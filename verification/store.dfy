/**
 * The two tables the background scanner reads and writes, `calendar_events`
 * and `calendar_members`, held in memory, with the outer join its query runs
 * and the `processed` update it issues.
 */
module Db {
  import opened Options
  import opened Events
  import opened Seqs

  /** A row of `calendar_members`: one user attending one event. */
  datatype Member = Member(event: string, user: string)

  /** The users the member table lists for event `id`, in table order. */
  function UsersOf(members: seq<Member>, id: string): (users: seq<string>)
    ensures |users| <= |members|
  {
    if members == [] then []
    else
      var last := members[|members| - 1];
      var prefix := UsersOf(members[..|members| - 1], id);
      if last.event == id then prefix + [last.user] else prefix
  }

  /** A user is listed for `id` iff some member row pairs them. */
  lemma {:induction false} UsersOfContents(members: seq<Member>, id: string, u: string)
    ensures u in UsersOf(members, id) <==> Member(id, u) in members
  {
    if members != [] {
      var p := members[..|members| - 1];
      var last := members[|members| - 1];
      UsersOfContents(p, id, u);
      assert members == p + [last];
      InConcat(Member(id, u), p, [last]);
      if last.event == id {
        InConcat(u, UsersOf(p, id), [last.user]);
      }
    }
  }

  /**
   * The rows the join yields for one event: one per member row of the event,
   * in member-table order, or a single row with a NULL user when it has none.
   */
  function RowsFor(e: Event, members: seq<Member>): (r: seq<Row>)
    ensures |r| > 0
  {
    var us := UsersOf(members, e.id);
    if us == [] then [Row(e, None)]
    else seq(|us|, k requires 0 <= k < |us| => Row(e, Some(us[k])))
  }

  /** The rows of an event carry that event, and their users are exactly its member rows. */
  lemma RowsForContents(e: Event, members: seq<Member>, x: Row)
    ensures x in RowsFor(e, members) ==> x.event == e
    ensures x in RowsFor(e, members) && x.user.Some? <==>
      x.event == e && x.user.Some? && x.user.value in UsersOf(members, e.id)
  {
    var us := UsersOf(members, e.id);
    if x.event == e && x.user.Some? && x.user.value in us {
      var k :| 0 <= k < |us| && us[k] == x.user.value;
      assert RowsFor(e, members)[k] == x;
    }
  }

  /** The join yields, for the event at each position, exactly its member users, in table order. */
  lemma MembersOfRowsFor(e: Event, members: seq<Member>)
    ensures Members(RowsFor(e, members)) == UsersOf(members, e.id)
  {
    var us := UsersOf(members, e.id);
    if us != [] {
      MembersOfUsers(e, us, |us|);
      assert RowsFor(e, members)[..|us|] == RowsFor(e, members);
      assert us[..|us|] == us;
    } else {
      assert RowsFor(e, members) == [Row(e, None)];
      assert [Row(e, None)][..0] == [];
    }
  }

  lemma {:induction false} MembersOfUsers(e: Event, us: seq<string>, n: nat)
    requires n <= |us|
    ensures Members(seq(|us|, k requires 0 <= k < |us| => Row(e, Some(us[k])))[..n]) == us[..n]
  {
    var rows := seq(|us|, k requires 0 <= k < |us| => Row(e, Some(us[k])));
    if n > 0 {
      MembersOfUsers(e, us, n - 1);
      assert rows[..n][..n - 1] == rows[..n - 1];
      assert rows[..n][n - 1] == Row(e, Some(us[n - 1]));
      TakeSnoc(us, n - 1);
    }
  }

  /**
   * `calendar_events ce FULL JOIN calendar_members cm ON ce.id = cm."event"`,
   * keeping only rows that have an event (a condition on `ce` columns drops
   * member rows whose event is gone): events in table order, each followed
   * by its member rows in table order.
   */
  function Join(events: seq<Event>, members: seq<Member>): seq<Row> {
    if events == [] then []
    else Join(events[..|events| - 1], members) + RowsFor(events[|events| - 1], members)
  }

  /** A row of the join belongs to one of the stored events. */
  lemma {:induction false} JoinSource(events: seq<Event>, members: seq<Member>, x: Row)
    requires x in Join(events, members)
    ensures exists i :: 0 <= i < |events| && x in RowsFor(events[i], members)
  {
    var n := |events| - 1;
    var p := events[..n];
    InConcat(x, Join(p, members), RowsFor(events[n], members));
    if x in Join(p, members) {
      JoinSource(p, members, x);
      var i :| 0 <= i < |p| && x in RowsFor(p[i], members);
      assert p[i] == events[i];
    }
  }

  /** Every row of every stored event is in the join. */
  lemma {:induction false} JoinKeeps(events: seq<Event>, members: seq<Member>, i: nat, x: Row)
    requires i < |events| && x in RowsFor(events[i], members)
    ensures x in Join(events, members)
  {
    var n := |events| - 1;
    var p := events[..n];
    InConcat(x, Join(p, members), RowsFor(events[n], members));
    if i < n {
      assert p[i] == events[i];
      JoinKeeps(p, members, i, x);
    }
  }

  /** The rows of the join that have a user: one per stored event and member row of it. */
  lemma JoinMemberRows(events: seq<Event>, members: seq<Member>, x: Row)
    ensures x in Join(events, members) && x.user.Some? <==>
      x.event in events && x.user.Some? && Member(x.event.id, x.user.value) in members
  {
    if x in Join(events, members) && x.user.Some? {
      JoinSource(events, members, x);
      var i :| 0 <= i < |events| && x in RowsFor(events[i], members);
      RowsForContents(events[i], members, x);
      UsersOfContents(members, x.event.id, x.user.value);
    }
    if x.event in events && x.user.Some? && Member(x.event.id, x.user.value) in members {
      var i :| 0 <= i < |events| && events[i] == x.event;
      UsersOfContents(members, x.event.id, x.user.value);
      RowsForContents(events[i], members, x);
      JoinKeeps(events, members, i, x);
    }
  }

  /**
   * `UPDATE calendar_events SET processed = :processed WHERE id = :eventId`,
   * once for each id in `ids`: those rows get `processed = floor`, every
   * other column and every other row is left as it was.
   */
  function MarkAll(events: seq<Event>, ids: set<string>, floor: int): seq<Event> {
    seq(|events|, i requires 0 <= i < |events| =>
      if events[i].id in ids then events[i].(processed := Some(floor)) else events[i])
  }

  /** Marking touches only the `processed` column, and only of the rows whose id is in `ids`. */
  lemma MarkAllRows(events: seq<Event>, ids: set<string>, floor: int)
    ensures var r := MarkAll(events, ids, floor);
      |r| == |events| &&
      (forall i :: 0 <= i < |events| ==> r[i].(processed := events[i].processed) == events[i]) &&
      (forall i :: 0 <= i < |events| && events[i].id !in ids ==> r[i] == events[i]) &&
      (forall i :: 0 <= i < |events| && events[i].id in ids ==> r[i].processed == Some(floor))
  {
  }

  /** Marking one more id after a set of ids is marking the union. */
  lemma MarkAllUnion(events: seq<Event>, ids: set<string>, id: string, floor: int)
    ensures MarkAll(MarkAll(events, ids, floor), {id}, floor) == MarkAll(events, ids + {id}, floor)
  {
  }

  /** Marking keeps the primary key: ids stay unique. */
  lemma MarkAllKeepsIds(events: seq<Event>, ids: set<string>, floor: int)
    requires UniqueIds(events)
    ensures UniqueIds(MarkAll(events, ids, floor))
  {
    MarkAllRows(events, ids, floor);
  }

  /** The store: the event rows, with their mutable `processed` column, and the member rows. */
  class Store {
    var events: seq<Event>
    var members: seq<Member>

    /** `id` is the primary key of `calendar_events`. */
    ghost predicate Valid()
      reads this
    {
      UniqueIds(events)
    }

    constructor(events: seq<Event>, members: seq<Member>)
      requires UniqueIds(events)
      ensures Valid() && this.events == events && this.members == members
    {
      this.events := events;
      this.members := members;
    }

    /** What the scanner's join query reads before its WHERE clause. */
    function Joined(): seq<Row>
      reads this
    {
      Join(events, members)
    }

    /** The scanner's `UPDATE … SET processed = floor WHERE id = id`. */
    method SetProcessed(id: string, floor: int)
      requires Valid()
      modifies this
      ensures Valid()
      ensures events == MarkAll(old(events), {id}, floor) && members == old(members)
    {
      MarkAllKeepsIds(events, {id}, floor);
      events := MarkAll(events, {id}, floor);
    }
  }

}
