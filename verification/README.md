# Calendar plugin core: events, their occurrences and the start-time notifier

This project models the server core of the Mattermost calendar plugin:

- the recurrence column codec (`RecurrenceItem.Scan` / `Value`);
- the choice of a user's time zone (`GetUserLocation`);
- the row that `CreateEvent` stores;
- the row fold of `GetEvent`;
- the calendar listing of `GetEvents`. The listing keeps each one-off event once, files recurrent events by weekday code, and walks a day cursor that emits a re-dated copy of every recurrent event on each matching day;
- the background notifier. Every 15 seconds it floors the tick to a minute and selects the events starting at that minute that are not yet processed for it. It groups their member rows into one event each, posts a channel notice or direct messages to the attendees, and marks each event processed for the minute.

Modules:

- `Options`: an `Option` type.
- `Seqs`: generic sequence lemmas.
- `Civil`: the proleptic Gregorian calendar and fixed-offset zones. Go's `time.Time` is `Time(at, offset)`, with `at` in nanoseconds since 1970-01-01T00:00Z and the zone offset in seconds.
- `Recurrence`: the JSON text of the `recurrence` column.
- `Events`: the request handlers, over the rows their queries return.
- `Db`: the two tables and the outer join the notifier reads.
- `BackgroundJob`: the notifier, as a class whose `Process` method is one tick.

Three behaviours of the code are worth noting.

- **The tick's minute.** The notifier reads the tick's wall-clock fields in the server's own zone and re-reads them as UTC (`TickFloor`). The resulting minute is the minute of the instant only when the server runs in UTC. `TickFloor` states what is computed.
- **Events without members.** The notifier's join yields a row with a NULL user for an event without members. The scanner skips such rows (server/background.go:80-82) before the channel branch (server/background.go:102-107) is reached. So an event that has a channel but no member rows is never announced (`ChannelEventWithoutMembers`).
- **Recurrence values.** `Scan` never reports an error for bytes or text. A value that is JSON `null` leaves the list it was given in place (`DecodeNull` with `Unmarshal`), and so does one that is not valid JSON (`ScanKeepsOnMalformed`). An array is written slot by slot into that list: an element outside Go's int64 range keeps the slot's old value (`UnmarshalOverflow`). The handlers scan each row into a newly allocated, and so empty, list. They therefore see a nil pointer only for a NULL column, and an empty list for `null` or a malformed value (`FieldOfColumn`). Only the nil pointer makes `GetEvents` dereference nil.

## Model

| member | source | states |
|---|---|---|
| Recurrence.Scan | server/event.go:17-28 | byte and text values are accepted, and any other driver type is refused with "Unsupported type: " and the old list kept; the list changes only on an accepted value |
| Recurrence.ScanOfValue | server/event.go:17-31 | scanning what `Value` writes for a list of int64 values into a fresh list gives back the same list, a nil list included: the column round-trips |
| Recurrence.DecodeNull | server/event.go:20-23 | the JSON text `null` decodes to JSON null, which leaves the list as it was: neither SQL NULL nor a nil pointer |
| Recurrence.Value | server/event.go:29-31 | the stored text is `null` exactly for a nil list, and a bracketed array otherwise |
| Recurrence.Decode | server/event.go:20-23 | only a text that starts, after white space, with `null` or `[` can decode |
| Recurrence.Unmarshal | server/event.go:20-23 | a text that decodes to an array gives a list of the array's length, written slot by slot into the old one; anything else leaves the list as it was |
| Recurrence.Merge | server/event.go:20-23 | each element that fits Go's int64 is stored as written, and each one that does not keeps the old list's element at that index, or 0 past its end |
| Recurrence.DecodeArray | server/event.go:20-23 | the compact text `Value` writes for a list of integers parses back to exactly those integers, in order |
| Recurrence.UnmarshalOverflow | server/event.go:20-23 | an element outside Go's int64 range keeps its slot's old value, which is 0 past the old list's end and always 0 in a fresh list; the list takes the array's length |
| Recurrence.ScanReplaces | server/event.go:17-31 | a column `Value` wrote from a list of int64 values replaces whatever list it is scanned into with that list |
| Recurrence.ScanField | server/event.go:17-28 | a row's recurrence field is a nil pointer exactly for a NULL column; the row fails exactly for a driver value `Scan` refuses |
| Recurrence.FieldOfColumn | server/event.go:17-24 | bytes and text scan alike; an array gives a pointer to its elements, each one outside Go's int64 range as 0, and `null` or a malformed text a pointer to an empty list |
| Recurrence.FieldOfValue | server/event.go:17-31 | a column written by `Value` from a list of int64 values scans back to a pointer to that list |
| Recurrence.ParseJoined | server/event.go:20-23 | the element parser reads back every integer of a comma-joined list and stops at the closing bracket |
| Recurrence.ParseIntText | server/event.go:20-23 | an integer's decimal text, negative ones included, parses back to that integer and leaves the rest of the input |
| Recurrence.ScanKeepsOnMalformed | server/event.go:17-24 | a malformed value is accepted without error and leaves the previous list unchanged |
| Events.LoadLocation | server/event.go:56-60 | the empty name and "UTC" give UTC, "Local" gives the server's zone; another name loads iff the zone database has it |
| Events.GetUserLocation | server/event.go:47-63 | the user's zone is the loaded zone, or UTC when the name cannot be loaded |
| Events.UserLocationChoice | server/event.go:50-60 | the automatic zone is used exactly when "useAutomaticTimezone" is "true", otherwise the manual one; a missing key reads as "" and gives UTC, "Local" gives the server's zone, an unknown name gives UTC |
| Events.StoredRow | server/event.go:299-336 | the stored row has the new id, the creator as owner and the creation instant; its start and end show the submitted wall-clock fields in the user's zone; `recurrent` holds iff the recurrence list is non-empty; `processed` is NULL; every other field is as submitted |
| Events.CreateEvent | server/event.go:299-375 | the handler answers with the stored row exactly when the event insert succeeds and the last attendee's member insert does not fail; a failure of an earlier member insert is ignored |
| Events.MembersContents | server/event.go:118-120 | the attendee list holds exactly the non-NULL member values of the rows |
| Events.GetEvent | server/event.go:84-139 | the answer is built from the event's rows: the last row's columns, every member as attendee, and times shown in the user's zone; a query error or scan error gives no answer |
| Events.SelectCalendar | server/event.go:182-195 | keeps exactly the rows the user attends or owns whose event starts inside the window or is recurrent |
| Events.ShownEvents | server/event.go:216-217 | each row's event with its times moved to the user's zone, the instants unchanged |
| Events.DayCount | server/event.go:233-260 | the cursor visits exactly the 24-hour steps from the start that lie before the end |
| Events.Redate | server/event.go:236-256 | the copy takes the cursor's date and the event's own clock fields in the event's zone; nothing else changes |
| Events.RedateSpan | server/event.go:236-256 | when start and end share a zone, an occurrence's length is the end's time of day minus the start's, whatever the base event's length |
| Events.RedateAcrossMidnight | server/event.go:236-256 | an event whose end's time of day is before its start's, one crossing midnight, is shown with its end before its start, shorter than the event itself |
| Events.GetEvents | server/event.go:154-261 | the listing is the kept one-off events followed by the recurrent occurrences of every visited day; a query error, a scan error or a recurrent row without a list gives no answer |
| Events.CollectRows | server/event.go:205-230 | the row loop yields the kept one-off events and weekday buckets matching their reference definitions, or stops exactly when a scan fails or a recurrent row has no list |
| Events.CollectRow | server/event.go:207-229 | one row extends the kept events and the buckets as the reference definitions do, and fails iff the row is recurrent without a list |
| Events.FileByWeekday | server/event.go:219-222 | a recurrent event is appended once to the bucket of each of its codes, repeats included |
| Events.FiledSkipsSingle | server/event.go:219-229 | a one-off event leaves every bucket unchanged |
| Events.CrashesPrefix | server/event.go:219-220 | once the rows before it are safe, the loop crashes at a row exactly when it is recurrent with a NULL recurrence column, and gets past it otherwise |
| Events.SinglesIds | server/event.go:226-229 | an id is kept iff some one-off row carries it |
| Events.SinglesUnique | server/event.go:226-229 | kept one-off events have distinct ids |
| Events.SinglesSound | server/event.go:226-229 | every kept event is the first one-off row of its id |
| Events.SinglesComplete | server/event.go:226-229 | the first one-off row of every id is kept |
| Events.BucketContents | server/event.go:219-222 | a weekday's bucket holds exactly the recurrent events listing that code |
| Events.DuplicatesKept | server/event.go:219-222 | an illustration of `BucketSize`: a code listed twice, for an event returned twice, files the event four times |
| Events.WalkDays | server/event.go:233-261 | the day walk emits exactly the reference occurrences for the day count |
| Events.EmitDay | server/event.go:235-259 | one day appends the re-dated copies of its weekday's bucket |
| Events.DayOccurrencesContents | server/event.go:235-258 | a day's occurrences are exactly the recurrent events whose codes list the cursor's weekday, re-dated to the cursor |
| Events.OccurrencesContents | server/event.go:233-261 | an occurrence is emitted iff some visited day's weekday is listed by a recurrent event and the occurrence is that event re-dated to that day |
| Events.WeekdayAfterDays | server/event.go:235-260 | k 24-hour steps advance the weekday by k modulo 7 |
| Events.WeeklyOccurrence | server/event.go:233-261 | a window of at least seven days emits every recurrent event on each weekday it lists |
| Events.OccursOnDay | server/event.go:233-261 | a visited day listed by an event emits that event re-dated to the day |
| Events.WeekdayReached | server/event.go:233-261 | every weekday is reached within the first seven steps of the cursor |
| Events.NoWeekCodesNoOccurrences | server/event.go:219-261 | rows whose codes all lie outside 0..6 emit no occurrence at all |
| Events.InWeek | server/event.go:219-222 | the codes a weekday can match are exactly the listed codes in 0..6 |
| Events.CountInWeek | server/event.go:219-222 | dropping the codes outside 0..6 keeps how often each weekday is listed |
| Events.Trimmed | server/event.go:219-222 | trimming changes only the recurrence list, to its codes in 0..6 |
| Events.BucketTrimmed | server/event.go:219-222 | a weekday's bucket of the trimmed rows is the trimmed bucket |
| Events.NoOccurrencesOutsideWeek | server/event.go:219-261 | dropping every code outside 0..6 from every row changes the occurrences only by the same dropping: a row listing `[1, 9]` is shown exactly as one listing `[1]` |
| Events.BucketSize | server/event.go:219-222 | a weekday's bucket holds, for each recurrent row, one copy per listing of that code |
| Events.OccurrenceCount | server/event.go:219-261 | the walk emits, on each visited day, one occurrence per recurrent row and per listing of that day's weekday, and nothing else |
| Events.EveryDayOnce | server/event.go:219-261 | a row listing each weekday 0..6 exactly once is shown once on every visited day: `n` days give `n` occurrences, the k-th re-dated to day k |
| Civil.ToUTCOfToLocal | server/event.go:307-330 | reading an instant's wall clock in a zone and converting it back gives the same instant |
| Civil.ToLocalOfToUTC | server/event.go:307-330 | converting valid wall-clock fields in a zone and reading them back gives the same fields |
| Civil.WeekdayNextDay | server/event.go:233-260 | adding 24 hours advances the weekday by one modulo 7 |
| Civil.ToLocal | server/event.go:307-327 | the wall-clock reading of an instant is a valid calendar date with a time of day inside one day |
| Civil.Weekday | server/event.go:235 | a weekday is a code in 0..6 |
| Civil.WeekdayOfDate | server/event.go:235 | in any zone, a reading's weekday is its date's day number plus 4 (1970-01-01 was a Thursday), modulo 7 |
| Civil.WeekdaySunday | server/event.go:235 | every reading dated 1970-01-04, a Sunday, has weekday code 0, so with `WeekdayNextDay` every date has Go's code |
| Civil.In | server/event.go:216-217 | changing the zone keeps the instant and takes the new offset |
| Db.UsersOfContents | server/background.go:45-57 | a user is listed for an event iff a member row pairs them |
| Db.RowsForContents | server/background.go:45-57 | an event's join rows carry that event, and their users are exactly its members |
| Db.MembersOfRowsFor | server/background.go:45-57 | the members read back from an event's join rows are its member users, in table order |
| Db.JoinMemberRows | server/background.go:45-57 | the join rows with a user are exactly the pairs of a stored event and one of its member rows |
| Db.JoinSource | server/background.go:45-57 | every row of the join comes from one stored event |
| Db.JoinKeeps | server/background.go:45-57 | every row of every stored event is in the join |
| Db.MarkAllRows | server/background.go:131-136 | the update keeps the table's length, changes only `processed`, sets it to the minute for the named ids and leaves every other row as it was |
| Db.MarkAllKeepsIds | server/background.go:131-136 | the update keeps ids unique |
| Db.Store.SetProcessed | server/background.go:131-140 | the event table becomes the old one with that id marked processed for the minute; the member table is unchanged |
| BackgroundJob.TickFloor | server/background.go:32-44 | the result is a minute boundary, and the tick's local wall-clock reading lies inside that minute |
| BackgroundJob.MinuteOfTick | server/background.go:32-44 | every tick whose local reading falls in a minute floors to exactly that minute |
| BackgroundJob.TickerReachesMinute | server/background.go:146-153 | a 15-second ticker has a tick that floors to every later minute, so no start minute is skipped |
| BackgroundJob.Candidates | server/background.go:45-57 | the query keeps exactly the rows whose event starts at the minute and is not processed for it |
| BackgroundJob.DueEventRows | server/background.go:45-57 | the query returns all of a due event's join rows, in member order |
| BackgroundJob.Scanned | server/background.go:87-98 | the grouped event has the row's id, title, channel, start, end, creation time and owner, no attendees yet, no `processed` value, and is not recurrent with a nil recurrence, since those columns are not selected |
| BackgroundJob.GroupKeys | server/background.go:80-82 | an event gets an entry iff one of its rows has a user: NULL-user rows are skipped |
| BackgroundJob.GroupAttendees | server/background.go:84-86 | an entry's attendees are its rows' users, in row order |
| BackgroundJob.GroupColumns | server/background.go:87-98 | an entry has the columns of its event's first member row |
| BackgroundJob.GroupIds | server/background.go:84-98 | every entry is keyed by its own event id |
| BackgroundJob.GroupedIff | server/background.go:45-98 | an event is grouped iff it is due at the minute and has at least one member |
| BackgroundJob.ChannelEventWithoutMembers | server/background.go:80-82 | an event with a channel but no members is never grouped, so nothing is posted for it |
| BackgroundJob.DueEventGrouped | server/background.go:45-98 | a due event with members is grouped with its columns and exactly its member users as attendees |
| BackgroundJob.SettledNotGrouped | server/background.go:131-140 | an event marked processed for the minute is not selected again for it |
| BackgroundJob.MarkedNotDue | server/background.go:131-140 | after marking, an event is due-with-members iff it was before and its update did not go through |
| BackgroundJob.SecondTick | server/background.go:131-140 | a second tick in the same minute selects exactly the events whose update failed |
| BackgroundJob.MarkingSettles | server/background.go:131-140 | after the updates, every marked (id, minute) pair is settled, and earlier settled pairs stay settled |
| BackgroundJob.Fanout | server/background.go:101-129 | a channel event gets one "New event start now" post to its channel; any other event gets one direct message per attendee, in order, with its title; the bot sends every notice |
| BackgroundJob.FailuresIsolated | server/background.go:108-128 | the notices attempted do not depend on failures, and each outcome depends only on its own target's failures |
| BackgroundJob.EnumeratesCount | server/background.go:101 | the visit order lists each grouped event exactly once |
| BackgroundJob.GroupRows | server/background.go:64-99 | after a successful query, the scan loop builds the reference grouping, or stops exactly when a row's scan fails |
| BackgroundJob.Background.constructor | server/background.go:146-153 | a new scanner has the bot id, a 15-second period, and no notices or marks |
| BackgroundJob.Background.Notify | server/background.go:102-129 | the notice log grows by exactly the event's fan-out |
| BackgroundJob.Background.Handle | server/background.go:101-140 | one event's notices are logged, then it is marked for the minute unless the update fails |
| BackgroundJob.Background.Dispatch | server/background.go:101-140 | each grouped event is visited once in some order and its notices are logged; exactly the events whose update succeeds are marked |
| BackgroundJob.Background.Process | server/background.go:32-140 | one tick does nothing on a failed query or scan, and otherwise dispatches exactly the grouping of the due rows; no (event, minute) pair already handled is notified again |

## Left out

- HTTP routing, sessions, request decoding and JSON responses are left out; each handler is modelled from its decoded inputs to its answer.
- Parsing of the `start`/`end` query strings is left out; `GetEvents` takes the parsed instants.
- SQL text and the driver's struct scan are left out. Queries are filters over the rows the join yields, and a failing query or row scan is a `Fault` parameter.
- Zones are fixed offsets: daylight-saving transitions and the tz database's history are not modelled. The names "", "UTC" and "Local" are resolved as Go does, the server's own zone being a parameter; any other name is looked up in a given map.
- Integers are unbounded, so Go's int64 nanosecond overflow (years beyond ±292) is not modelled.
- Recurrence.Decode: only integer arrays are modelled. JSON numbers with fractions or exponents, and elements that are not numbers, count as malformed and leave the list unchanged, whereas Go's decoder keeps the slot's old value for such an element and decodes the rest of the array.
- Recurrence.Merge: a list is a sequence without spare capacity. Go's decoder may reuse capacity past the old length, which could in principle show stale elements in the slots of out-of-range integers; the handlers scan only into fresh lists, where every such slot is 0.
- Events.CreateEvent: the event and member rows it inserts are not added to a table model. Only whether each insert fails is modelled, as an input. The id generator and the clock are parameters.
- `RemoveEvent` is not part of this model.
- The `Start`/`Stop` goroutine and its `Done` channel are left out. Each tick is one call of `Process`, and a tick dropped by the ticker is not modelled.
- The `bgJob` singleton and plugin activation in `server/plugin.go` are not part of this model.
- Log calls are left out.
- Go's map iteration order is unspecified. `Dispatch` chooses each next event nondeterministically, and a ghost `order` records the choice.
- The join's row order is fixed to event-table order, then member-table order; SQL leaves it unspecified.
- BackgroundJob.Background.Process: a failing row scan calls `Error()` on a nil error and panics. It is modelled as ending the tick before anything is posted, which is where the panic leaves the state.
- Events.GetEvents: a recurrent row whose list is NULL dereferences a nil pointer and panics. It is modelled as no answer.
- BackgroundJob.Fanout: failures are given per target and per event id as sets in `Api`, not per call.
- Event ids are assumed unique, as the primary key guarantees.
