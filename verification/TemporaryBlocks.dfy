/**
Temporary exceptions to a worker's hours. Every row is mirrored by an event in a group of its own, so
that the block shows up among the bookings; the hours of a worker in a workspace are cached.
*/
module TemporaryBlocks {
  import opened Wrappers
  import opened Texts
  import opened Runs
  import H = HourFormat

  type Id = nat

  // ----- The range of a block

  /**
  Local days: the day of an instant, the midnight that starts a day, and the instant of a minute on a day's
  clock.
  */
  datatype Calendar = Calendar(dayOf: int -> int, midnight: int -> int, clock: (int, nat) -> int,
      parseIso: string -> Option<int>)

  ghost predicate Sound(cal: Calendar) {
    && (forall c, d :: c < d ==> cal.midnight(c) + 1 < cal.midnight(d))
    && (forall t :: cal.midnight(cal.dayOf(t)) <= t < cal.midnight(cal.dayOf(t) + 1))
  }

  /** Hours up to 23 with minutes up to 59, and 24:00 for the end of the day. */
  predicate OnClock(minutes: nat, hours: nat) {
    minutes < 60 && (hours < 24 || (hours == 24 && minutes == 0))
  }

  /** The instant a time text names on the day of `date`; None for no text or one that names no time. */
  function ResolveEventDateTime(cal: Calendar, date: int, value: Option<string>): Option<int> {
    if value.None? || H.Trim(value.value) == "" then None
    else if H.LooksIso(H.Trim(value.value)) then cal.parseIso(H.Trim(value.value))
    else
      H.NormalForm(value.value);
      var time := H.ToHHmm(value.value);
      if time.None? || !OnClock(H.Minutes(time.value), H.Hours(time.value)) then None
      else Some(cal.clock(cal.dayOf(date), H.MinuteOfDay(time.value)))
  }

  datatype Range = Range(start: int, end: int, allDay: bool)

  function BlockRange(cal: Calendar, date: int, start: Option<string>, end: Option<string>, closed: bool): Range {
    var s, e := ResolveEventDateTime(cal, date, start), ResolveEventDateTime(cal, date, end);
    if closed || s.None? || e.None? || e.value <= s.value then
      Range(cal.midnight(cal.dayOf(date)), cal.midnight(cal.dayOf(date) + 1) - 1, true)
    else Range(s.value, e.value, false)
  }

  // ----- Tables

  datatype Row = Row(
    company: string, workspace: string, user: Option<string>, event: Id, date: int,
    start: Option<string>, end: Option<string>, closed: bool, title: Option<string>, description: Option<string>)

  datatype Event = Event(
    group: Id, title: string, description: string, start: int, end: int, user: Option<string>, allDay: bool)

  datatype Group = Group(title: string, company: string, workspace: string, start: int, end: int)

  type Key = (string, string)

  /** The events and groups of other bookings are in the same tables. A cache key is a workspace and a user. */
  datatype Db = Db(rows: map<Id, Row>, events: map<Id, Event>, groups: map<Id, Group>, cached: set<Key>, nextId: Id)

  function RowRange(cal: Calendar, row: Row): Range {
    BlockRange(cal, row.date, row.start, row.end, row.closed)
  }

  function TitleOf(row: Row): string {
    if row.title.Some? then row.title.value else "Bloqueo temporal"
  }

  function DescriptionOf(row: Row): string {
    if row.description.Some? then row.description.value else ""
  }

  /** The columns for times hold five characters. */
  predicate Fits(row: Row) {
    (row.start.Some? ==> |row.start.value| <= 5) && (row.end.Some? ==> |row.end.value| <= 5)
  }

  function Drop(cached: set<Key>, workspace: string, user: Option<string>): set<Key> {
    if workspace != "" && user.Some? && user.value != "" then cached - {(workspace, user.value)} else cached
  }

  datatype Outcome = Done | Failed

  // ----- Adding

  /** The row with a new event in a new group; the event named in the request is ignored. */
  function Add(cal: Calendar, db: Db, row: Row): (Db, Outcome) {
    if row.company == "" || row.workspace == "" || !Fits(row) then (db, Failed)
    else
      var g, e, r, range := db.nextId, db.nextId + 1, db.nextId + 2, RowRange(cal, row);
      (Db(db.rows[r := row.(event := e)],
          db.events[e := Event(g, TitleOf(row), DescriptionOf(row), range.start, range.end, row.user, range.allDay)],
          db.groups[g := Group(TitleOf(row), row.company, row.workspace, range.start, range.end)],
          Drop(db.cached, row.workspace, row.user), r + 1), Done)
  }

  // ----- Updating

  /** An absent field is None; what the row may lack can also be given as null, which is Some(None). */
  datatype Patch = Patch(
    event: Option<Id>, company: Option<string>, workspace: Option<string>, user: Option<Option<string>>,
        date: Option<int>,
    start: Option<Option<string>>, end: Option<Option<string>>, closed: Option<bool>,
    title: Option<Option<string>>, description: Option<Option<string>>)

  function Or<T>(given: Option<T>, current: T): T {
    if given.Some? then given.value else current
  }

  function Patched(row: Row, p: Patch): Row {
    Row(Or(p.company, row.company), Or(p.workspace, row.workspace), Or(p.user, row.user),
        row.event, Or(p.date, row.date), Or(p.start, row.start), Or(p.end, row.end), Or(p.closed, row.closed),
        Or(p.title, row.title), Or(p.description, row.description))
  }

  /** The update of row `r`, its event and its group. */
  function UpdateRow(cal: Calendar, db: Db, r: Id, p: Patch): (Db, Outcome)
    requires r in db.rows
  {
    var row, e := Patched(db.rows[r], p), db.rows[r].event;
    if e !in db.events || db.events[e].group !in db.groups || !Fits(row) then (db, Failed)
    else
      var range, g := RowRange(cal, row), db.events[e].group;
      (db.(rows := db.rows[r := row],
           events := db.events[e := Event(g, TitleOf(row), DescriptionOf(row), range.start, range.end, row.user,
               range.allDay)],
           groups := db.groups[g := db.groups[g].(title := TitleOf(row), start := range.start, end := range.end)],
           cached := Drop(db.cached, row.workspace, row.user)), Done)
  }

  /** The row that an update means is one with the event it names. */
  ghost predicate Update(cal: Calendar, db: Db, p: Patch, db': Db, o: Outcome) {
    if exists r :: Names(db, p, r) then exists r :: Names(db, p, r) && (db', o) == UpdateRow(cal, db, r, p)
    else db' == db && o == Failed
  }

  predicate Names(db: Db, p: Patch, r: Id) {
    r in db.rows && p.event == Some(db.rows[r].event)
  }

  // ----- Deleting

  /** The same user, workspace and local day as `base`. */
  predicate InClass(cal: Calendar, row: Row, base: Row) {
    && row.user == base.user && row.workspace == base.workspace
    && cal.midnight(cal.dayOf(base.date)) <= row.date < cal.midnight(cal.dayOf(base.date) + 1)
  }

  function BaseRows(rows: map<Id, Row>, ids: set<Id>, workspace: string): set<Id> {
    set r | r in ids && r in rows && rows[r].workspace == workspace
  }

  function Doomed(cal: Calendar, rows: map<Id, Row>, ids: set<Id>, workspace: string): set<Id> {
    set r | r in rows && exists b :: b in BaseRows(rows, ids, workspace) && InClass(cal, rows[r], rows[b])
  }

  predicate SepAt(s: string, i: nat) {
    i + 1 < |s| && s[i] == '_' && s[i + 1] == '_'
  }

  function FirstSep(s: string): (i: nat)
    ensures i <= |s| && (i < |s| ==> SepAt(s, i))
    ensures forall j: nat :: j < i ==> !SepAt(s, j)
  {
    if |s| < 2 then |s|
    else if s[0] == '_' && s[1] == '_' then 0
    else
      var i := FirstSep(s[1..]);
      assert forall j: nat :: 0 < j ==> (SepAt(s, j) <==> SepAt(s[1..], j - 1));
      i + 1
  }

  function PairText(user: string, workspace: string): string {
    user + "__" + workspace
  }

  /** The first two pieces between separators: a user and a workspace. */
  function SplitPair(text: string): Key
    requires FirstSep(text) < |text|
  {
    var rest := text[FirstSep(text) + 2..];
    (rest[..FirstSep(rest)], text[..FirstSep(text)])
  }

  function UserText(user: Option<string>): string {
    if user.Some? then user.value else "null"
  }

  lemma PairSplits(user: string, workspace: string)
    ensures FirstSep(PairText(user, workspace)) < |PairText(user, workspace)|
  {
    assert SepAt(PairText(user, workspace), |user|);
  }

  /** The cache key cleared for a row: its user and workspace written as one text and taken apart again. */
  function ClearedKey(row: Row): Key {
    PairSplits(UserText(row.user), row.workspace);
    SplitPair(PairText(UserText(row.user), row.workspace))
  }

  function EventsOf(rows: map<Id, Row>, gone: set<Id>): set<Id> {
    set r | r in gone && r in rows :: rows[r].event
  }

  function GroupsOf(events: map<Id, Event>, ids: set<Id>): set<Id> {
    set e | e in ids && e in events :: events[e].group
  }

  function Emptied(events: map<Id, Event>, groups: set<Id>): set<Id> {
    set g | g in groups && forall e :: e in events ==> events[e].group != g
  }

  function RemoveRows(db: Db, gone: set<Id>): Db
    requires gone <= db.rows.Keys
  {
    var eventIds := EventsOf(db.rows, gone);
    var events := db.events - eventIds;
    db.(rows := db.rows - gone, events := events,
        groups := db.groups - Emptied(events, GroupsOf(db.events, eventIds)),
        cached := db.cached - (set r | r in gone :: ClearedKey(db.rows[r])))
  }

  function Delete(cal: Calendar, db: Db, ids: set<Id>, workspace: string): Db {
    RemoveRows(db, Doomed(cal, db.rows, ids, workspace))
  }

  // ----- The service

  class Service {
    const cal: Calendar
    var rows: map<Id, Row>
    var events: map<Id, Event>
    var groups: map<Id, Group>
    var cached: set<Key>
    var nextId: Id

    ghost function State(): Db
      reads this
    {
      Db(rows, events, groups, cached, nextId)
    }

    method ClearCache(workspace: string, user: Option<string>)
      modifies this`cached
      ensures cached == Drop(old(cached), workspace, user)
    {
      if workspace != "" && user.Some? && user.value != "" {
        cached := cached - {(workspace, user.value)};
      }
    }

    method CreateEvent(row: Row) returns (event: Id)
      modifies this`events, this`groups, this`nextId
      ensures event == old(nextId) + 1 && nextId == old(nextId) + 2
      ensures var range := RowRange(cal, row);
              && events == old(events)[event :=
                   Event(old(nextId), TitleOf(row), DescriptionOf(row), range.start, range.end, row.user, range.allDay)]
              && groups == old(groups)[old(nextId) := Group(TitleOf(row), row.company, row.workspace, range.start,
                   range.end)]
    {
      var range := RowRange(cal, row);
      var group := nextId;
      groups := groups[group := Group(TitleOf(row), row.company, row.workspace, range.start, range.end)];
      event := nextId + 1;
      events := events[event := Event(group, TitleOf(row), DescriptionOf(row), range.start, range.end, row.user,
          range.allDay)];
      nextId := nextId + 2;
    }

    /** One transaction, then the cache entry of the new row goes. */
    method AddTemporaryBusinessHour(row: Row) returns (o: Outcome)
      modifies this
      ensures (State(), o) == Add(cal, old(State()), row)
    {
      if row.company == "" || row.workspace == "" || !Fits(row) { return Failed; }
      var event := CreateEvent(row);
      rows := rows[nextId := row.(event := event)];
      nextId := nextId + 1;
      ClearCache(row.workspace, row.user);
      return Done;
    }

    method FindByEvent(event: Id) returns (r: Option<Id>)
      ensures r.Some? ==> r.value in rows && rows[r.value].event == event
      ensures r.None? ==> forall q :: q in rows ==> rows[q].event != event
    {
      var todo: set<Id> := rows.Keys;
      while todo != {}
        invariant todo <= rows.Keys && forall q :: q in rows && q !in todo ==> rows[q].event != event
        decreases |todo|
      {
        var q: Id :| q in todo;
        if rows[q].event == event { return Some(q); }
        todo := todo - {q};
      }
      return None;
    }

    /** One transaction, then the cache entry of the row as it now is goes. */
    method UpdateTemporaryBusinessHour(p: Patch) returns (o: Outcome)
      modifies this
      ensures Update(cal, old(State()), p, State(), o)
    {
      if p.event.None? { return Failed; }
      var found := FindByEvent(p.event.value);
      if found.None? { return Failed; }
      var r := found.value;
      assert Names(old(State()), p, r);
      var effective := Patched(rows[r], p);
      var eventId := rows[r].event;
      if eventId !in events || events[eventId].group !in groups || !Fits(effective) { return Failed; }
      var range := RowRange(cal, effective);
      var g := events[eventId].group;
      events := events[eventId :=
        Event(g, TitleOf(effective), DescriptionOf(effective), range.start, range.end, effective.user, range.allDay)];
      groups := groups[g := groups[g].(title := TitleOf(effective), start := range.start, end := range.end)];
      rows := rows[r := effective];
      ClearCache(effective.workspace, effective.user);
      return Done;
    }

    /** Every row of a class that a base row stands in. */
    method RowsForDeletion(ids: set<Id>, workspace: string) returns (gone: set<Id>)
      ensures gone == Doomed(cal, rows, ids, workspace)
    {
      var base := BaseRows(rows, ids, workspace);
      gone := {};
      var todo := base;
      while todo != {}
        invariant todo <= base
        invariant gone == set r | r in rows && exists b :: b in base - todo && InClass(cal, rows[r], rows[b])
        decreases |todo|
      {
        var b: Id :| b in todo;
        gone := gone + set r | r in rows && InClass(cal, rows[r], rows[b]);
        assert base - (todo - {b}) == (base - todo) + {b};
        todo := todo - {b};
      }
    }

    method DeleteEvents(eventIds: set<Id>)
      modifies this`events, this`groups
      ensures events == old(events) - eventIds
              && groups == old(groups) - Emptied(events, GroupsOf(old(events), eventIds))
    {
      if eventIds == {} {
        assert events - {} == events;
        assert groups - {} == groups;
        return;
      }
      var groupIds := GroupsOf(events, eventIds);
      events := events - eventIds;
      groups := groups - Emptied(events, groupIds);
    }

    method ClearPairs(keys: set<Key>)
      modifies this`cached
      ensures cached == old(cached) - keys
    {
      var todo := keys;
      while todo != {}
        invariant todo <= keys && cached == old(cached) - (keys - todo)
        decreases |todo|
      {
        var k: Key :| k in todo;
        cached := cached - {k};
        todo := todo - {k};
      }
      assert keys - {} == keys;
    }

    method DeleteTemporaryBusinessHour(ids: set<Id>, workspace: string)
      modifies this
      ensures State() == Delete(cal, old(State()), ids, workspace)
    {
      var gone := RowsForDeletion(ids, workspace);
      var eventIds := EventsOf(rows, gone);
      ClearPairs(set r | r in gone :: ClearedKey(rows[r]));
      rows := rows - gone;
      DeleteEvents(eventIds);
    }
  }

  // ----- The range of a block

  /** A block always starts before it ends: it is the whole day, or the times it gives, in their order. */
  lemma RangeProper(cal: Calendar, row: Row)
    requires Sound(cal)
    ensures var r := RowRange(cal, row);
            var s, e := ResolveEventDateTime(cal, row.date, row.start), ResolveEventDateTime(cal, row.date, row.end);
            && r.start < r.end
            && (r.allDay <==> row.closed || s.None? || e.None? || e.value <= s.value)
            && (r.allDay ==> forall t :: cal.dayOf(t) == cal.dayOf(row.date) <==> r.start <= t <= r.end)
            && (!r.allDay ==> Some(r.start) == s && Some(r.end) == e)
  {
    var d := cal.dayOf(row.date);
    forall t ensures cal.dayOf(t) == d <==> cal.midnight(d) <= t < cal.midnight(d + 1) {
      assert cal.midnight(cal.dayOf(t)) <= t < cal.midnight(cal.dayOf(t) + 1);
    }
  }

  // ----- Rows and events stay mirrored

  ghost predicate Mirrors(cal: Calendar, db: Db, r: Id)
    requires r in db.rows
  {
    var row := db.rows[r];
    var range := RowRange(cal, row);
    && row.event in db.events
    && var ev := db.events[row.event];
    && ev.start == range.start && ev.end == range.end && ev.allDay == range.allDay
    && ev.user == row.user && ev.title == TitleOf(row) && ev.description == DescriptionOf(row)
    && ev.group in db.groups && db.groups[ev.group].start == range.start && db.groups[ev.group].end == range.end
  }

  /** Event `e` is alone in its group. */
  ghost predicate Alone(db: Db, e: Id)
    requires e in db.events
  {
    forall f :: f in db.events && db.events[f].group == db.events[e].group ==> f == e
  }

  ghost predicate IdsFresh(db: Db) {
    && (forall r :: r in db.rows ==> r < db.nextId)
    && (forall e :: e in db.events ==> e < db.nextId && db.events[e].group < db.nextId)
    && (forall g :: g in db.groups ==> g < db.nextId)
  }

  /** Every row has an event of its own with exactly its range, alone in a group with that window. */
  ghost predicate Mirrored(cal: Calendar, db: Db) {
    && IdsFresh(db)
    && (forall r :: r in db.rows ==> Mirrors(cal, db, r) && Alone(db, db.rows[r].event))
    && (forall r, q :: r in db.rows && q in db.rows && db.rows[r].event == db.rows[q].event ==> r == q)
  }

  lemma AddKeeps(cal: Calendar, db: Db, row: Row)
    requires Mirrored(cal, db)
    ensures Mirrored(cal, Add(cal, db, row).0)
  {
    var db' := Add(cal, db, row).0;
    if db' != db {
      forall r | r in db'.rows ensures Mirrors(cal, db', r) && Alone(db', db'.rows[r].event) {
        if r != db.nextId + 2 {
          assert Mirrors(cal, db, r) && Alone(db, db.rows[r].event);
        }
      }
    }
  }

  lemma UpdateKeeps(cal: Calendar, db: Db, r: Id, p: Patch)
    requires Mirrored(cal, db) && r in db.rows
    ensures Mirrored(cal, UpdateRow(cal, db, r, p).0)
  {
    var db' := UpdateRow(cal, db, r, p).0;
    assert Mirrors(cal, db, r) && Alone(db, db.rows[r].event);
    forall q | q in db'.rows ensures Mirrors(cal, db', q) && Alone(db', db'.rows[q].event) {
      assert Mirrors(cal, db, q) && Alone(db, db.rows[q].event);
    }
  }

  lemma DeleteKeeps(cal: Calendar, db: Db, ids: set<Id>, workspace: string)
    requires Mirrored(cal, db)
    ensures Mirrored(cal, Delete(cal, db, ids, workspace))
  {
    var db' := Delete(cal, db, ids, workspace);
    forall r | r in db'.rows ensures Mirrors(cal, db', r) && Alone(db', db'.rows[r].event) {
      assert Mirrors(cal, db, r) && Alone(db, db.rows[r].event);
    }
  }

  // ----- What single requests do, column by column

  /**
  Which instant a text names: none if it is missing or blank, an ISO text what it says, and a time of day
  up to 23:59, or 24:00, that minute on the local day of `date`; no other text names one.
  */
  lemma TimeNamed(cal: Calendar, date: int, value: Option<string>)
    ensures var t := ResolveEventDateTime(cal, date, value);
            if value.None? || H.Trim(value.value) == "" then t == None
            else if H.LooksIso(H.Trim(value.value)) then t == cal.parseIso(H.Trim(value.value))
            else
              match H.ToHHmm(value.value)
              case None => t == None
              case Some(v) =>
                H.IsHHmm(v) &&
                var h, m := H.Hours(v), H.Minutes(v);
                && (t.Some? <==> m <= 59 && 60 * h + m <= 1440)
                && (t.Some? ==> t == Some(cal.clock(cal.dayOf(date), 60 * h + m)))
  {
    if value.Some? {
      H.NormalForm(value.value);
    }
  }

  predicate Short(v: Option<string>) {
    v.Some? ==> |v.value| <= 5
  }

  /** Event `e` shows the row: its range, its user, and its title and description or what stands for none. */
  ghost predicate Shows(cal: Calendar, row: Row, e: Event) {
    && Range(e.start, e.end, e.allDay) == RowRange(cal, row) && e.user == row.user
    && e.title == (match row.title case None => "Bloqueo temporal" case Some(t) => t)
    && e.description == (match row.description case None => "" case Some(t) => t)
  }

  /** Of the cache only the entry of the row's worker in the row's workspace may be gone. */
  ghost predicate OnlyEntryDropped(cached: set<Key>, row: Row, cached': set<Key>) {
    forall w, u :: (w, u) in cached' <==>
      (w, u) in cached && !(w == row.workspace && row.user == Some(u) && w != "" && u != "")
  }

  /**
  An add is done exactly if company and workspace are given and both times fit their columns. The row is
  then stored as given but for its event, which is new and shows it, in a new group with the same title and
  range; everything else is as before.
  */
  lemma AddEffect(cal: Calendar, db: Db, row: Row)
    requires IdsFresh(db)
    ensures var (after, o) := Add(cal, db, row);
            && (o == Done <==> row.company != "" && row.workspace != "" && Short(row.start) && Short(row.end))
            && (o != Done ==> after == db)
            && (o == Done ==> AddsRow(cal, db, row, after) && OnlyEntryDropped(db.cached, row, after.cached))
  {
    if Add(cal, db, row).1 == Done {
      AddedAs(cal, db, row);
    }
  }

  lemma AddedAs(cal: Calendar, db: Db, row: Row)
    requires IdsFresh(db) && Add(cal, db, row).1 == Done
    ensures AddsRowAs(cal, db, row, Add(cal, db, row).0, db.nextId + 2, db.nextId + 1, db.nextId)
  {
    var after, e := Add(cal, db, row).0, db.nextId + 1;
    assert after.rows == db.rows[db.nextId + 2 := row.(event := e)];
    assert Shows(cal, row, after.events[e]);
  }

  ghost predicate AddsRow(cal: Calendar, db: Db, row: Row, after: Db) {
    exists r, e, g :: AddsRowAs(cal, db, row, after, r, e, g)
  }

  ghost predicate AddsRowAs(cal: Calendar, db: Db, row: Row, after: Db, r: Id, e: Id, g: Id) {
    && r !in db.rows && e !in db.events && g !in db.groups
    && after.rows.Keys == db.rows.Keys + {r} && after.events.Keys == db.events.Keys + {e}
    && after.groups.Keys == db.groups.Keys + {g}
    && (forall q :: q in db.rows ==> after.rows[q] == db.rows[q])
    && (forall f :: f in db.events ==> after.events[f] == db.events[f])
    && (forall h :: h in db.groups ==> after.groups[h] == db.groups[h])
    && after.rows[r] == row.(event := e) && after.events[e].group == g && Shows(cal, row, after.events[e])
    && after.groups[g] == Group(after.events[e].title, row.company, row.workspace, after.events[e].start,
                                after.events[e].end)
  }

  /** A column holds what is given for it, and otherwise what it held. */
  predicate Holds<T(==)>(given: Option<T>, was: T, now: T) {
    if given.Some? then given == Some(now) else now == was
  }

  ghost predicate IsPatched(was: Row, p: Patch, now: Row) {
    && Holds(p.company, was.company, now.company) && Holds(p.workspace, was.workspace, now.workspace)
    && Holds(p.user, was.user, now.user) && Holds(p.date, was.date, now.date)
    && Holds(p.start, was.start, now.start) && Holds(p.end, was.end, now.end)
    && Holds(p.closed, was.closed, now.closed)
    && Holds(p.title, was.title, now.title) && Holds(p.description, was.description, now.description)
    && now.event == was.event
  }

  /** Row `r` is patched, its event shows it as it now is, its group takes title and range, and that is all. */
  ghost predicate PatchesRow(cal: Calendar, db: Db, r: Id, p: Patch, after: Db) {
    && r in db.rows && db.rows[r].event in db.events && db.events[db.rows[r].event].group in db.groups
    && after.rows.Keys == db.rows.Keys && after.events.Keys == db.events.Keys && after.groups.Keys == db.groups.Keys
    && var e := db.rows[r].event;
       var g := db.events[e].group;
       && (forall q :: q in db.rows && q != r ==> after.rows[q] == db.rows[q])
       && (forall f :: f in db.events && f != e ==> after.events[f] == db.events[f])
       && (forall h :: h in db.groups && h != g ==> after.groups[h] == db.groups[h])
       && IsPatched(db.rows[r], p, after.rows[r])
       && after.events[e].group == g && Shows(cal, after.rows[r], after.events[e])
       && after.groups[g].title == after.events[e].title && after.groups[g].start == after.events[e].start
       && after.groups[g].end == after.events[e].end
       && after.groups[g].company == db.groups[g].company && after.groups[g].workspace == db.groups[g].workspace
       && OnlyEntryDropped(db.cached, after.rows[r], after.cached)
  }

  lemma PatchEffect(cal: Calendar, db: Db, r: Id, p: Patch)
    requires r in db.rows
    ensures var (after, o) := UpdateRow(cal, db, r, p);
            && (o == Done ==> PatchesRow(cal, db, r, p, after)) && (o != Done ==> after == db)
            && (o == Done <==>
                 && db.rows[r].event in db.events && db.events[db.rows[r].event].group in db.groups
                 && Short(if p.start.Some? then p.start.value else db.rows[r].start)
                 && Short(if p.end.Some? then p.end.value else db.rows[r].end))
  {
    var (after, o) := UpdateRow(cal, db, r, p);
    if o == Done {
      assert IsPatched(db.rows[r], p, after.rows[r]);
      assert Shows(cal, after.rows[r], after.events[db.rows[r].event]);
    }
  }

  /** An update changes a row with the event it names, or nothing; where each row has its own event there is one. */
  lemma UpdateEffect(cal: Calendar, db: Db, p: Patch, after: Db, o: Outcome)
    requires Update(cal, db, p, after, o)
    ensures o != Done ==> after == db
    ensures o == Done ==>
              exists r :: r in db.rows && p.event == Some(db.rows[r].event) && PatchesRow(cal, db, r, p, after)
    ensures (forall r :: r in db.rows ==> p.event != Some(db.rows[r].event)) ==> o == Failed
  {
    if r :| Names(db, p, r) && (after, o) == UpdateRow(cal, db, r, p) {
      PatchEffect(cal, db, r, p);
    }
  }

  // ----- What a delete removes

  lemma ClassIsDay(cal: Calendar, row: Row, base: Row)
    requires Sound(cal)
    ensures InClass(cal, row, base) <==>
            row.user == base.user && row.workspace == base.workspace && cal.dayOf(row.date) == cal.dayOf(base.date)
  {
    assert cal.midnight(cal.dayOf(row.date)) <= row.date < cal.midnight(cal.dayOf(row.date) + 1);
  }

  /** Rows of one user and workspace on one local day. */
  ghost predicate SameDay(cal: Calendar, a: Row, b: Row) {
    a.user == b.user && a.workspace == b.workspace && cal.dayOf(a.date) == cal.dayOf(b.date)
  }

  ghost predicate Removed(db: Db, db': Db, r: Id) {
    r in db.rows && r !in db'.rows
  }

  /** The listed rows of the workspace are gone. */
  ghost predicate ListedGone(db: Db, db': Db, ids: set<Id>, workspace: string) {
    forall r :: r in ids && r in db.rows && db.rows[r].workspace == workspace ==> r !in db'.rows
  }

  /** Every row gone shares its day with a listed row of the workspace. */
  ghost predicate GoneForCause(cal: Calendar, db: Db, db': Db, ids: set<Id>, workspace: string) {
    forall r :: Removed(db, db', r) ==>
      exists b :: b in ids && b in db.rows && db.rows[b].workspace == workspace && SameDay(cal, db.rows[r], db.rows[b])
  }

  /** Rows of one user, workspace and day are gone together or kept together. */
  ghost predicate WholeClasses(cal: Calendar, db: Db, db': Db) {
    forall r, q :: r in db.rows && q in db.rows && SameDay(cal, db.rows[q], db.rows[r]) ==>
      (r in db'.rows <==> q in db'.rows)
  }

  /**
  The events gone are those of the rows gone, the groups gone are those of the events gone, and all else is
  as it was.
  */
  ghost predicate MirrorsGone(db: Db, db': Db) {
    && (forall r :: r in db'.rows ==> r in db.rows && db'.rows[r] == db.rows[r])
    && (forall e :: e in db'.events <==> e in db.events && !OfRemovedRow(db, db', e))
    && (forall e :: e in db'.events ==> db'.events[e] == db.events[e])
    && (forall g :: g in db'.groups <==> g in db.groups && !HeldRemovedEvent(db, db', g))
    && (forall g :: g in db'.groups ==> db'.groups[g] == db.groups[g])
  }

  ghost predicate OfRemovedRow(db: Db, db': Db, e: Id) {
    exists r :: Removed(db, db', r) && db.rows[r].event == e
  }

  ghost predicate HeldRemovedEvent(db: Db, db': Db, g: Id) {
    exists e :: e in db.events && db.events[e].group == g && OfRemovedRow(db, db', e)
  }

  /**
  A delete removes the listed rows of the workspace with the rest of their classes, and with them exactly
  their events and groups.
  */
  lemma DeleteExact(cal: Calendar, db: Db, ids: set<Id>, workspace: string)
    requires Sound(cal) && Mirrored(cal, db)
    ensures ListedGone(db, Delete(cal, db, ids, workspace), ids, workspace)
    ensures GoneForCause(cal, db, Delete(cal, db, ids, workspace), ids, workspace)
    ensures WholeClasses(cal, db, Delete(cal, db, ids, workspace))
    ensures MirrorsGone(db, Delete(cal, db, ids, workspace))
  {
    var gone := Doomed(cal, db.rows, ids, workspace);
    RowsGone(cal, db, RemoveRows(db, gone), ids, workspace);
    forall r | r in gone ensures db.rows[r].event in db.events && Alone(db, db.rows[r].event) {
      assert Mirrors(cal, db, r);
    }
    RemoveMirrors(db, gone);
  }

  lemma RowsGone(cal: Calendar, db: Db, db': Db, ids: set<Id>, workspace: string)
    requires Sound(cal) && db'.rows == db.rows - Doomed(cal, db.rows, ids, workspace)
    ensures ListedGone(db, db', ids, workspace)
    ensures GoneForCause(cal, db, db', ids, workspace)
    ensures WholeClasses(cal, db, db')
  {
    DoomedExact(cal, db.rows, ids, workspace);
    forall r, q | r in db.rows && q in db.rows
      ensures InClass(cal, db.rows[q], db.rows[r]) <==> SameDay(cal, db.rows[q], db.rows[r]) {
      ClassIsDay(cal, db.rows[q], db.rows[r]);
    }
  }

  lemma DoomedExact(cal: Calendar, rows: map<Id, Row>, ids: set<Id>, workspace: string)
    requires Sound(cal)
    ensures BaseRows(rows, ids, workspace) <= Doomed(cal, rows, ids, workspace)
    ensures forall r, q :: r in rows && q in rows && InClass(cal, rows[q], rows[r]) ==>
              (r in Doomed(cal, rows, ids, workspace) <==> q in Doomed(cal, rows, ids, workspace))
  {
    forall b | b in BaseRows(rows, ids, workspace) ensures b in Doomed(cal, rows, ids, workspace) {
      ClassIsDay(cal, rows[b], rows[b]);
    }
    forall r, q | r in rows && q in rows && InClass(cal, rows[q], rows[r])
      ensures r in Doomed(cal, rows, ids, workspace) <==> q in Doomed(cal, rows, ids, workspace)
    {
      ClassIsDay(cal, rows[q], rows[r]);
      forall b | b in BaseRows(rows, ids, workspace) ensures InClass(cal, rows[r], rows[b]) <==>
          InClass(cal, rows[q], rows[b]) {
        ClassIsDay(cal, rows[r], rows[b]);
        ClassIsDay(cal, rows[q], rows[b]);
      }
    }
  }

  lemma RemoveMirrors(db: Db, gone: set<Id>)
    requires gone <= db.rows.Keys
    requires forall r :: r in gone ==> db.rows[r].event in db.events && Alone(db, db.rows[r].event)
    ensures MirrorsGone(db, RemoveRows(db, gone))
  {
    var db' := RemoveRows(db, gone);
    var eventIds := EventsOf(db.rows, gone);
    assert forall r :: Removed(db, db', r) <==> r in gone;
    forall e ensures OfRemovedRow(db, db', e) <==> e in eventIds {
      if e in eventIds {
        var r :| r in gone && db.rows[r].event == e;
        assert Removed(db, db', r);
      }
    }
    EmptiedExact(db, eventIds);
    forall g ensures HeldRemovedEvent(db, db', g) <==> g in GroupsOf(db.events, eventIds) {
      if g in GroupsOf(db.events, eventIds) {
        var e :| e in eventIds && e in db.events && db.events[e].group == g;
        assert OfRemovedRow(db, db', e);
      }
    }
  }

  /** Where every event deleted was alone in its group, the groups emptied are exactly theirs. */
  lemma EmptiedExact(db: Db, eventIds: set<Id>)
    requires forall e :: e in eventIds ==> e in db.events && Alone(db, e)
    ensures Emptied(db.events - eventIds, GroupsOf(db.events, eventIds)) == GroupsOf(db.events, eventIds)
  {
  }

  // ----- What the cache loses

  /** No two underscores meet. */
  predicate Unseparated(s: string) {
    forall i :: 0 <= i < |s| - 1 && s[i] == '_' ==> s[i + 1] != '_'
  }

  lemma UnseparatedExact(s: string)
    ensures Unseparated(s) <==> FirstSep(s) == |s|
  {
    if Unseparated(s) {
      assert forall i: nat :: i < |s| ==> !SepAt(s, i);
    } else {
      var i: nat :| i < |s| - 1 && s[i] == '_' && s[i + 1] == '_';
      assert SepAt(s, i);
    }
  }

  /** The text of a pair comes apart into the pair it was made of exactly when no separator hides in the ids. */
  lemma PairExact(user: string, workspace: string)
    ensures FirstSep(user + "__" + workspace) < |user + "__" + workspace|
    ensures SplitPair(user + "__" + workspace) == (workspace, user) <==>
            Unseparated(user) && (user == "" || user[|user| - 1] != '_') && Unseparated(workspace)
  {
    PairSplits(user, workspace);
    UnseparatedExact(user);
    UnseparatedExact(workspace);
    var text, n := PairText(user, workspace), |user|;
    var k := FirstSep(text);
    assert SepAt(text, n) && text[n + 2..] == workspace && text[..n] == user;
    forall i: nat | i < n ensures SepAt(text, i) <==> SepAt(user, i) || (i == n - 1 && user[i] == '_') {
    }
    assert k == n <==> forall i: nat :: i < n ==> !SepAt(text, i);
    assert (forall i: nat :: i < n ==> !SepAt(text, i)) <==>
        FirstSep(user) == n && (user == "" || user[n - 1] != '_') by {
      if user != "" && user[n - 1] == '_' {
        assert SepAt(text, n - 1);
      }
      if FirstSep(user) < n {
        assert SepAt(text, FirstSep(user));
      }
    }
    if k < n {
      assert |SplitPair(text).1| == k;
    } else {
      assert SplitPair(text) == (workspace[..FirstSep(workspace)], user);
      assert FirstSep(workspace) == |workspace| <==> workspace[..FirstSep(workspace)] == workspace;
    }
  }

  /** With such ids a delete drops the entry of every user and workspace that loses a row, and no other. */
  lemma DeleteClearsCache(cal: Calendar, db: Db, ids: set<Id>, workspace: string)
    requires forall r :: r in db.rows ==> PlainIds(db.rows[r])
    ensures var db' := Delete(cal, db, ids, workspace);
            forall k :: k in db'.cached <==>
              k in db.cached && forall r :: r in db.rows && r !in db'.rows ==>
                  k != (db.rows[r].workspace, match db.rows[r].user case Some(u) => u case None => "null")
  {
    var db' := Delete(cal, db, ids, workspace);
    forall r | r in db.rows ensures ClearedKey(db.rows[r]) == (db.rows[r].workspace, UserText(db.rows[r].user)) {
      PairExact(UserText(db.rows[r].user), db.rows[r].workspace);
    }
    assert forall r :: r in db.rows && r !in db'.rows <==> r in Doomed(cal, db.rows, ids, workspace);
  }

  predicate PlainIds(row: Row) {
    var u := UserText(row.user);
    Unseparated(u) && (u == "" || u[|u| - 1] != '_') && Unseparated(row.workspace)
  }

  /** The cache entry that a row belongs to. */
  function KeyOf(row: Row): Option<Key> {
    if row.workspace != "" && row.user.Some? && row.user.value != "" then Some((row.workspace, row.user.value))
        else None
  }

  /**
  An update drops the entry of the row as it is afterwards. The entry of the worker it was taken from,
  moved to another worker or to none, goes only if that is the same one.
  */
  lemma UpdateCacheExact(cal: Calendar, db: Db, r: Id, p: Patch)
    requires r in db.rows && UpdateRow(cal, db, r, p).1 == Done
    ensures var before, after := KeyOf(db.rows[r]), KeyOf(Patched(db.rows[r], p));
            var cached := UpdateRow(cal, db, r, p).0.cached;
            && (after.Some? ==> after.value !in cached)
            && (before.Some? ==> (before.value !in cached <==> before.value !in db.cached || before == after))
  {
    var was, now := db.rows[r], Patched(db.rows[r], p);
    if KeyOf(was).Some? && KeyOf(now).Some? {
      assert KeyOf(was) == KeyOf(now) <==> was.workspace == now.workspace && was.user.value == now.user.value;
    }
  }

  // ----- Runs

  datatype Action = AddRow(row: Row) | UpdateBy(patch: Patch) | DeleteOf(ids: set<Id>,
      workspace: string) | Fill(key: Key)

  ghost predicate Step(cal: Calendar, db: Db, act: Action, db': Db) {
    match act
    case AddRow(row) => db' == Add(cal, db, row).0
    case UpdateBy(p) => exists o :: Update(cal, db, p, db', o)
    case DeleteOf(ids, workspace) => db' == Delete(cal, db, ids, workspace)
    case Fill(k) => db' == db.(cached := db.cached + {k})
  }

  ghost function StepRelation(cal: Calendar): (Db, Action, Db) -> bool {
    (db, act, db') => Step(cal, db, act, db')
  }

  lemma StepKeeps(cal: Calendar, db: Db, act: Action, db': Db)
    requires Mirrored(cal, db) && Step(cal, db, act, db')
    ensures Mirrored(cal, db')
  {
    match act
    case AddRow(row) => AddKeeps(cal, db, row);
    case UpdateBy(p) =>
      var o :| Update(cal, db, p, db', o);
      if r :| Names(db, p, r) && (db', o) == UpdateRow(cal, db, r, p) {
        UpdateKeeps(cal, db, r, p);
      }
    case DeleteOf(ids, workspace) => DeleteKeeps(cal, db, ids, workspace);
    case Fill(k) =>
      forall r | r in db'.rows ensures Mirrors(cal, db', r) && Alone(db', db'.rows[r].event) {
        assert Mirrors(cal, db, r) && Alone(db, db.rows[r].event);
      }
  }

  /**
  In every state of every run each row has its own event, alone in its group, with exactly the range of the
  row, which is never empty.
  */
  lemma RunMirrored(cal: Calendar, dbs: seq<Db>, acts: seq<Action>)
    requires Sound(cal) && IsRun(StepRelation(cal), dbs, acts) && Mirrored(cal, dbs[0])
    ensures forall i :: 0 <= i < |dbs| ==> Mirrored(cal, dbs[i])
    ensures forall i, r :: 0 <= i < |dbs| && r in dbs[i].rows ==>
              Mirrors(cal, dbs[i], r) && RowRange(cal, dbs[i].rows[r]).start < RowRange(cal, dbs[i].rows[r]).end
  {
    forall i | 0 <= i < |acts| && Mirrored(cal, dbs[i]) && Step(cal, dbs[i], acts[i], dbs[i + 1])
        ensures Mirrored(cal, dbs[i + 1]) {
      StepKeeps(cal, dbs[i], acts[i], dbs[i + 1]);
    }
    RunInvariant(StepRelation(cal), (db: Db) => Mirrored(cal, db), dbs, acts);
    forall i, r | 0 <= i < |dbs| && r in dbs[i].rows
      ensures Mirrors(cal, dbs[i], r) && RowRange(cal, dbs[i].rows[r]).start < RowRange(cal, dbs[i].rows[r]).end
    {
      assert Mirrored(cal, dbs[i]);
      RangeProper(cal, dbs[i].rows[r]);
    }
  }
}
