/**
The rows behind bookings and what the transactions `updateEventById` and `deleteEvent` do to them.
A booking is a group with a time window; events and participants hang off groups.
*/
module BookingModel {
  import opened Wrappers
  import opened Statuses
  import opened TimeSegments

  type Id = nat

  datatype Person = Person(client: Option<string>, clientWorkspace: Option<string>, status: EventStatus)
  datatype Participant = Participant(group: Id, person: Person, deleted: bool)
  datatype Event = Event(group: Id, start: int, end: int, deleted: bool, rule: Option<Id>, attrs: map<string, string>)

  /** The columns of a group that a clone takes over. */
  datatype GroupDetails = GroupDetails(
    title: string, idCompany: string, idWorkspace: string,
    commentClient: Option<string>, commentClientHash: Option<string>, isCommentRead: bool,
    description: Option<string>, descriptionHash: Option<string>, encryptionKeyVersion: int,
    eventSourceType: string, isEditableByClient: bool, numberUpdates: Option<int>,
    eventStatusType: EventStatus, timeZone: string, hasNotifications: bool)

  datatype Group = Group(start: int, end: int, details: GroupDetails)

  /** All tables. New rows get ids from `nextId` on, which stands for a generator that never repeats. */
  datatype Db = Db(
    events: map<Id, Event>, groups: map<Id, Group>, participants: map<Id, Participant>, rules: set<Id>, nextId: Id)

  ghost predicate Active(db: Db, e: Id, g: Id) {
    e in db.events && db.events[e].group == g && !db.events[e].deleted
  }

  ghost predicate Live(db: Db, p: Id, g: Id) {
    p in db.participants && db.participants[p].group == g && !db.participants[p].deleted
  }

  /** How many live rows of group `g` say exactly `who`. */
  ghost function HeadCount(db: Db, g: Id, who: Person): nat {
    |set p | p in db.participants && Live(db, p, g) && db.participants[p].person == who|
  }

  /** Rows that are marked as deleted, or that are in other groups, do not count. */
  lemma HeadCountExact(db: Db, g: Id, who: Person)
    ensures HeadCount(db, g, who) ==
            |set p | p in db.participants && db.participants[p] == Participant(g, who, false)|
  {
    assert (set p | p in db.participants && Live(db, p, g) && db.participants[p].person == who) ==
        set p | p in db.participants && db.participants[p] == Participant(g, who, false);
  }

  /** What an update makes of the event it names: what is given is written, everything else stays. */
  ghost predicate WritesGiven(before: Event, input: UpdateInput, after: Event) {
    && (forall k :: k in input.attrs ==> k in after.attrs && after.attrs[k] == input.attrs[k])
    && (forall k :: k in before.attrs && k !in input.attrs ==> k in after.attrs && after.attrs[k] == before.attrs[k])
    && (forall k :: k in after.attrs ==> k in before.attrs || k in input.attrs)
    && (if input.start.Some? then input.start == Some(Valid(after.start)) else after.start == before.start)
    && (if input.end.Some? then input.end == Some(Valid(after.end)) else after.end == before.end)
    && after.deleted == before.deleted && after.rule == before.rule
  }

  /** A copy of a group's columns in which the number of updates is never left open. */
  predicate IsCopy(original: GroupDetails, copy: GroupDetails) {
    && copy == original.(numberUpdates := copy.numberUpdates) && copy.numberUpdates.Some?
    && (if original.numberUpdates.Some? then copy.numberUpdates == original.numberUpdates
        else copy.numberUpdates.value == 0)
  }

  // ----- Requests

  datatype DateInput = Valid(ms: int) | Invalid

  /** An absent field is None (for dates) or not a key of `attrs`. */
  datatype UpdateInput = UpdateInput(id: Option<Id>, start: Option<DateInput>, end: Option<DateInput>,
      attrs: map<string, string>)

  datatype UpdateError =
    | IdRequired | DatesRequired | InvalidStart | InvalidEnd | EventNotFound | BookingNotFound | StartNotBeforeEnd

  /** The checks of an update in the order they are made; on success, the event to change. */
  function Validate(db: Db, input: UpdateInput, isMany: bool): Result<Id, UpdateError> {
    if input.id == None then Err(IdRequired)
    else if isMany && (input.start == None || input.end == None) then Err(DatesRequired)
    else if input.start == Some(Invalid) then Err(InvalidStart)
    else if input.end == Some(Invalid) then Err(InvalidEnd)
    else
      var id := input.id.value;
      if id !in db.events || db.events[id].deleted then Err(EventNotFound)
      else if db.events[id].group !in db.groups then Err(BookingNotFound)
      else if isMany && input.start.value.ms >= input.end.value.ms then Err(StartNotBeforeEnd)
      else Ok(id)
  }

  /** When an update is refused, and with which error: the first reason that applies. */
  lemma RefusalExact(db: Db, input: UpdateInput, isMany: bool)
    ensures var bothDates := input.start.Some? && input.end.Some?;
            var readable := input.start != Some(Invalid) && input.end != Some(Invalid);
            var event := input.id.Some? && input.id.value in db.events && !db.events[input.id.value].deleted;
            var v := Validate(db, input, isMany);
            && (v == Err(IdRequired) <==> input.id.None?)
            && (v == Err(DatesRequired) <==> input.id.Some? && isMany && !bothDates)
            && (v == Err(InvalidStart) <==>
                 input.id.Some? && (isMany ==> bothDates) && input.start == Some(Invalid))
            && (v == Err(InvalidEnd) <==>
                 input.id.Some? && (isMany ==> bothDates) && input.start != Some(Invalid) && input.end == Some(Invalid))
            && (v == Err(EventNotFound) <==> input.id.Some? && (isMany ==> bothDates) && readable && !event)
            && (v == Err(BookingNotFound) <==>
                 (isMany ==> bothDates) && readable && event && db.events[input.id.value].group !in db.groups)
            && (v == Err(StartNotBeforeEnd) <==>
                 && isMany && bothDates && readable && event && db.events[input.id.value].group in db.groups
                 && input.end.value.ms <= input.start.value.ms)
            && (v.Ok? ==> input.id == Some(v.value))
  {
  }

  /** The event with the given fields set and the others as they were. */
  function Apply(ev: Event, input: UpdateInput): Event {
    ev.(start := if input.start.Some? && input.start.value.Valid? then input.start.value.ms else ev.start,
        end := if input.end.Some? && input.end.value.Valid? then input.end.value.ms else ev.end,
        attrs := ev.attrs + input.attrs)
  }

  lemma ApplyWrites(ev: Event, input: UpdateInput)
    requires input.start != Some(Invalid) && input.end != Some(Invalid)
    ensures WritesGiven(ev, input, Apply(ev, input))
    ensures forall g :: WritesGiven(ev, input, Apply(ev, input).(group := g))
  {
  }

  // ----- Steps of the transactions

  function CloneDetails(d: GroupDetails): GroupDetails {
    d.(numberUpdates := Some(if d.numberUpdates.Some? then d.numberUpdates.value else 0))
  }

  lemma CloneIsCopy(d: GroupDetails)
    ensures IsCopy(d, CloneDetails(d))
  {
  }

  /** A new group with a copy of the people, and nothing else changed. */
  function Clone(db: Db, details: GroupDetails, people: seq<Person>, start: int, end: int): Db {
    var g := db.nextId;
    db.(groups := db.groups[g := Group(start, end, CloneDetails(details))],
        participants := db.participants + NewRows(g, people),
        nextId := g + 1 + |people|)
  }

  /** Rows g + 1, g + 2, ... for the people in turn. */
  function NewRows(g: Id, people: seq<Person>): (m: map<Id, Participant>)
    ensures forall i :: i in m <==> g < i <= g + |people|
    ensures forall i :: i in m ==> m[i] == Participant(g, people[i - g - 1], false)
    decreases |people|
  {
    if people == [] then map[]
    else
      var n := |people| - 1;
      NewRows(g, people[..n])[g + 1 + n := Participant(g, people[n], false)]
  }

  function Ids(seg: seq<MinimalEvent>): set<Id> {
    set i | 0 <= i < |seg| :: seg[i].id
  }

  function Regroup(events: map<Id, Event>, ids: set<Id>, g: Id): map<Id, Event> {
    map e | e in events :: if e in ids then events[e].(group := g) else events[e]
  }

  function AddSegment(db: Db, details: GroupDetails, people: seq<Person>, seg: seq<MinimalEvent>): Db
    requires seg != []
  {
    Clone(db, details, people, seg[0].start, MaxEnd(seg)).(events := Regroup(db.events, Ids(seg), db.nextId))
  }

  function AddSegments(db: Db, details: GroupDetails, people: seq<Person>, segs: seq<seq<MinimalEvent>>): Db
    requires NonEmptyPieces(segs)
    decreases |segs|
  {
    if segs == [] then db
    else AddSegments(AddSegment(db, details, people, segs[0]), details, people, segs[1..])
  }

  function SetWindow(db: Db, g: Id, start: int, end: int): Db
    requires g in db.groups
  {
    db.(groups := db.groups[g := db.groups[g].(start := start, end := end)])
  }

  /** The target event moved, with its new times, into a clone of its group. */
  function MoveOut(db: Db, id: Id, input: UpdateInput, people: seq<Person>): Db
    requires Validate(db, input, true) == Ok(id)
  {
    var ev := db.events[id];
    Clone(db, db.groups[ev.group].details, people, input.start.value.ms, input.end.value.ms)
      .(events := db.events[id := Apply(ev, input).(group := db.nextId)])
  }

  /** What a move leaves: `remaining` lists, in start order, the events left in the old group. */
  function Move(db: Db, id: Id, input: UpdateInput, people: seq<Person>, remaining: seq<MinimalEvent>): Db
    requires Validate(db, input, true) == Ok(id)
  {
    var oldGroup := db.events[id].group;
    var db1 := MoveOut(db, id, input, people);
    var segs := Segments(remaining);
    if segs == [] then db1
    else AddSegments(SetWindow(db1, oldGroup, segs[0][0].start, MaxEnd(segs[0])), db.groups[oldGroup].details, people,
        segs[1..])
  }

  /** `list` names the active events of `g`, each once, by start; rows with equal starts may come in any order. */
  ghost predicate IsActiveListing(db: Db, g: Id, list: seq<MinimalEvent>) {
    && StartsAscend(list)
    && (forall i, j :: 0 <= i < j < |list| ==> list[i].id != list[j].id)
    && (forall i :: 0 <= i < |list| ==>
          && Active(db, list[i].id, g)
          && list[i].start == db.events[list[i].id].start && list[i].end == db.events[list[i].id].end)
    && (forall e :: Active(db, e, g) ==> e in Ids(list))
  }

  /** `rows` names the live participants of `g`, each once, in any order, and `people` is what they say. */
  ghost predicate IsLiveListing(db: Db, g: Id, rows: seq<Id>, people: seq<Person>) {
    && |rows| == |people|
    && (forall i, j :: 0 <= i < j < |rows| ==> rows[i] != rows[j])
    && (forall i :: 0 <= i < |rows| ==> Live(db, rows[i], g) && db.participants[rows[i]].person == people[i])
    && (forall p :: Live(db, p, g) ==> p in rows)
  }

  /** `start` and `end` are the least start and the largest end of the active events of `g`. */
  ghost predicate IsWindow(db: Db, g: Id, start: int, end: int) {
    && (forall e :: Active(db, e, g) ==> start <= db.events[e].start && db.events[e].end <= end)
    && (exists e :: Active(db, e, g) && db.events[e].start == start)
    && (exists e :: Active(db, e, g) && db.events[e].end == end)
  }

  /** The groups among `groupIds` that no event in `events` belongs to. */
  function EmptiedGroups(events: map<Id, Event>, groupIds: set<Id>): set<Id> {
    set g | g in groupIds && forall e :: e in events ==> events[e].group != g
  }

  /** The rules among `ruleIds` that no event in `events` uses. */
  function UnusedRules(events: map<Id, Event>, ruleIds: set<Id>): set<Id> {
    set r | r in ruleIds && forall e :: e in events ==> events[e].rule != Some(r)
  }

  function WithoutGroups(participants: map<Id, Participant>, gone: set<Id>): map<Id, Participant> {
    map p | p in participants && participants[p].group !in gone :: participants[p]
  }

  function DeleteEvents(db: Db, idList: set<Id>): Db {
    var hit := set e | e in idList && e in db.events;
    var ruleIds := set e | e in hit && db.events[e].rule.Some? :: db.events[e].rule.value;
    var groupIds := set e | e in hit :: db.events[e].group;
    var events := db.events - idList;
    var emptied := EmptiedGroups(events, groupIds);
    db.(events := events,
        participants := WithoutGroups(db.participants, emptied),
        groups := db.groups - emptied,
        rules := db.rules - UnusedRules(events, ruleIds))
  }

  // ----- Invariants

  /** Every reference resolves, and ids still to be given out are unused. */
  ghost predicate Refs(db: Db) {
    && (forall e :: e in db.events ==> db.events[e].group in db.groups)
    && (forall e :: e in db.events && db.events[e].rule.Some? ==> db.events[e].rule.value in db.rules)
    && (forall p :: p in db.participants ==> db.participants[p].group in db.groups)
    && (forall g :: g in db.groups ==> g < db.nextId)
    && (forall p :: p in db.participants ==> p < db.nextId)
  }

  /** The window of `g` covers its active events; if `exact`, it is their least start and largest end. */
  ghost predicate WindowOk(db: Db, g: Id, exact: bool)
    requires g in db.groups
  {
    && (forall e :: Active(db, e, g) ==>
         db.groups[g].start <= db.events[e].start && db.events[e].end <= db.groups[g].end)
    && (exact && (exists e :: Active(db, e, g)) ==> IsWindow(db, g, db.groups[g].start, db.groups[g].end))
  }

  ghost predicate Windows(db: Db, exact: bool) {
    forall g :: g in db.groups ==> WindowOk(db, g, exact)
  }

  ghost predicate Inv(db: Db, exact: bool) {
    Refs(db) && Windows(db, exact)
  }
}
