/**
The guard in front of client bookings: at most so many services in one booking, so many bookings a
day and so many at the same time. Bookings are groups; a client's are those with a live row of theirs.
*/
module UserLimits {
  import opened Wrappers
  import opened FiniteSets
  import opened Statuses
  import opened Runs

  type Id = nat

  datatype Group = Group(start: int, end: int, status: EventStatus, deleted: bool)
  datatype Participant = Participant(group: Id, client: string, deleted: bool)
  datatype Db = Db(groups: map<Id, Group>, participants: map<Id, Participant>)

  /** Limits as configured; an absent one takes its default. */
  datatype Limits = Limits(maxServicesPerBooking: Option<int>, perUserPerDay: Option<int>,
      perUserConcurrent: Option<int>)

  function OrDefault(x: Option<int>, fallback: int): int {
    if x.Some? then x.value else fallback
  }

  /** A requested slot with the first and the last instant of the local day it starts in. */
  datatype Slot = Slot(start: int, end: int, dayStart: int, dayEnd: int)

  datatype Reason = DayLimitReached(count: nat, limit: int) | ConcurrentLimitReached(count: nat, limit: int)
  datatype Decision = Next | TooManyServices | LimitsReached(reasons: seq<Reason>)

  predicate Counts(db: Db, p: Id, client: string, from: int, until: int) {
    && p in db.participants && db.participants[p].client == client && !db.participants[p].deleted
    && db.participants[p].group in db.groups
    && var g := db.groups[db.participants[p].group];
       !g.deleted && g.start < until && g.end > from && !IsCancelled(g.status)
  }

  /** The client's bookings that meet the time from `from` to `until`, each once. */
  ghost function BookingsIn(db: Db, client: string, from: int, until: int): set<Id> {
    set p | p in db.participants && Counts(db, p, client, from, until) :: db.participants[p].group
  }

  class Guard {
    var groups: map<Id, Group>
    var participants: map<Id, Participant>

    ghost function State(): Db
      reads this
    {
      Db(groups, participants)
    }

    /** The matching rows, in no determined order; a booking shows up once per row. */
    method FindParticipations(client: string, from: int, until: int) returns (rows: seq<Participant>)
      ensures forall g :: (exists i :: 0 <= i < |rows| && rows[i].group == g) <==>
              g in BookingsIn(State(), client, from, until)
    {
      var todo: set<Id> := set p | p in participants
        && (&& participants[p].client == client && !participants[p].deleted && participants[p].group in groups
            && var g := groups[participants[p].group];
               !g.deleted && g.start < until && g.end > from && !IsCancelled(g.status));
      ghost var all := todo;
      assert forall p :: p in all <==> Counts(State(), p, client, from, until);
      rows := [];
      while todo != {}
        invariant todo <= all
        invariant forall i :: 0 <= i < |rows| ==> exists p :: p in all && rows[i] == participants[p]
        invariant forall p :: p in all && p !in todo ==> participants[p] in rows
        decreases |todo|
      {
        var p: Id :| p in todo;
        rows := rows + [participants[p]];
        todo := todo - {p};
      }
      forall g | g in BookingsIn(State(), client, from, until)
          ensures exists i :: 0 <= i < |rows| && rows[i].group == g {
        var p :| p in participants && Counts(State(), p, client, from, until) && participants[p].group == g;
        assert p in all && participants[p] in rows;
      }
    }

    method CountBookings(client: string, from: int, until: int) returns (count: nat)
      ensures count == |BookingsIn(State(), client, from, until)|
    {
      var rows := FindParticipations(client, from, until);
      var ids: set<Id> := {};
      for i := 0 to |rows|
        invariant forall g :: g in ids <==> exists j :: 0 <= j < i && rows[j].group == g
      {
        ids := ids + {rows[i].group};
      }
      assert ids == BookingsIn(State(), client, from, until);
      return |ids|;
    }

    method EnforceUserLimits(
        limits: Limits, services: nat, customer: Option<string>, slot: Option<Slot>) returns (d: Decision)
      ensures d == Decide(State(), limits, services, customer, slot)
    {
      var maxServices := OrDefault(limits.maxServicesPerBooking, 1);
      var perDay := OrDefault(limits.perUserPerDay, 1);
      var concurrent := OrDefault(limits.perUserConcurrent, 0);
      if maxServices > 0 && services > maxServices { return TooManyServices; }
      if customer.None? || slot.None? { return Next; }
      var client, s := customer.value, slot.value;
      var reasons: seq<Reason> := [];
      if perDay > 0 {
        var day := CountBookings(client, s.dayStart, s.dayEnd);
        if day >= perDay { reasons := reasons + [DayLimitReached(day, perDay)]; }
      }
      if concurrent > 0 {
        var overlapping := CountBookings(client, s.start, s.end);
        if overlapping >= concurrent { reasons := reasons + [ConcurrentLimitReached(overlapping, concurrent)]; }
      }
      if |reasons| > 0 { return LimitsReached(reasons); }
      return Next;
    }
  }

  ghost function Decide(db: Db, limits: Limits, services: nat, customer: Option<string>, slot: Option<Slot>): Decision {
    var maxServices := OrDefault(limits.maxServicesPerBooking, 1);
    var perDay := OrDefault(limits.perUserPerDay, 1);
    var concurrent := OrDefault(limits.perUserConcurrent, 0);
    if maxServices > 0 && services > maxServices then TooManyServices
    else if customer.None? || slot.None? then Next
    else
      var day := |BookingsIn(db, customer.value, slot.value.dayStart, slot.value.dayEnd)|;
      var overlapping := |BookingsIn(db, customer.value, slot.value.start, slot.value.end)|;
      var reasons :=
        (if perDay > 0 && day >= perDay then [DayLimitReached(day, perDay)] else [])
        + (if concurrent > 0 && overlapping >= concurrent then [ConcurrentLimitReached(overlapping, concurrent)]
            else []);
      if reasons != [] then LimitsReached(reasons) else Next
  }

  /** Exactly when a booking by a known client passes. */
  lemma PassesIff(db: Db, limits: Limits, services: nat, client: string, slot: Slot)
    ensures Decide(db, limits, services, Some(client), Some(slot)) == Next <==>
            && (OrDefault(limits.maxServicesPerBooking, 1) <= 0
                 || services <= OrDefault(limits.maxServicesPerBooking, 1))
            && (OrDefault(limits.perUserPerDay, 1) <= 0
                || |BookingsIn(db, client, slot.dayStart, slot.dayEnd)| < OrDefault(limits.perUserPerDay, 1))
            && (OrDefault(limits.perUserConcurrent, 0) <= 0
                || |BookingsIn(db, client, slot.start, slot.end)| < OrDefault(limits.perUserConcurrent, 0))
  {
  }

  /** A booking is counted once, however many rows lead to it, if it is not cancelled and its time meets the span. */
  lemma BookingsExact(db: Db, client: string, from: int, until: int, g: Id)
    ensures g in BookingsIn(db, client, from, until) <==>
            && g in db.groups && !db.groups[g].deleted && db.groups[g].start < until && from < db.groups[g].end
            && db.groups[g].status !in {CANCELLED, CANCELLED_BY_CLIENT, CANCELLED_BY_CLIENT_REMOVED}
            && exists p :: p in db.participants && db.participants[p] == Participant(g, client, false)
  {
    if g in BookingsIn(db, client, from, until) {
      var p :| p in db.participants && Counts(db, p, client, from, until) && db.participants[p].group == g;
      assert db.participants[p] == Participant(g, client, false);
    }
    if p :| p in db.participants && db.participants[p] == Participant(g, client, false) {
      assert Counts(db, p, client, from, until) ==> g in BookingsIn(db, client, from, until);
    }
  }

  /** A limit that is absent is its default, and one that is not positive is none. */
  predicate Reached(limit: Option<int>, fallback: int, count: int) {
    var n := match limit case Some(x) => x case None => fallback;
    n >= 1 && count >= n
  }

  /**
  What the guard answers: too many services come first; without a client or a time nothing else is looked
  at; then every limit that is reached is named, the daily one first, with the count and the limit.
  */
  lemma DecideExact(db: Db, limits: Limits, services: nat, customer: Option<string>, slot: Option<Slot>)
    ensures var d := Decide(db, limits, services, customer, slot);
            && (d == TooManyServices <==> Reached(limits.maxServicesPerBooking, 1, services - 1))
            && (d != TooManyServices && (customer.None? || slot.None?) ==> d == Next)
            && (d != TooManyServices && customer.Some? && slot.Some? ==>
                 var day := |BookingsIn(db, customer.value, slot.value.dayStart, slot.value.dayEnd)|;
                 var now := |BookingsIn(db, customer.value, slot.value.start, slot.value.end)|;
                 && (d == Next <==>
                      !Reached(limits.perUserPerDay, 1, day) && !Reached(limits.perUserConcurrent, 0, now))
                 && (d != Next ==> d.LimitsReached? && NamesReached(d.reasons, limits, day, now)))
  {
  }

  predicate NamesReached(reasons: seq<Reason>, limits: Limits, day: nat, now: nat) {
    var daily := DayLimitReached(day, match limits.perUserPerDay case Some(x) => x case None => 1);
    var concurrent := ConcurrentLimitReached(now, match limits.perUserConcurrent case Some(x) => x case None => 0);
    if !Reached(limits.perUserConcurrent, 0, now) then reasons == [daily]
    else if !Reached(limits.perUserPerDay, 1, day) then reasons == [concurrent]
    else reasons == [daily, concurrent]
  }

  // ----- Runs of guarded bookings and cancellations

  /** Local midnights, in order; day `d` runs from midnight(d) to midnight(d + 1). */
  ghost predicate Midnights(midnight: int -> int) {
    forall d, e :: d < e ==> midnight(d) < midnight(e)
  }

  function DaySlot(midnight: int -> int, d: int, start: int, end: int): Slot {
    Slot(start, end, midnight(d), midnight(d + 1) - 1)
  }

  /** Add a booking (if the guard lets it pass), cancel or remove a group, or remove a participant. */
  datatype Action =
    | Book(client: string, services: nat, day: int, start: int, end: int, group: Id, rows: set<Id>, status: EventStatus)
    | CancelGroup(group: Id, status: EventStatus)
    | DeleteGroup(group: Id)
    | DeleteParticipant(row: Id)

  /** The slot starts on its day. */
  ghost predicate OnDay(midnight: int -> int, act: Action)
    requires act.Book?
  {
    midnight(act.day) <= act.start < midnight(act.day + 1) && act.start <= act.end
  }

  function Insert(db: Db, act: Action): Db
    requires act.Book?
  {
    Db(db.groups[act.group := Group(act.start, act.end, act.status, false)],
       db.participants + map r | r in act.rows :: Participant(act.group, act.client, false))
  }

  ghost predicate Step(midnight: int -> int, limits: Limits, db: Db, act: Action, db': Db) {
    match act
    case Book(client, services, day, start, end, group, rows, status) =>
      && OnDay(midnight, act) && NewIds(db, act)
      && db' == if Decide(db, limits, services, Some(client), Some(DaySlot(midnight, day, start, end))) == Next
           then Insert(db, act) else db
    case CancelGroup(g, status) =>
      && IsCancelled(status)
      && db' == if g in db.groups then db.(groups := db.groups[g := db.groups[g].(status := status)]) else db
    case DeleteGroup(g) =>
      db' == db.(groups := db.groups - {g})
    case DeleteParticipant(r) =>
      db' == db.(participants := db.participants - {r})
  }

  ghost predicate WithinDay(midnight: int -> int, act: Action) {
    act.Book? ==> act.end <= midnight(act.day + 1)
  }

  /** The client's bookings on a day as the guard counts them. */
  ghost function BookingsOnDay(midnight: int -> int, db: Db, client: string, d: int): set<Id> {
    BookingsIn(db, client, midnight(d), midnight(d + 1) - 1)
  }

  ghost predicate DayLimitHolds(midnight: int -> int, limit: int, db: Db) {
    forall client, d :: |BookingsOnDay(midnight, db, client, d)| <= limit
  }

  /** The client's bookings under way at instant `t`. */
  ghost function BookingsAt(db: Db, client: string, t: int): set<Id> {
    BookingsIn(db, client, t, t + 1)
  }

  ghost predicate ConcurrentLimitHolds(limit: int, db: Db) {
    forall client, t :: |BookingsAt(db, client, t)| <= limit
  }

  predicate Reaches(act: Action, client: string, from: int, until: int) {
    act.Book? && client == act.client && act.start < until && act.end > from
  }

  /** The booking has a row of the client's and is not cancelled from the start. */
  predicate Live(act: Action) {
    act.Book? && act.rows != {} && !IsCancelled(act.status)
  }

  /** No group and no row of the tables is the new booking's. */
  ghost predicate NewIds(db: Db, act: Action)
    requires act.Book?
  {
    && act.group !in db.groups && act.rows !! db.participants.Keys
    && forall p :: p in db.participants ==> db.participants[p].group != act.group
  }

  /** Only the booking client's counts grow, by exactly the new group, and only where the new group reaches. */
  lemma InsertBookings(db: Db, act: Action, client: string, from: int, until: int)
    requires act.Book? && NewIds(db, act)
    ensures BookingsIn(Insert(db, act), client, from, until) ==
            BookingsIn(db, client, from, until) + if Live(act) && Reaches(act, client, from, until) then {act.group}
                else {}
    ensures act.group !in BookingsIn(db, client, from, until)
  {
    var db' := Insert(db, act);
    forall g | g in BookingsIn(db', client, from, until)
      ensures g in BookingsIn(db, client, from, until)
              || (g == act.group && Live(act) && Reaches(act, client, from, until))
    {
      var p :| p in db'.participants && Counts(db', p, client, from, until) && db'.participants[p].group == g;
      assert p in act.rows || Counts(db, p, client, from, until);
    }
    forall g | g in BookingsIn(db, client, from, until) ensures g in BookingsIn(db', client, from, until) {
      var p :| p in db.participants && Counts(db, p, client, from, until) && db.participants[p].group == g;
      assert Counts(db', p, client, from, until);
    }
    if Live(act) && Reaches(act, client, from, until) {
      var r :| r in act.rows;
      assert Counts(db', r, client, from, until);
    }
  }

  lemma InsertCount(db: Db, act: Action, client: string, from: int, until: int)
    requires act.Book? && NewIds(db, act)
    ensures |BookingsIn(Insert(db, act), client, from, until)| ==
            |BookingsIn(db, client, from, until)| + if Live(act) && Reaches(act, client, from, until) then 1 else 0
  {
    InsertBookings(db, act, client, from, until);
  }

  lemma ShrinkBookings(db: Db, db': Db, client: string, from: int, until: int)
    requires forall p :: Counts(db', p, client, from, until) ==>
             Counts(db, p, client, from, until) && db'.participants[p] == db.participants[p]
    ensures |BookingsIn(db', client, from, until)| <= |BookingsIn(db, client, from, until)|
  {
    forall g | g in BookingsIn(db', client, from, until) ensures g in BookingsIn(db, client, from, until) {
      var p :| p in db'.participants && Counts(db', p, client, from, until) && db'.participants[p].group == g;
      assert Counts(db, p, client, from, until);
    }
    SubsetSize(BookingsIn(db', client, from, until), BookingsIn(db, client, from, until));
  }

  lemma OtherDay(midnight: int -> int, act: Action, d: int)
    requires Midnights(midnight) && act.Book? && OnDay(midnight, act) && WithinDay(midnight, act) && d != act.day
    ensures !(act.start < midnight(d + 1) - 1 && act.end > midnight(d))
  {
    if d + 1 < act.day {
      assert midnight(d + 1) < midnight(act.day);
    } else if act.day + 1 < d {
      assert midnight(act.day + 1) < midnight(d);
    }
  }

  /** On every other day that a live booking reaches into, the client is still below the limit. */
  ghost predicate RoomOnOtherDays(midnight: int -> int, limit: int, db: Db, act: Action) {
    Live(act) ==> forall d :: d != act.day && Reaches(act, act.client, midnight(d), midnight(d + 1) - 1) ==>
                    |BookingsOnDay(midnight, db, act.client, d)| < limit
  }

  lemma WithinDayLeavesRoom(midnight: int -> int, limit: int, db: Db, act: Action)
    requires Midnights(midnight) && act.Book? && OnDay(midnight, act) && WithinDay(midnight, act)
    ensures RoomOnOtherDays(midnight, limit, db, act)
  {
    forall d | d != act.day ensures !Reaches(act, act.client, midnight(d), midnight(d + 1) - 1) {
      OtherDay(midnight, act, d);
    }
  }

  /** The guard lets the booking pass. */
  ghost predicate Passes(midnight: int -> int, limits: Limits, db: Db, act: Action) {
    act.Book? && Decide(db, limits, act.services, Some(act.client),
        Some(DaySlot(midnight, act.day, act.start, act.end))) == Next
  }

  /**
  A booking that passes keeps the daily limit exactly when there is room on the other days it reaches into;
  on its own day there is.
  */
  lemma BookDayLimitExact(midnight: int -> int, limits: Limits, db: Db, act: Action, limit: int)
    requires act.Book? && NewIds(db, act) && Passes(midnight, limits, db, act)
    requires OrDefault(limits.perUserPerDay, 1) == limit > 0 && DayLimitHolds(midnight, limit, db)
    ensures DayLimitHolds(midnight, limit, Insert(db, act)) <==> RoomOnOtherDays(midnight, limit, db, act)
  {
    if DayLimitHolds(midnight, limit, Insert(db, act)) {
      forall d | Live(act) && d != act.day && Reaches(act, act.client, midnight(d), midnight(d + 1) - 1)
        ensures |BookingsOnDay(midnight, db, act.client, d)| < limit
      {
        assert |BookingsOnDay(midnight, Insert(db, act), act.client, d)| <= limit;
        InsertCount(db, act, act.client, midnight(d), midnight(d + 1) - 1);
      }
    }
    if RoomOnOtherDays(midnight, limit, db, act) {
      PassesIff(db, limits, act.services, act.client, DaySlot(midnight, act.day, act.start, act.end));
      forall client, d ensures |BookingsOnDay(midnight, Insert(db, act), client, d)| <= limit {
        assert |BookingsOnDay(midnight, db, client, d)| <= limit;
        InsertCount(db, act, client, midnight(d), midnight(d + 1) - 1);
      }
    }
  }

  lemma StepDayLimit(midnight: int -> int, limits: Limits, db: Db, act: Action, db': Db, limit: int)
    requires Step(midnight, limits, db, act, db')
    requires OrDefault(limits.perUserPerDay, 1) == limit > 0 && DayLimitHolds(midnight, limit, db)
    ensures DayLimitHolds(midnight, limit, db') <==>
            (Passes(midnight, limits, db, act) ==> RoomOnOtherDays(midnight, limit, db, act))
  {
    if Passes(midnight, limits, db, act) {
      BookDayLimitExact(midnight, limits, db, act, limit);
    } else if !act.Book? {
      forall client, d ensures |BookingsOnDay(midnight, db', client, d)| <= limit {
        assert |BookingsOnDay(midnight, db, client, d)| <= limit;
        RemovalShrinks(midnight, limits, db, act, db', client, midnight(d), midnight(d + 1) - 1);
      }
    }
  }

  lemma BookKeepsOneInstant(db: Db, act: Action, limit: int, client: string, t: int)
    requires act.Book? && NewIds(db, act)
    requires |BookingsAt(db, client, t)| <= limit
    requires |BookingsIn(db, act.client, act.start, act.end)| < limit
    ensures |BookingsAt(Insert(db, act), client, t)| <= limit
  {
    InsertCount(db, act, client, t, t + 1);
    if Reaches(act, client, t, t + 1) {
      forall g | g in BookingsAt(db, client, t) ensures g in BookingsIn(db, client, act.start, act.end) {
        var p :| p in db.participants && Counts(db, p, client, t, t + 1) && db.participants[p].group == g;
        assert Counts(db, p, client, act.start, act.end);
      }
      SubsetSize(BookingsAt(db, client, t), BookingsIn(db, client, act.start, act.end));
    }
  }

  lemma BookKeepsConcurrentLimit(midnight: int -> int, limits: Limits, db: Db, act: Action, db': Db, limit: int)
    requires act.Book? && Step(midnight, limits, db, act, db')
    requires OrDefault(limits.perUserConcurrent, 0) == limit > 0 && ConcurrentLimitHolds(limit, db)
    ensures ConcurrentLimitHolds(limit, db')
  {
    var slot := DaySlot(midnight, act.day, act.start, act.end);
    if Decide(db, limits, act.services, Some(act.client), Some(slot)) == Next {
      PassesIff(db, limits, act.services, act.client, slot);
      forall client, t ensures |BookingsAt(db', client, t)| <= limit {
        assert |BookingsAt(db, client, t)| <= limit;
        BookKeepsOneInstant(db, act, limit, client, t);
      }
    }
  }

  lemma RemovalShrinks(
      midnight: int -> int, limits: Limits, db: Db, act: Action, db': Db, client: string, from: int, until: int)
    requires !act.Book? && Step(midnight, limits, db, act, db')
    ensures |BookingsIn(db', client, from, until)| <= |BookingsIn(db, client, from, until)|
  {
    ShrinkBookings(db, db', client, from, until);
  }

  ghost function StepRelation(midnight: int -> int, limits: Limits): (Db, Action, Db) -> bool {
    (db, act, db') => Step(midnight, limits, db, act, db')
  }

  /**
  A run of guarded bookings, cancellations and removals keeps every client within the daily limit on
  every day, all along, exactly when each booking that passes has room on the other days it reaches into.
  */
  lemma RunDayLimitExact(midnight: int -> int, limits: Limits, dbs: seq<Db>, acts: seq<Action>, limit: int)
    requires IsRun(StepRelation(midnight, limits), dbs, acts)
    requires OrDefault(limits.perUserPerDay, 1) == limit > 0
    requires DayLimitHolds(midnight, limit, dbs[0])
    ensures (forall i :: 0 <= i < |dbs| ==> DayLimitHolds(midnight, limit, dbs[i])) <==>
            (forall i :: 0 <= i < |acts| && Passes(midnight, limits, dbs[i], acts[i]) ==>
                RoomOnOtherDays(midnight, limit, dbs[i], acts[i]))
  {
    var step, inv := StepRelation(midnight, limits), (db: Db) => DayLimitHolds(midnight, limit, db);
    var cond := (db: Db, act: Action) => Passes(midnight, limits, db, act) ==>
        RoomOnOtherDays(midnight, limit, db, act);
    forall i | 0 <= i < |acts| && inv(dbs[i]) ensures inv(dbs[i + 1]) <==> cond(dbs[i], acts[i]) {
      assert step(dbs[i], acts[i], dbs[i + 1]);
      StepDayLimit(midnight, limits, dbs[i], acts[i], dbs[i + 1], limit);
    }
    RunExact(step, inv, cond, dbs, acts);
    assert forall i :: 0 <= i < |dbs| ==> inv(dbs[i]) == DayLimitHolds(midnight, limit, dbs[i]);
    assert forall i :: 0 <= i < |acts| ==>
                         cond(dbs[i], acts[i]) ==
                             (Passes(midnight, limits, dbs[i], acts[i]) ==>
                                 RoomOnOtherDays(midnight, limit, dbs[i], acts[i]));
  }

  /** So bookings that end by midnight never break it, however many services or rows they have. */
  lemma RunDayLimit(midnight: int -> int, limits: Limits, dbs: seq<Db>, acts: seq<Action>, limit: int)
    requires Midnights(midnight) && IsRun(StepRelation(midnight, limits), dbs, acts)
    requires OrDefault(limits.perUserPerDay, 1) == limit > 0
    requires DayLimitHolds(midnight, limit, dbs[0])
    requires forall i :: 0 <= i < |acts| ==> WithinDay(midnight, acts[i])
    ensures forall i :: 0 <= i < |dbs| ==> DayLimitHolds(midnight, limit, dbs[i])
  {
    forall i | 0 <= i < |acts| && Passes(midnight, limits, dbs[i], acts[i])
        ensures RoomOnOtherDays(midnight, limit, dbs[i], acts[i]) {
      assert StepRelation(midnight, limits)(dbs[i], acts[i], dbs[i + 1]);
      WithinDayLeavesRoom(midnight, limit, dbs[i], acts[i]);
    }
    RunDayLimitExact(midnight, limits, dbs, acts, limit);
  }

  /**
  Over any such run, across midnight or not, no client ever has more than the limit of active bookings under
  way at one instant.
  */
  lemma RunConcurrentLimit(midnight: int -> int, limits: Limits, dbs: seq<Db>, acts: seq<Action>, limit: int)
    requires IsRun(StepRelation(midnight, limits), dbs, acts)
    requires OrDefault(limits.perUserConcurrent, 0) == limit > 0
    requires ConcurrentLimitHolds(limit, dbs[0])
    ensures forall i :: 0 <= i < |dbs| ==> ConcurrentLimitHolds(limit, dbs[i])
  {
    var step := StepRelation(midnight, limits);
    var inv := (db: Db) => ConcurrentLimitHolds(limit, db);
    forall i | 0 <= i < |acts| && inv(dbs[i]) && step(dbs[i], acts[i], dbs[i + 1]) ensures inv(dbs[i + 1]) {
      if acts[i].Book? {
        BookKeepsConcurrentLimit(midnight, limits, dbs[i], acts[i], dbs[i + 1], limit);
      } else {
        var db' := dbs[i + 1];
        forall client, t ensures |BookingsAt(db', client, t)| <= limit {
          assert |BookingsAt(dbs[i], client, t)| <= limit;
          RemovalShrinks(midnight, limits, dbs[i], acts[i], dbs[i + 1], client, t, t + 1);
        }
      }
    }
    RunInvariant(step, inv, dbs, acts);
    forall i | 0 <= i < |dbs| ensures ConcurrentLimitHolds(limit, dbs[i]) {
      assert inv(dbs[i]);
    }
  }

  const HOUR := 60 * 60 * 1000

  /** Days are at least twenty hours long, as in every zone. */
  ghost predicate RealDays(midnight: int -> int) {
    forall d, e :: d < e ==> midnight(d) + 20 * HOUR <= midnight(e)
  }

  const ONE_A_DAY := Limits(None, Some(1), None)
  const NO_ROWS: Db := Db(map[], map[])

  /** From ten to eleven on day `d`. */
  function Morning(midnight: int -> int, d: int): Action {
    Book("c", 1, d, midnight(d) + 10 * HOUR, midnight(d) + 11 * HOUR, 0, {0}, ACCEPTED)
  }

  /** From an hour before to an hour after the midnight that starts day `d`. */
  function OverMidnight(midnight: int -> int, d: int): Action {
    Book("c", 1, d - 1, midnight(d) - HOUR, midnight(d) + HOUR, 1, {1}, ACCEPTED)
  }

  function CrossingRun(midnight: int -> int, d: int): seq<Db> {
    var db := Insert(NO_ROWS, Morning(midnight, d));
    [NO_ROWS, db, Insert(db, OverMidnight(midnight, d))]
  }

  lemma NothingBooked(client: string, from: int, until: int)
    ensures BookingsIn(NO_ROWS, client, from, until) == {}
  {
  }

  /** The two bookings pass one after the other. */
  lemma BothPass(midnight: int -> int, d: int)
    requires RealDays(midnight)
    ensures IsRun(StepRelation(midnight, ONE_A_DAY), CrossingRun(midnight, d),
            [Morning(midnight, d), OverMidnight(midnight, d)])
  {
    var morning, late := Morning(midnight, d), OverMidnight(midnight, d);
    var db := Insert(NO_ROWS, morning);
    assert midnight(d - 1) + 20 * HOUR <= midnight(d) && midnight(d) + 20 * HOUR <= midnight(d + 1);
    NothingBooked("c", midnight(d), midnight(d + 1) - 1);
    PassesIff(NO_ROWS, ONE_A_DAY, 1, "c", DaySlot(midnight, d, morning.start, morning.end));
    NothingBooked("c", midnight(d - 1), midnight(d) - 1);
    InsertCount(NO_ROWS, morning, "c", midnight(d - 1), midnight(d) - 1);
    PassesIff(db, ONE_A_DAY, 1, "c", DaySlot(midnight, d - 1, late.start, late.end));
  }

  /** Both bookings are the client's, reach into day `d`, and have rows of their own. */
  lemma BothReach(midnight: int -> int, d: int)
    requires RealDays(midnight)
    ensures var first, second := Morning(midnight, d), OverMidnight(midnight, d);
            && Reaches(first, "c", midnight(d), midnight(d + 1) - 1) && Live(first) && NewIds(NO_ROWS, first)
            && Reaches(second, "c", midnight(d), midnight(d + 1) - 1) && Live(second)
            && NewIds(Insert(NO_ROWS, first), second)
  {
    assert midnight(d) + 20 * HOUR <= midnight(d + 1);
  }

  lemma TwoInserted(first: Action, second: Action, client: string, from: int, until: int)
    requires Reaches(first, client, from, until) && Live(first) && NewIds(NO_ROWS, first)
    requires Reaches(second, client, from, until) && Live(second) && NewIds(Insert(NO_ROWS, first), second)
    ensures |BookingsIn(Insert(Insert(NO_ROWS, first), second), client, from, until)| > 1
  {
    InsertCount(NO_ROWS, first, client, from, until);
    InsertCount(Insert(NO_ROWS, first), second, client, from, until);
  }

  lemma TwoOnOneDay(midnight: int -> int, d: int)
    requires RealDays(midnight)
    ensures |BookingsOnDay(midnight, CrossingRun(midnight, d)[2], "c", d)| > 1
  {
    BothReach(midnight, d);
    TwoInserted(Morning(midnight, d), OverMidnight(midnight, d), "c", midnight(d), midnight(d + 1) - 1);
  }

  /**
  On any day of any calendar: a booking over midnight is counted on the day it ends in too, which the guard
  did not look at.
  */
  lemma MidnightBreaksDayLimit(midnight: int -> int, d: int)
    requires RealDays(midnight)
    ensures IsRun(StepRelation(midnight, ONE_A_DAY), CrossingRun(midnight, d),
            [Morning(midnight, d), OverMidnight(midnight, d)])
    ensures DayLimitHolds(midnight, 1, CrossingRun(midnight, d)[0])
            && !DayLimitHolds(midnight, 1, CrossingRun(midnight, d)[2])
  {
    BothPass(midnight, d);
    TwoOnOneDay(midnight, d);
    forall client, e ensures |BookingsOnDay(midnight, NO_ROWS, client, e)| <= 1 {
      NothingBooked(client, midnight(e), midnight(e + 1) - 1);
    }
  }
}
