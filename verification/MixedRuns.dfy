/** Runs in which clients cancel and confirm while bookings are edited, moved, divided and deleted. */
module MixedRuns {
  import opened Wrappers
  import opened Statuses
  import opened Runs
  import T = TimeSegments
  import B = BookingModel
  import P = BookingProofs
  import R = BookingRuns
  import C = ClientActions

  datatype State = State(store: B.Db, cache: map<C.Key, C.Answer>)

  /** How many people the services of events are for, where they say. */
  type Capacity = map<B.Id, int>

  /**
  A request of a client, with the capacities of that moment, or the expiry of an answer; or a transaction of
  the platform.
  */
  datatype Act = Client(capacity: Capacity, what: C.Label) | Platform(act: R.Action)

  // ----- The store as clients' requests see it

  function ViewEvents(db: B.Db, capacity: Capacity): map<C.Id, C.EventRow> {
    map e | e in db.events ::
      C.EventRow(db.events[e].group, db.events[e].deleted, if e in capacity then Some(capacity[e]) else None)
  }

  function ViewGroups(db: B.Db): map<C.Id, C.GroupRow> {
    map g | g in db.groups :: C.GroupRow(db.groups[g].details.idWorkspace, db.groups[g].details.eventStatusType)
  }

  function ViewRow(row: B.Participant): C.ParticipantRow {
    C.ParticipantRow(row.group, row.person.client, row.person.status, row.deleted)
  }

  function View(s: State, capacity: Capacity): C.Db {
    C.Db(ViewEvents(s.store, capacity), ViewGroups(s.store), map p | p in s.store.participants ::
        ViewRow(s.store.participants[p]), s.cache)
  }

  function WithStatus(group: B.Group, status: EventStatus): B.Group {
    group.(details := group.details.(eventStatusType := status))
  }

  function RowWithStatus(row: B.Participant, status: EventStatus): B.Participant {
    row.(person := row.person.(status := status))
  }

  /** The store with what a client's request does to it: rows gone and statuses set. */
  function Applied(db: B.Db, v: C.Db): B.Db {
    db.(events := map e | e in db.events && e in v.events :: db.events[e],
        groups := map g | g in db.groups && g in v.groups :: WithStatus(db.groups[g], v.groups[g].status),
        participants := map p | p in db.participants && p in v.participants ::
            RowWithStatus(db.participants[p], v.participants[p].status))
  }

  ghost predicate ClientStep(s: State, capacity: Capacity, what: C.Label, s': State, v: C.Db) {
    C.Step(View(s, capacity), what, v) && s' == State(Applied(s.store, v), v.cache)
  }

  ghost predicate Step(s: State, act: Act, s': State) {
    match act
    case Client(capacity, what) => exists v :: ClientStep(s, capacity, what, s', v)
    case Platform(a) => R.Step(s.store, a, s'.store) && s'.cache == s.cache
  }

  // ----- What a client's request leaves of the tables

  /** Groups keep their workspace, and a group that stays keeps all its events. */
  ghost predicate Leaves(v: C.Db, v': C.Db) {
    && C.Forward(v, v')
    && (forall g :: g in v'.groups ==> v'.groups[g].workspace == v.groups[g].workspace)
    && (forall e :: e in v.events && v.events[e].group in v'.groups ==> e in v'.events)
  }

  lemma RowLeaves(v: C.Db, key: C.Key, p: C.Id)
    requires C.RowOf(v, key, p) && v.events[key.event].group in v.groups
    ensures var v' := C.ActOnRow(v, key, p).0;
            && (forall g :: g in v'.groups ==> g in v.groups && v'.groups[g].workspace == v.groups[g].workspace)
            && (forall e :: e in v.events && v.events[e].group in v'.groups ==> e in v'.events)
  {
  }

  lemma StepLeaves(v: C.Db, what: C.Label, v': C.Db)
    requires C.Refs(v) && C.Step(v, what, v')
    ensures Leaves(v, v') && C.Refs(v')
  {
    C.StepForward(v, what, v');
    if what.Request? && what.key !in v.cache && C.Found(v, what.key) {
      RowLeaves(v, what.key, what.row.value);
    }
  }

  lemma ViewRefs(s: State, capacity: Capacity)
    requires B.Refs(s.store)
    ensures C.Refs(View(s, capacity))
  {
  }

  lemma AppliedEvents(s: State, capacity: Capacity, v: C.Db)
    requires Leaves(View(s, capacity), v)
    ensures ViewEvents(Applied(s.store, v), capacity) == v.events
  {
    forall e | e in v.events ensures e in s.store.events && v.events[e] == View(s, capacity).events[e] {
    }
    assert ViewEvents(Applied(s.store, v), capacity).Keys == v.events.Keys;
  }

  lemma AppliedGroups(s: State, capacity: Capacity, v: C.Db)
    requires Leaves(View(s, capacity), v)
    ensures ViewGroups(Applied(s.store, v)) == v.groups
  {
    forall g | g in v.groups ensures g in s.store.groups && v.groups[g].workspace ==
        View(s, capacity).groups[g].workspace {
    }
    assert ViewGroups(Applied(s.store, v)).Keys == v.groups.Keys;
  }

  lemma AppliedRow(s: State, capacity: Capacity, v: C.Db, p: C.Id)
    requires Leaves(View(s, capacity), v) && p in v.participants
    ensures p in s.store.participants && ViewRow(RowWithStatus(s.store.participants[p], v.participants[p].status)) ==
            v.participants[p]
  {
    assert p in View(s, capacity).participants && View(s, capacity).participants[p] == ViewRow(s.store.participants[p]);
  }

  lemma AppliedRows(s: State, capacity: Capacity, v: C.Db)
    requires Leaves(View(s, capacity), v)
    ensures View(State(Applied(s.store, v), v.cache), capacity).participants == v.participants
  {
    forall p | p in v.participants
      ensures p in s.store.participants
              && ViewRow(RowWithStatus(s.store.participants[p], v.participants[p].status)) == v.participants[p] {
      AppliedRow(s, capacity, v, p);
    }
    assert View(State(Applied(s.store, v), v.cache), capacity).participants.Keys == v.participants.Keys;
  }

  /** The store that a request leaves looks to clients as the request left it. */
  lemma AppliedView(s: State, capacity: Capacity, v: C.Db)
    requires Leaves(View(s, capacity), v)
    ensures View(State(Applied(s.store, v), v.cache), capacity) == v
  {
    AppliedEvents(s, capacity, v);
    AppliedGroups(s, capacity, v);
    AppliedRows(s, capacity, v);
  }

  // ----- References and windows

  lemma AppliedActive(s: State, capacity: Capacity, v: C.Db, e: B.Id, g: B.Id)
    requires Leaves(View(s, capacity), v) && g in Applied(s.store, v).groups
    ensures B.Active(Applied(s.store, v), e, g) <==> B.Active(s.store, e, g)
    ensures B.Active(s.store, e, g) ==> Applied(s.store, v).events[e] == s.store.events[e]
  {
    if B.Active(s.store, e, g) {
      assert e in View(s, capacity).events && View(s, capacity).events[e].group == g;
    }
  }

  lemma AppliedWindow(s: State, capacity: Capacity, v: C.Db, g: B.Id, exact: bool)
    requires Leaves(View(s, capacity), v) && g in Applied(s.store, v).groups && B.WindowOk(s.store, g, exact)
    ensures B.WindowOk(Applied(s.store, v), g, exact)
  {
    var db := Applied(s.store, v);
    forall e ensures (B.Active(db, e, g) <==> B.Active(s.store, e, g))
        && (B.Active(s.store, e, g) ==> db.events[e] == s.store.events[e]) {
      AppliedActive(s, capacity, v, e, g);
    }
    if exact && exists e :: B.Active(db, e, g) {
      var e :| B.Active(s.store, e, g) && s.store.events[e].start == s.store.groups[g].start;
      var f :| B.Active(s.store, f, g) && s.store.events[f].end == s.store.groups[g].end;
      assert B.Active(db, e, g) && B.Active(db, f, g);
    }
  }

  lemma AppliedEventRefs(s: State, capacity: Capacity, v: C.Db, e: B.Id)
    requires B.Refs(s.store) && Leaves(View(s, capacity), v) && C.Refs(v) && e in Applied(s.store, v).events
    ensures var db := Applied(s.store, v);
            && db.events[e] == s.store.events[e] && db.events[e].group in db.groups
            && (db.events[e].rule.Some? ==> db.events[e].rule.value in db.rules)
  {
    assert v.events[e] == View(s, capacity).events[e] && v.events[e].group in v.groups;
  }

  lemma AppliedRowRefs(s: State, capacity: Capacity, v: C.Db, p: B.Id)
    requires B.Refs(s.store) && Leaves(View(s, capacity), v) && C.Refs(v) && p in Applied(s.store, v).participants
    ensures Applied(s.store, v).participants[p].group in Applied(s.store, v).groups
  {
    AppliedRow(s, capacity, v, p);
    assert v.participants[p].group in v.groups;
  }

  lemma AppliedRefs(s: State, capacity: Capacity, v: C.Db)
    requires B.Refs(s.store) && Leaves(View(s, capacity), v) && C.Refs(v)
    ensures B.Refs(Applied(s.store, v))
  {
    var db := Applied(s.store, v);
    forall e | e in db.events ensures db.events[e].group in db.groups
        && (db.events[e].rule.Some? ==> db.events[e].rule.value in db.rules) {
      AppliedEventRefs(s, capacity, v, e);
    }
    forall p | p in db.participants ensures db.participants[p].group in db.groups && p < db.nextId {
      AppliedRowRefs(s, capacity, v, p);
    }
  }

  lemma ClientKeepsInv(s: State, capacity: Capacity, what: C.Label, s': State, v: C.Db, exact: bool)
    requires B.Inv(s.store, exact) && ClientStep(s, capacity, what, s', v)
    ensures B.Inv(s'.store, exact)
  {
    ViewRefs(s, capacity);
    StepLeaves(View(s, capacity), what, v);
    AppliedRefs(s, capacity, v);
    forall g | g in s'.store.groups ensures B.WindowOk(s'.store, g, exact) {
      assert B.WindowOk(s.store, g, exact);
      AppliedWindow(s, capacity, v, g, exact);
    }
  }

  // ----- Remembered cancellations

  /**
  Every remembered cancellation can still be seen: in a row of the client, in the group, or because the
  event is gone.
  */
  ghost predicate Truthful(s: State) {
    C.CacheTrue(View(s, map[]))
  }

  lemma CapacityIrrelevant(s: State, c1: Capacity, c2: Capacity, key: C.Key)
    requires C.CancelVisible(View(s, c1), key)
    ensures C.CancelVisible(View(s, c2), key)
  {
    var v, w := View(s, c1), View(s, c2);
    if p :| C.RowOf(v, key, p) && v.participants[p].status == CANCELLED_BY_CLIENT {
      assert C.RowOf(w, key, p) && w.participants[p].status == CANCELLED_BY_CLIENT;
    }
  }

  lemma ClientKeepsTruth(s: State, capacity: Capacity, what: C.Label, s': State, v: C.Db)
    requires B.Refs(s.store) && Truthful(s) && ClientStep(s, capacity, what, s', v)
    ensures Truthful(s')
  {
    ViewRefs(s, capacity);
    forall key | key in s.cache && key.action == C.Cancel ensures C.CancelVisible(View(s, capacity), key) {
      CapacityIrrelevant(s, map[], capacity, key);
    }
    C.StepKeepsCacheTrue(View(s, capacity), what, v);
    StepLeaves(View(s, capacity), what, v);
    AppliedView(s, capacity, v);
    forall key | key in s'.cache && key.action == C.Cancel ensures C.CancelVisible(View(s', map[]), key) {
      assert C.CancelVisible(View(s', capacity), key);
      CapacityIrrelevant(s', capacity, map[], key);
    }
  }

  /** Wherever a transaction puts an event, its group has the status of the group it was in. */
  ghost predicate StatusFollows(db: B.Db, db': B.Db, e: B.Id) {
    && e in db.events && e in db'.events && db.events[e].group in db.groups && db'.events[e].group in db'.groups
    && db'.groups[db'.events[e].group].details.eventStatusType == db.groups[db.events[e].group].details.eventStatusType
  }

  lemma MoveStatusFollows(db: B.Db, id: B.Id, input: B.UpdateInput, db': B.Db, remaining: seq<T.MinimalEvent>, e: B.Id)
    requires B.Refs(db) && R.Moves()(db, id, input, db', remaining) && e in db.events
    ensures StatusFollows(db, db', e)
  {
    assert R.MovedBy(db, id, input, db', remaining);
    var g := db.events[id].group;
    if e != id && B.Active(db, e, g) {
      var segs := T.Segments(remaining);
      assert db'.events[e] == db.events[e].(group := db'.events[e].group);
      if db'.events[e].group in db.groups {
        MovedStays(db, id, input, db', remaining, e);
      }
    }
  }

  /** An event of the target's group that a move leaves in an old group is still in its own. */
  lemma MovedStays(db: B.Db, id: B.Id, input: B.UpdateInput, db': B.Db, remaining: seq<T.MinimalEvent>, e: B.Id)
    requires R.MovedBy(db, id, input, db', remaining) && e != id && B.Active(db, e, db.events[id].group)
    requires e in db'.events && db'.events[e].group in db.groups
    ensures db'.events[e].group == db.events[id].group
  {
    var segs := T.Segments(remaining);
    assert P.InPieces(segs, e);
    var k, i :| 0 <= k < |segs| && 0 <= i < |segs[k]| && segs[k][i].id == e;
    assert db'.events[segs[k][i].id].group == P.PieceGroup(db', segs, k);
  }

  lemma EditStatusFollows(db: B.Db, input: B.UpdateInput, db': B.Db, e: B.Id)
    requires B.Refs(db) && R.EditStep(db, input, db') && e in db.events
    ensures StatusFollows(db, db', e)
  {
  }

  lemma DeleteStatusFollows(db: B.Db, ids: set<B.Id>, e: B.Id)
    requires B.Refs(db) && e in db.events && e !in ids
    ensures StatusFollows(db, B.DeleteEvents(db, ids), e)
  {
    R.DeleteExact(db, ids);
  }

  lemma PlatformStatusFollows(db: B.Db, a: R.Action, db': B.Db, e: B.Id)
    requires B.Inv(db, false) && R.Step(db, a, db') && e in db'.events
    ensures StatusFollows(db, db', e)
  {
    R.StepKeeps(db, a, db', false);
    assert R.Survives(db, db', e);
    match a
    case Edit(input) => EditStatusFollows(db, input, db', e);
    case Delete(ids) => DeleteStatusFollows(db, ids, e);
    case MoveEvent(input) =>
      var v := B.Validate(db, input, true);
      if v.Ok? {
        var remaining :| R.Moves()(db, v.value, input, db', remaining);
        MoveStatusFollows(db, v.value, input, db', remaining, e);
      }
  }

  /** Where the people of an event go, someone with the same name and status is found. */
  lemma PersonFollows(db: B.Db, db': B.Db, e: B.Id, p: B.Id) returns (q: B.Id)
    requires R.Survives(db, db', e) && B.Live(db, p, db.events[e].group)
    ensures B.Live(db', q, db'.events[e].group) && db'.participants[q].person == db.participants[p].person
  {
    var who := db.participants[p].person;
    var g, g' := db.events[e].group, db'.events[e].group;
    var before := set r | r in db.participants && B.Live(db, r, g) && db.participants[r].person == who;
    assert p in before && B.HeadCount(db, g, who) == |before|;
    var rows := set r | r in db'.participants && B.Live(db', r, g') && db'.participants[r].person == who;
    assert |rows| == B.HeadCount(db', g', who) == |before|;
    q :| q in rows;
  }

  lemma CancelFollows(s: State, a: R.Action, s': State, key: C.Key)
    requires B.Inv(s.store, false) && R.Step(s.store, a, s'.store) && C.CancelVisible(View(s, map[]), key)
    ensures C.CancelVisible(View(s', map[]), key)
  {
    var e := key.event;
    if e in s'.store.events {
      PlatformStatusFollows(s.store, a, s'.store, e);
      R.StepKeeps(s.store, a, s'.store, false);
      var v, v' := View(s, map[]), View(s', map[]);
      if p :| C.RowOf(v, key, p) && v.participants[p].status == CANCELLED_BY_CLIENT {
        var q := PersonFollows(s.store, s'.store, e, p);
        assert C.RowOf(v', key, q) && v'.participants[q].status == CANCELLED_BY_CLIENT;
      }
    }
  }

  lemma PlatformKeepsTruth(s: State, a: R.Action, s': State)
    requires B.Inv(s.store, false) && Truthful(s) && R.Step(s.store, a, s'.store) && s'.cache == s.cache
    ensures Truthful(s')
  {
    forall key | key in s'.cache && key.action == C.Cancel ensures C.CancelVisible(View(s', map[]), key) {
      assert C.CancelVisible(View(s, map[]), key);
      CancelFollows(s, a, s', key);
    }
  }

  // ----- Which events are lost

  /** Every live row of the group but `p`, whoever's it is, has been cancelled by its client. */
  ghost predicate AllElseCancelled(db: B.Db, g: B.Id, p: B.Id) {
    forall q :: q in db.participants && db.participants[q].group == g && !db.participants[q].deleted && q != p ==>
      db.participants[q].person.status == CANCELLED_BY_CLIENT
  }

  /**
  A deletion names the event; or a client is told that a cancel changed the booking that it belongs to,
  through an event for several people, and everybody else there has cancelled before.
  */
  ghost predicate LostTo(s: State, act: Act, e: B.Id) {
    match act
    case Platform(a) => a.Delete? && e in a.idList
    case Client(capacity, what) =>
      && what.Request? && what.key !in s.cache && what.key.action == C.Cancel
      && what.row.Some? && what.answer.Some? && what.answer.value.changed
      && what.key.event in s.store.events && e in s.store.events
      && s.store.events[what.key.event].group == s.store.events[e].group
      && what.key.event in capacity && capacity[what.key.event] >= 2
      && AllElseCancelled(s.store, s.store.events[e].group, what.row.value)
  }

  /** An event that is still there has its deletion mark and its rule as before. */
  ghost predicate Stays(s: State, s': State, e: B.Id) {
    && e in s.store.events && e in s'.store.events
    && s'.store.events[e].deleted == s.store.events[e].deleted && s'.store.events[e].rule == s.store.events[e].rule
  }

  /** The same of the tables as the client's request sees them. */
  ghost predicate Loses(v: C.Db, what: C.Label, e: C.Id) {
    && what.Request? && what.key !in v.cache && what.key.action == C.Cancel
    && what.row.Some? && what.answer.Some? && what.answer.value.changed
    && what.key.event in v.events && e in v.events && v.events[what.key.event].group == v.events[e].group
    && C.ForMany(v.events[what.key.event]) && C.AllElseCancelled(v, v.events[e].group, what.row.value)
  }

  lemma RequestLoses(v: C.Db, what: C.Label, v': C.Db, e: C.Id)
    requires C.Refs(v) && C.Step(v, what, v') && e in v.events
    ensures e !in v'.events <==> Loses(v, what, e)
  {
    if what.Request? && what.key !in v.cache && what.answer.Some? {
      C.WorkExact(v, what.key, what.row, what.answer.value, v');
      if what.key.action == C.Cancel {
        C.CancelExact(v, what.key, what.row.value, what.answer.value, v');
      } else {
        C.ConfirmExact(v, what.key, what.row.value, what.answer.value, v');
      }
    }
  }

  lemma ViewLoses(s: State, capacity: Capacity, what: C.Label, e: B.Id)
    requires e in s.store.events
    ensures Loses(View(s, capacity), what, e) <==> LostTo(s, Client(capacity, what), e)
  {
    var v, g := View(s, capacity), s.store.events[e].group;
    if what.Request? && what.row.Some? {
      forall q | q in s.store.participants
        ensures v.participants[q].status == s.store.participants[q].person.status {
      }
      assert C.AllElseCancelled(v, g, what.row.value) <==> AllElseCancelled(s.store, g, what.row.value);
    }
  }

  lemma ClientEvents(s: State, capacity: Capacity, what: C.Label, s': State, v: C.Db, e: B.Id)
    requires B.Refs(s.store) && ClientStep(s, capacity, what, s', v)
    ensures e in s'.store.events ==> Stays(s, s', e)
    ensures e in s.store.events ==> (e !in s'.store.events <==> LostTo(s, Client(capacity, what), e))
  {
    ViewRefs(s, capacity);
    StepLeaves(View(s, capacity), what, v);
    if e in s.store.events {
      RequestLoses(View(s, capacity), what, v, e);
      ViewLoses(s, capacity, what, e);
    }
  }

  // ----- Any one step, and runs

  ghost predicate Good(s: State) {
    B.Inv(s.store, false) && Truthful(s)
  }

  lemma StepGood(s: State, act: Act, s': State)
    requires Good(s) && Step(s, act, s')
    ensures Good(s')
    ensures forall e :: e in s'.store.events ==> Stays(s, s', e)
    ensures forall e :: e in s.store.events ==> (e !in s'.store.events <==> LostTo(s, act, e))
  {
    match act
    case Client(capacity, what) =>
      var v :| ClientStep(s, capacity, what, s', v);
      ClientKeepsInv(s, capacity, what, s', v, false);
      ClientKeepsTruth(s, capacity, what, s', v);
      forall e ensures (e in s'.store.events ==> Stays(s, s', e))
          && (e in s.store.events ==> (e !in s'.store.events <==> LostTo(s, act, e))) {
        ClientEvents(s, capacity, what, s', v, e);
      }
    case Platform(a) =>
      R.StepKeeps(s.store, a, s'.store, false);
      PlatformKeepsTruth(s, a, s');
      forall e | e in s'.store.events ensures Stays(s, s', e) {
        assert R.Survives(s.store, s'.store, e);
      }
  }

  ghost function StepRelation(): (State, Act, State) -> bool {
    (s, act, s') => Step(s, act, s')
  }

  ghost predicate AllStay(s: State, s': State) {
    forall e :: e in s'.store.events ==> Stays(s, s', e)
  }

  /**
  Over any run of clients' cancels and confirms, expiries, edits, moves and deletions: no reference
  dangles, every window covers its active events, and every remembered cancellation is still visible,
  wherever the event was moved since. No event appears or changes its rule or deletion mark, and one is
  lost exactly to a deletion that names it, or to a cancel through an event for several people after
  everybody else in its booking has cancelled.
  */
  lemma MixedRunSafe(states: seq<State>, acts: seq<Act>)
    requires IsRun(StepRelation(), states, acts) && Good(states[0])
    ensures forall i :: 0 <= i < |states| ==> Good(states[i])
    ensures forall i, j :: 0 <= i <= j < |states| ==> AllStay(states[i], states[j])
    ensures forall i, e :: 0 <= i < |acts| && e in states[i].store.events ==>
              (e !in states[i + 1].store.events <==> LostTo(states[i], acts[i], e))
  {
    var inv := (s: State) => Good(s);
    forall i | 0 <= i < |acts| && inv(states[i]) && StepRelation()(states[i], acts[i], states[i + 1])
        ensures inv(states[i + 1]) {
      StepGood(states[i], acts[i], states[i + 1]);
    }
    RunInvariant(StepRelation(), inv, states, acts);
    forall i | 0 <= i < |states| ensures Good(states[i]) {
      assert inv(states[i]);
    }
    forall i | 0 <= i < |acts|
      ensures AllStay(states[i], states[i + 1])
      ensures forall e :: e in states[i].store.events ==>
                (e !in states[i + 1].store.events <==> LostTo(states[i], acts[i], e)) {
      assert StepRelation()(states[i], acts[i], states[i + 1]);
      StepGood(states[i], acts[i], states[i + 1]);
    }
    forall i, j | 0 <= i <= j < |states| ensures AllStay(states[i], states[j]) {
      RunStays(states, acts, i, j);
    }
  }

  lemma RunStays(states: seq<State>, acts: seq<Act>, i: nat, j: nat)
    requires IsRun(StepRelation(), states, acts) && i <= j < |states|
    requires forall k :: 0 <= k < |acts| ==> AllStay(states[k], states[k + 1])
    ensures AllStay(states[i], states[j])
  {
    var rel := (a: State, b: State) => AllStay(a, b);
    forall a, b, c | rel(a, b) && rel(b, c) ensures rel(a, c) {
      StayTransitive(a, b, c);
    }
    RunRelation(StepRelation(), rel, states, acts, i, j);
    assert rel(states[i], states[j]);
  }

  lemma StayTransitive(a: State, b: State, c: State)
    requires AllStay(a, b) && AllStay(b, c)
    ensures AllStay(a, c)
  {
    forall e | e in c.store.events ensures Stays(a, c, e) {
      assert Stays(b, c, e) && Stays(a, b, e);
    }
  }

  /** Exact windows too are kept by all but deletions, whose exact condition is the same as without clients. */
  lemma MixedWindowsExact(states: seq<State>, acts: seq<Act>)
    requires IsRun(StepRelation(), states, acts) && B.Inv(states[0].store, true)
    ensures (forall i :: 0 <= i < |states| ==> B.Inv(states[i].store, true)) <==>
            (forall i :: 0 <= i < |acts| ==> KeepsWindows(states[i], acts[i]))
  {
    var inv, cond := (s: State) => B.Inv(s.store, true), (s: State, act: Act) => KeepsWindows(s, act);
    forall i | 0 <= i < |acts| && inv(states[i]) ensures inv(states[i + 1]) <==> cond(states[i], acts[i]) {
      assert StepRelation()(states[i], acts[i], states[i + 1]);
      StepWindowsExact(states[i], acts[i], states[i + 1]);
    }
    RunExact(StepRelation(), inv, cond, states, acts);
    assert forall i :: 0 <= i < |states| ==> inv(states[i]) == B.Inv(states[i].store, true);
    assert forall i :: 0 <= i < |acts| ==> cond(states[i], acts[i]) == KeepsWindows(states[i], acts[i]);
  }

  ghost predicate KeepsWindows(s: State, act: Act) {
    act.Platform? && act.act.Delete? ==> R.EndsRemain(s.store, act.act.idList)
  }

  lemma StepWindowsExact(s: State, act: Act, s': State)
    requires B.Inv(s.store, true) && Step(s, act, s')
    ensures B.Inv(s'.store, true) <==> KeepsWindows(s, act)
  {
    match act
    case Client(capacity, what) =>
      var v :| ClientStep(s, capacity, what, s', v);
      ClientKeepsInv(s, capacity, what, s', v, true);
    case Platform(a) =>
      if a.Delete? {
        R.DeleteWindowsExact(s.store, a.idList);
      } else {
        R.StepKeeps(s.store, a, s'.store, true);
      }
  }
}
