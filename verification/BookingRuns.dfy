/** Runs of the booking transactions: edits, moves and deletions in any order, with any failures between. */
module BookingRuns {
  import opened Wrappers
  import opened TimeSegments
  import opened BookingModel
  import opened BookingProofs
  import opened Runs

  datatype Action = Edit(input: UpdateInput) | MoveEvent(input: UpdateInput) | Delete(idList: set<Id>)

  function WithEvent(db: Db, id: Id, input: UpdateInput): Db
    requires id in db.events
  {
    db.(events := db.events[id := Apply(db.events[id], input)])
  }

  ghost predicate EditStep(db: Db, input: UpdateInput, db': Db) {
    match Validate(db, input, false)
    case Err(_) => db' == db
    case Ok(id) =>
      exists start, end ::
        && IsWindow(WithEvent(db, id, input), db.events[id].group, start, end)
        && db' == SetWindow(WithEvent(db, id, input), db.events[id].group, start, end)
  }

  ghost predicate MoveStep(db: Db, input: UpdateInput, db': Db) {
    match Validate(db, input, true)
    case Err(_) => db' == db
    case Ok(id) =>
      exists remaining :: Moves()(db, id, input, db', remaining)
  }

  /** What a move establishes when `remaining` lists the events left behind. */
  ghost predicate MovedBy(db: Db, id: Id, input: UpdateInput, db': Db, remaining: seq<MinimalEvent>) {
    && input.id == Some(id) && id in db.events && db.events[id].group in db.groups
    && ListsRemaining(db, id, remaining)
    && MoveEvents(db, id, input, db') && MovePieces(db, id, db', Segments(remaining))
    && MoveGroups(db, id, db') && MovePeople(db, id, db')
  }

  ghost function Moves(): (Db, nat, UpdateInput, Db, seq<MinimalEvent>) -> bool {
    (db, id: Id, input, db', remaining) => MovedBy(db, id, input, db', remaining)
  }

  /** What the moving transaction promises is what a move step of a run asks for. */
  lemma MoveOutcomeMoves(db: Db, id: Id, input: UpdateInput, db': Db, remaining: seq<MinimalEvent>)
    requires input.id == Some(id) && id in db.events && db.events[id].group in db.groups
             && ListsRemaining(db, id, remaining)
    requires MoveEvents(db, id, input, db') && MovePieces(db, id, db', Segments(remaining))
    requires MoveGroups(db, id, db') && MovePeople(db, id, db')
    ensures Moves()(db, id, input, db', remaining)
  {
  }

  ghost predicate Step(db: Db, act: Action, db': Db) {
    match act
    case Edit(input) => EditStep(db, input, db')
    case MoveEvent(input) => MoveStep(db, input, db')
    case Delete(ids) => db' == DeleteEvents(db, ids)
  }

  /** An edit or a move that is not refused writes what is given into the event it names, and no more. */
  lemma UpdateWritesGiven(db: Db, input: UpdateInput, isMany: bool, db': Db)
    requires if isMany then MoveStep(db, input, db') else EditStep(db, input, db')
    requires Validate(db, input, isMany).Ok?
    ensures var id := input.id.value;
            && id in db.events && id in db'.events && WritesGiven(db.events[id], input, db'.events[id])
            && db'.events[id].group == if isMany then db.nextId else db.events[id].group
  {
    var id := input.id.value;
    ApplyWrites(db.events[id], input);
    if isMany {
      MovedEvent(db, id, input, db');
    } else {
      EditedEvent(db, id, input, db');
    }
  }

  lemma EditedEvent(db: Db, id: Id, input: UpdateInput, db': Db)
    requires Validate(db, input, false) == Ok(id) && EditStep(db, input, db')
    ensures id in db'.events && db'.events[id] == Apply(db.events[id], input)
  {
  }

  lemma MovedEvent(db: Db, id: Id, input: UpdateInput, db': Db)
    requires Validate(db, input, true) == Ok(id) && MoveStep(db, input, db')
    ensures id in db'.events && db'.events[id] == Apply(db.events[id], input).(group := db.nextId)
  {
    var remaining :| Moves()(db, id, input, db', remaining);
    MovedByEvents(db, id, input, db', remaining);
  }

  lemma MovedByEvents(db: Db, id: Id, input: UpdateInput, db': Db, remaining: seq<MinimalEvent>)
    requires Moves()(db, id, input, db', remaining)
    ensures id in db.events && MoveEvents(db, id, input, db')
  {
    assert MovedBy(db, id, input, db', remaining);
  }

  // ----- Deletion

  /**
  A deletion removes a group iff it held a deleted event and holds none afterwards (cancelled or
  soft-deleted events count), a participant iff its group goes, and a recurrence rule iff a deleted
  event used it and no remaining one does. Everything else stays as it was.
  */
  lemma DeleteExact(db: Db, ids: set<Id>)
    requires Refs(db)
    ensures var db' := DeleteEvents(db, ids);
            && (forall e :: e in db'.events <==> e in db.events && e !in ids)
            && (forall e :: e in db'.events ==> db'.events[e] == db.events[e])
            && (forall g :: g in db'.groups <==> g in db.groups && !GroupEmptied(db, ids, g))
            && (forall g :: g in db'.groups ==> db'.groups[g] == db.groups[g])
            && (forall p :: p in db'.participants <==> p in db.participants && db.participants[p].group in db'.groups)
            && (forall p :: p in db'.participants ==> db'.participants[p] == db.participants[p])
            && (forall r :: r in db'.rules <==> r in db.rules && !RuleUnused(db, ids, r))
            && db'.nextId == db.nextId
  {
    DeleteKeepsRest(db, ids);
  }

  /** The same without supposing that references resolve: a participant goes iff its group would. */
  lemma DeleteKeepsRest(db: Db, ids: set<Id>)
    ensures var db' := DeleteEvents(db, ids);
            && (forall e :: e in db'.events <==> e in db.events && e !in ids)
            && (forall e :: e in db'.events ==> db'.events[e] == db.events[e])
            && (forall g :: g in db'.groups <==> g in db.groups && !GroupEmptied(db, ids, g))
            && (forall g :: g in db'.groups ==> db'.groups[g] == db.groups[g])
            && (forall p :: p in db'.participants <==>
                 p in db.participants && !GroupEmptied(db, ids, db.participants[p].group))
            && (forall p :: p in db'.participants ==> db'.participants[p] == db.participants[p])
            && (forall r :: r in db'.rules <==> r in db.rules && !RuleUnused(db, ids, r))
            && db'.nextId == db.nextId
  {
    var hit := set e | e in ids && e in db.events;
    var groupIds := set e | e in hit :: db.events[e].group;
    var ruleIds := set e | e in hit && db.events[e].rule.Some? :: db.events[e].rule.value;
    forall g ensures g in EmptiedGroups(db.events - ids, groupIds) <==> GroupEmptied(db, ids, g) {
      EmptiedWhen(db, ids, g);
    }
    forall r ensures r in UnusedRules(db.events - ids, ruleIds) <==> RuleUnused(db, ids, r) {
      UnusedWhen(db, ids, r);
    }
  }

  ghost predicate GroupEmptied(db: Db, ids: set<Id>, g: Id) {
    && (exists e :: e in ids && e in db.events && db.events[e].group == g)
    && !exists e :: e in db.events && e !in ids && db.events[e].group == g
  }

  ghost predicate RuleUnused(db: Db, ids: set<Id>, r: Id) {
    && (exists e :: e in ids && e in db.events && db.events[e].rule == Some(r))
    && !exists e :: e in db.events && e !in ids && db.events[e].rule == Some(r)
  }

  lemma EmptiedWhen(db: Db, ids: set<Id>, g: Id)
    ensures var hit := set e | e in ids && e in db.events;
            g in EmptiedGroups(db.events - ids, set e | e in hit :: db.events[e].group) <==> GroupEmptied(db, ids, g)
  {
    var hit := set e | e in ids && e in db.events;
    if e :| e in ids && e in db.events && db.events[e].group == g {
      assert e in hit;
    }
    if e :| e in db.events && e !in ids && db.events[e].group == g {
      assert e in db.events - ids;
    }
  }

  lemma UnusedWhen(db: Db, ids: set<Id>, r: Id)
    ensures var hit := set e | e in ids && e in db.events;
            var freed := set e | e in hit && db.events[e].rule.Some? :: db.events[e].rule.value;
            r in UnusedRules(db.events - ids, freed) <==> RuleUnused(db, ids, r)
  {
    var hit := set e | e in ids && e in db.events;
    if e :| e in ids && e in db.events && db.events[e].rule == Some(r) {
      assert e in hit && db.events[e].rule.value == r;
    }
    if e :| e in db.events && e !in ids && db.events[e].rule == Some(r) {
      assert e in db.events - ids;
    }
  }

  lemma DeleteKeepsRefs(db: Db, ids: set<Id>)
    requires Refs(db)
    ensures Refs(DeleteEvents(db, ids))
    ensures Windows(db, false) ==> Windows(DeleteEvents(db, ids), false)
  {
    var db' := DeleteEvents(db, ids);
    DeleteExact(db, ids);
    forall e | e in db'.events ensures db'.events[e].group in db'.groups
      && (db'.events[e].rule.Some? ==> db'.events[e].rule.value in db'.rules) {
      assert e in db.events;
    }
    if Windows(db, false) {
      forall g | g in db'.groups ensures WindowOk(db', g, false) {
        assert WindowOk(db, g, false);
        assert forall e :: Active(db', e, g) ==> Active(db, e, g);
      }
    }
  }

  lemma DeleteKeepsPeople(db: Db, ids: set<Id>, g: Id, who: Person)
    requires Refs(db) && g in DeleteEvents(db, ids).groups
    ensures HeadCount(DeleteEvents(db, ids), g, who) == HeadCount(db, g, who)
  {
    var db' := DeleteEvents(db, ids);
    DeleteExact(db, ids);
    assert (set p | p in db'.participants && Live(db', p, g) && db'.participants[p].person == who)
        == (set p | p in db.participants && Live(db, p, g) && db.participants[p].person == who);
  }

  // ----- Single edits

  lemma EditKeepsWindow(db: Db, id: Id, input: UpdateInput, start: int, end: int, h: Id, exact: bool)
    requires Inv(db, exact) && Validate(db, input, false) == Ok(id) && h in db.groups
    requires IsWindow(WithEvent(db, id, input), db.events[id].group, start, end)
    ensures WindowOk(SetWindow(WithEvent(db, id, input), db.events[id].group, start, end), h, exact)
  {
    var g := db.events[id].group;
    var db1 := WithEvent(db, id, input);
    var db' := SetWindow(db1, g, start, end);
    if h == g {
      SameEventsWindow(db1, db', h);
      WindowFromExact(db', h, exact);
    } else {
      assert WindowOk(db, h, exact);
      SameActiveOk(db, db', h, exact);
    }
  }

  lemma EditKeeps(db: Db, id: Id, input: UpdateInput, start: int, end: int, exact: bool)
    requires Inv(db, exact) && Validate(db, input, false) == Ok(id)
    requires IsWindow(WithEvent(db, id, input), db.events[id].group, start, end)
    ensures Refs(SetWindow(WithEvent(db, id, input), db.events[id].group, start, end))
    ensures Windows(SetWindow(WithEvent(db, id, input), db.events[id].group, start, end), exact)
  {
    var g := db.events[id].group;
    var db' := SetWindow(WithEvent(db, id, input), g, start, end);
    forall h | h in db'.groups ensures WindowOk(db', h, exact) {
      EditKeepsWindow(db, id, input, start, end, h, exact);
    }
    forall e | e in db'.events ensures db'.events[e].group in db'.groups
      && (db'.events[e].rule.Some? ==> db'.events[e].rule.value in db'.rules) {
      assert e in db.events;
    }
  }

  ghost predicate SameActive(db: Db, db': Db, h: Id) {
    forall e :: (Active(db', e, h) <==> Active(db, e, h)) && (Active(db, e, h) ==> db'.events[e] == db.events[e])
  }

  // ----- Moves

  /** A move touches no group but the target's: their events, and so their windows, stay. */
  lemma MoveLeavesOthers(db: Db, id: Id, input: UpdateInput, db': Db, segs: seq<seq<MinimalEvent>>, h: Id)
    requires Refs(db) && id in db.events && h in db.groups && h != db.events[id].group
    requires MoveEvents(db, id, input, db') && NonEmptyPieces(segs) && MovePieces(db, id, db', segs)
    ensures SameActive(db, db', h)
  {
    forall e ensures (Active(db', e, h) <==> Active(db, e, h)) && (Active(db, e, h) ==> db'.events[e] == db.events[e]) {
      if InPieces(segs, e) {
        var k, i :| 0 <= k < |segs| && 0 <= i < |segs[k]| && segs[k][i].id == e;
        assert db'.events[segs[k][i].id].group == PieceGroup(db', segs, k);
      }
    }
  }

  lemma WindowFromExact(db: Db, h: Id, exact: bool)
    requires h in db.groups && IsWindow(db, h, db.groups[h].start, db.groups[h].end)
    ensures WindowOk(db, h, exact)
  {
  }

  lemma SameActiveOk(db: Db, db': Db, h: Id, exact: bool)
    requires h in db.groups && h in db'.groups && db'.groups[h] == db.groups[h]
    requires WindowOk(db, h, exact) && SameActive(db, db', h)
    ensures WindowOk(db', h, exact)
  {
  }

  lemma MoveKeepsWindow(db: Db, id: Id, input: UpdateInput, db': Db, segs: seq<seq<MinimalEvent>>, h: Id, exact: bool)
    requires Inv(db, exact) && id in db.events && NonEmptyPieces(segs) && h in db'.groups
    requires MoveEvents(db, id, input, db') && MovePieces(db, id, db', segs) && MoveGroups(db, id, db')
    ensures WindowOk(db', h, exact)
  {
    if h in db.groups && h != db.events[id].group {
      assert WindowOk(db, h, exact);
      MoveLeavesOthers(db, id, input, db', segs, h);
      SameActiveOk(db, db', h, exact);
    } else if h !in db.groups || exists e :: Active(db', e, h) {
      WindowFromExact(db', h, exact);
    }
  }

  lemma MoveKeeps(db: Db, id: Id, input: UpdateInput, db': Db, segs: seq<seq<MinimalEvent>>, exact: bool)
    requires Inv(db, exact) && id in db.events && NonEmptyPieces(segs)
    requires MoveEvents(db, id, input, db') && MovePieces(db, id, db', segs) && MoveGroups(db, id, db')
    ensures Windows(db', exact)
  {
    forall h | h in db'.groups ensures WindowOk(db', h, exact) {
      MoveKeepsWindow(db, id, input, db', segs, h, exact);
    }
  }

  /** Wherever a move puts an event, the same people are with it as before. */
  lemma MovePeopleFollow(db: Db, id: Id, input: UpdateInput, db': Db, segs: seq<seq<MinimalEvent>>, e: Id, who: Person)
    requires Refs(db) && id in db.events && e in db.events && NonEmptyPieces(segs)
    requires MoveEvents(db, id, input, db') && MovePieces(db, id, db', segs) && MovePeople(db, id, db')
    requires Refs(db') && db.nextId !in db.groups
    ensures HeadCount(db', db'.events[e].group, who) == HeadCount(db, db.events[e].group, who)
  {
    assert db'.events[e].group in db'.groups;
    if InPieces(segs, e) {
      var k, i :| 0 <= k < |segs| && 0 <= i < |segs[k]| && segs[k][i].id == e;
      assert db'.events[segs[k][i].id].group == PieceGroup(db', segs, k);
    }
  }

  // ----- Any one step

  /**
  Events that survive a step keep their fields' bystanders: whether deleted, their rule, and the people they
  are with.
  */
  ghost predicate Survives(db: Db, db': Db, e: Id) {
    && e in db.events && e in db'.events
    && db'.events[e].deleted == db.events[e].deleted
    && db'.events[e].rule == db.events[e].rule
    && forall who :: HeadCount(db', db'.events[e].group, who) == HeadCount(db, db.events[e].group, who)
  }

  /** The event an update addresses, and only that one, may change its own fields. */
  ghost predicate OthersKeepFields(db: Db, act: Action, db': Db) {
    forall e :: e in db.events && e in db'.events && (act.Delete? || act.input.id != Some(e)) ==>
      db'.events[e] == db.events[e].(group := db'.events[e].group)
  }

  lemma StepKeeps(db: Db, act: Action, db': Db, exact: bool)
    requires Inv(db, exact) && Step(db, act, db') && (act.Delete? ==> !exact)
    ensures Inv(db', exact)
    ensures OthersKeepFields(db, act, db')
    ensures forall e :: e in db'.events ==> Survives(db, db', e)
    ensures forall e :: e in db.events && e !in db'.events <==> e in db.events && act.Delete? && e in act.idList
  {
    match act
    case Edit(input) =>
      EditStepKeeps(db, input, db', exact);
    case MoveEvent(input) =>
      MoveStepInv(db, input, db', exact);
      MoveStepSurvives(db, input, db');
    case Delete(ids) =>
      DeleteExact(db, ids);
      DeleteKeepsRefs(db, ids);
      forall e | e in db'.events ensures Survives(db, db', e) {
        forall who ensures HeadCount(db', db'.events[e].group, who) == HeadCount(db, db.events[e].group, who) {
          DeleteKeepsPeople(db, ids, db.events[e].group, who);
        }
      }
  }

  lemma EditSurvives(db: Db, id: Id, input: UpdateInput, start: int, end: int)
    requires Refs(db) && Validate(db, input, false) == Ok(id)
    ensures var db' := SetWindow(WithEvent(db, id, input), db.events[id].group, start, end);
            && OthersKeepFields(db, Edit(input), db')
            && db'.events.Keys == db.events.Keys
            && forall e :: e in db'.events ==> Survives(db, db', e)
  {
    var db' := SetWindow(WithEvent(db, id, input), db.events[id].group, start, end);
    forall h, who ensures HeadCount(db', h, who) == HeadCount(db, h, who) {
      SameRows(db, db', h, who);
    }
  }

  lemma EditStepKeeps(db: Db, input: UpdateInput, db': Db, exact: bool)
    requires Inv(db, exact) && EditStep(db, input, db')
    ensures Inv(db', exact)
    ensures OthersKeepFields(db, Edit(input), db')
    ensures db'.events.Keys == db.events.Keys
    ensures forall e :: e in db'.events ==> Survives(db, db', e)
  {
    var v := Validate(db, input, false);
    if v.Ok? {
      var start, end :| IsWindow(WithEvent(db, v.value, input), db.events[v.value].group, start, end)
        && db' == SetWindow(WithEvent(db, v.value, input), db.events[v.value].group, start, end);
      EditKeeps(db, v.value, input, start, end, exact);
      EditSurvives(db, v.value, input, start, end);
    }
  }

  lemma MovedByKeeps(db: Db, id: Id, input: UpdateInput, db': Db, remaining: seq<MinimalEvent>, exact: bool)
    requires Inv(db, exact) && Moves()(db, id, input, db', remaining)
    ensures Refs(db') && Windows(db', exact)
  {
    assert MovedBy(db, id, input, db', remaining);
    MoveKeeps(db, id, input, db', Segments(remaining), exact);
  }

  lemma MoveStepInv(db: Db, input: UpdateInput, db': Db, exact: bool)
    requires Inv(db, exact) && MoveStep(db, input, db')
    ensures Inv(db', exact)
  {
    var v := Validate(db, input, true);
    if v.Ok? {
      var remaining :| Moves()(db, v.value, input, db', remaining);
      MovedByKeeps(db, v.value, input, db', remaining, exact);
    }
  }

  lemma MoveStepSurvives(db: Db, input: UpdateInput, db': Db)
    requires Refs(db) && MoveStep(db, input, db')
    ensures OthersKeepFields(db, MoveEvent(input), db')
    ensures db'.events.Keys == db.events.Keys
    ensures forall e :: e in db'.events ==> Survives(db, db', e)
  {
    var v := Validate(db, input, true);
    if v.Ok? {
      var remaining :| Moves()(db, v.value, input, db', remaining);
      MovedBySurvives(db, v.value, input, db', remaining);
    }
  }

  lemma MovedBySurvives(db: Db, id: Id, input: UpdateInput, db': Db, remaining: seq<MinimalEvent>)
    requires Refs(db) && Moves()(db, id, input, db', remaining)
    ensures OthersKeepFields(db, MoveEvent(input), db')
    ensures db'.events.Keys == db.events.Keys
    ensures forall e :: e in db'.events ==> Survives(db, db', e)
  {
    assert MovedBy(db, id, input, db', remaining);
    MoveOutcomeSurvives(db, id, input, db', Segments(remaining));
  }

  lemma MoveOutcomeSurvives(db: Db, id: Id, input: UpdateInput, db': Db, segs: seq<seq<MinimalEvent>>)
    requires Refs(db) && Refs(db') && input.id == Some(id) && id in db.events && NonEmptyPieces(segs)
    requires MoveEvents(db, id, input, db') && MovePieces(db, id, db', segs) && MovePeople(db, id, db')
    ensures OthersKeepFields(db, MoveEvent(input), db')
    ensures db'.events.Keys == db.events.Keys
    ensures forall e :: e in db'.events ==> Survives(db, db', e)
  {
    forall e | e in db'.events ensures Survives(db, db', e) {
    }
  }

  // ----- Whole runs

  ghost function StepRelation(): (Db, Action, Db) -> bool {
    (db, act, db') => Step(db, act, db')
  }

  lemma RunKeepsInv(dbs: seq<Db>, acts: seq<Action>, exact: bool)
    requires IsRun(StepRelation(), dbs, acts) && Inv(dbs[0], exact)
    requires exact ==> forall i :: 0 <= i < |acts| ==> !acts[i].Delete?
    ensures forall i :: 0 <= i < |dbs| ==> Inv(dbs[i], exact)
  {
    var inv := (db: Db) => Inv(db, exact);
    forall i | 0 <= i < |acts| && inv(dbs[i]) && StepRelation()(dbs[i], acts[i], dbs[i + 1]) ensures inv(dbs[i + 1]) {
      StepKeeps(dbs[i], acts[i], dbs[i + 1], exact);
    }
    RunInvariant(StepRelation(), inv, dbs, acts);
    forall i | 0 <= i < |dbs| ensures Inv(dbs[i], exact) {
      assert inv(dbs[i]);
    }
  }

  /** What the later state still has of the earlier one survives, and it has nothing new. */
  ghost predicate Kept(db: Db, db': Db) {
    forall e :: e in db'.events ==> Survives(db, db', e)
  }

  lemma RunKeepsEvents(dbs: seq<Db>, acts: seq<Action>)
    requires IsRun(StepRelation(), dbs, acts)
    requires forall i :: 0 <= i < |dbs| ==> Inv(dbs[i], false)
    ensures forall i, j :: 0 <= i <= j < |dbs| ==> Kept(dbs[i], dbs[j])
  {
    var rel := (a: Db, b: Db) => Kept(a, b);
    forall a, b, c | rel(a, b) && rel(b, c) ensures rel(a, c) {
    }
    forall k | 0 <= k < |acts| && StepRelation()(dbs[k], acts[k], dbs[k + 1]) ensures rel(dbs[k], dbs[k + 1]) {
      StepKeeps(dbs[k], acts[k], dbs[k + 1], false);
    }
    forall i, j | 0 <= i <= j < |dbs| ensures Kept(dbs[i], dbs[j]) {
      RunRelation(StepRelation(), rel, dbs, acts, i, j);
      assert rel(dbs[i], dbs[j]);
    }
  }

  ghost predicate NamedByDeletion(acts: seq<Action>, e: Id) {
    exists i :: 0 <= i < |acts| && acts[i].Delete? && e in acts[i].idList
  }

  lemma {:induction false} LostByDeletion(keys: seq<set<Id>>, acts: seq<Action>, e: Id)
    requires |keys| == |acts| + 1
    requires forall i :: 0 <= i < |acts| ==> keys[i + 1] == keys[i] - (if acts[i].Delete? then acts[i].idList else {})
    ensures e in keys[|acts|] <==> e in keys[0] && !NamedByDeletion(acts, e)
    decreases |acts|
  {
    if acts != [] {
      var n := |acts| - 1;
      LostByDeletion(keys[..|acts|], acts[..n], e);
      if NamedByDeletion(acts[..n], e) {
        var i :| 0 <= i < n && acts[..n][i].Delete? && e in acts[..n][i].idList;
        assert acts[i].Delete? && e in acts[i].idList;
      }
      if NamedByDeletion(acts, e) {
        var i :| 0 <= i < |acts| && acts[i].Delete? && e in acts[i].idList;
        if i < n {
          assert acts[..n][i].Delete? && e in acts[..n][i].idList;
        }
      }
    }
  }

  lemma RunLosesOnlyDeleted(dbs: seq<Db>, acts: seq<Action>)
    requires IsRun(StepRelation(), dbs, acts)
    requires forall i :: 0 <= i < |dbs| ==> Inv(dbs[i], false)
    ensures forall e :: e in dbs[|acts|].events <==> e in dbs[0].events && !NamedByDeletion(acts, e)
  {
    var keys := seq(|dbs|, i requires 0 <= i < |dbs| => dbs[i].events.Keys);
    forall i | 0 <= i < |acts| ensures keys[i + 1] == keys[i] - (if acts[i].Delete? then acts[i].idList else {}) {
      assert StepRelation()(dbs[i], acts[i], dbs[i + 1]);
      StepKeeps(dbs[i], acts[i], dbs[i + 1], false);
      KeysAfter(dbs[i], acts[i], dbs[i + 1]);
    }
    forall e ensures e in dbs[|acts|].events <==> e in dbs[0].events && !NamedByDeletion(acts, e) {
      LostByDeletion(keys, acts, e);
    }
  }

  lemma KeysAfter(db: Db, act: Action, db': Db)
    requires forall e :: e in db'.events ==> Survives(db, db', e)
    requires forall e :: e in db.events && e !in db'.events <==> e in db.events && act.Delete? && e in act.idList
    ensures db'.events.Keys == db.events.Keys - (if act.Delete? then act.idList else {})
  {
    assert forall e :: e in db'.events ==> e in db.events;
  }

  /**
  Any run of edits, moves and deletions, failing ones included: no reference ever dangles and every
  window covers its active events. An event is lost iff some deletion names it; every other event
  keeps its deletion mark, its rule and, person by person, the people it is with, however often its
  booking was split.
  */
  lemma RunSafe(dbs: seq<Db>, acts: seq<Action>)
    requires IsRun(StepRelation(), dbs, acts) && Inv(dbs[0], false)
    ensures forall i :: 0 <= i < |dbs| ==> Inv(dbs[i], false)
    ensures forall i, j :: 0 <= i <= j < |dbs| ==> Kept(dbs[i], dbs[j])
    ensures forall e :: e in dbs[|acts|].events <==> e in dbs[0].events && !NamedByDeletion(acts, e)
  {
    RunKeepsInv(dbs, acts, false);
    RunKeepsEvents(dbs, acts);
    RunLosesOnlyDeleted(dbs, acts);
  }

  /** Runs of updates alone also keep every window exact: the least start and largest end of its active events. */
  lemma UpdateRunExact(dbs: seq<Db>, acts: seq<Action>)
    requires IsRun(StepRelation(), dbs, acts) && Inv(dbs[0], true)
    requires forall i :: 0 <= i < |acts| ==> !acts[i].Delete?
    ensures forall i :: 0 <= i < |dbs| ==> Inv(dbs[i], true)
    ensures forall e :: e in dbs[|acts|].events <==> e in dbs[0].events
  {
    RunKeepsInv(dbs, acts, true);
    RunKeepsInv(dbs, acts, false);
    RunLosesOnlyDeleted(dbs, acts);
  }

  // ----- Exact windows under deletions

  ghost predicate Remains(db: Db, ids: set<Id>, e: Id, g: Id) {
    e !in ids && Active(db, e, g)
  }

  /** If the group keeps an active event, some that stays still starts with the window and some still ends with it. */
  ghost predicate EndsHeld(db: Db, ids: set<Id>, g: Id)
    requires g in db.groups
  {
    (exists e :: Remains(db, ids, e, g)) ==>
      && (exists e :: Remains(db, ids, e, g) && db.events[e].start == db.groups[g].start)
      && (exists e :: Remains(db, ids, e, g) && db.events[e].end == db.groups[g].end)
  }

  ghost predicate EndsRemain(db: Db, ids: set<Id>) {
    forall g :: g in db.groups ==> EndsHeld(db, ids, g)
  }

  lemma DeletedWindowExact(db: Db, ids: set<Id>, g: Id)
    requires Refs(db) && g in db.groups && g in DeleteEvents(db, ids).groups && WindowOk(db, g, true)
    ensures WindowOk(DeleteEvents(db, ids), g, true) <==> EndsHeld(db, ids, g)
  {
    var db' := DeleteEvents(db, ids);
    forall e ensures (Active(db', e, g) <==> Remains(db, ids, e, g))
        && (Active(db', e, g) ==> e in db.events && db'.events[e] == db.events[e]) {
    }
  }

  /** Groups that keep an active event are not collected. */
  lemma CollectedHolds(db: Db, ids: set<Id>, g: Id)
    requires Refs(db) && g in db.groups && g !in DeleteEvents(db, ids).groups
    ensures EndsHeld(db, ids, g)
  {
    DeleteExact(db, ids);
    forall e ensures !Remains(db, ids, e, g) {
    }
  }

  /** A deletion keeps exact windows exactly if the ends of every window that is still used remain. */
  lemma DeleteWindowsExact(db: Db, ids: set<Id>)
    requires Inv(db, true)
    ensures Inv(DeleteEvents(db, ids), true) <==> EndsRemain(db, ids)
  {
    DeleteKeepsRefs(db, ids);
    forall g | g in DeleteEvents(db, ids).groups
      ensures g in db.groups && (WindowOk(DeleteEvents(db, ids), g, true) <==> EndsHeld(db, ids, g)) {
      assert WindowOk(db, g, true);
      DeletedWindowExact(db, ids, g);
    }
    forall g | g in db.groups && g !in DeleteEvents(db, ids).groups ensures EndsHeld(db, ids, g) {
      CollectedHolds(db, ids, g);
    }
  }

  /**
  Over any run of edits, moves and deletions the windows of groups with active events are exact all along
  exactly if every deletion leaves their ends.
  */
  lemma RunWindowsExact(dbs: seq<Db>, acts: seq<Action>)
    requires IsRun(StepRelation(), dbs, acts) && Inv(dbs[0], true)
    ensures (forall i :: 0 <= i < |dbs| ==> Inv(dbs[i], true)) <==>
            (forall i :: 0 <= i < |acts| ==> (acts[i].Delete? ==> EndsRemain(dbs[i], acts[i].idList)))
  {
    var inv, cond := (db: Db) => Inv(db, true), (db: Db, act: Action) => act.Delete? ==> EndsRemain(db, act.idList);
    forall i | 0 <= i < |acts| && inv(dbs[i]) ensures inv(dbs[i + 1]) <==> cond(dbs[i], acts[i]) {
      assert StepRelation()(dbs[i], acts[i], dbs[i + 1]);
      if acts[i].Delete? {
        DeleteWindowsExact(dbs[i], acts[i].idList);
      } else {
        StepKeeps(dbs[i], acts[i], dbs[i + 1], true);
      }
    }
    RunExact(StepRelation(), inv, cond, dbs, acts);
    assert forall i :: 0 <= i < |dbs| ==> inv(dbs[i]) == Inv(dbs[i], true);
    assert forall i :: 0 <= i < |acts| ==>
        cond(dbs[i], acts[i]) == (acts[i].Delete? ==> EndsRemain(dbs[i], acts[i].idList));
  }
}
