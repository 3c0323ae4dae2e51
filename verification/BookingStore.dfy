/** The transactions themselves, as they change the tables one after another. */
module BookingStore {
  import opened Wrappers
  import opened Sorting
  import opened TimeSegments
  import opened BookingModel
  import opened BookingProofs
  import opened BookingRuns

  /**
  What an update answers. The last three fields are false, true and none for an edit in place, which does
  not report them.
  */
  datatype UpdateReport = UpdateReport(
    movedToNewGroup: bool, oldGroupId: Id, newGroupId: Option<Id>, oldGroupServicesCount: nat,
    oldGroupWasSplit: bool, affectedGroupIds: set<Id>,
    movedWasLastInOriginalGroup: bool, oldGroupHasActiveEvents: bool, splitGroupIds: seq<Id>)

  ghost function ActiveIds(db: Db, g: Id): set<Id> {
    set e | e in db.events && Active(db, e, g)
  }

  lemma {:induction false} IdsSize(s: seq<MinimalEvent>)
    requires DistinctIds(s)
    ensures |Ids(s)| == |s|
  {
    if s == [] {
      assert Ids(s) == {};
    } else {
      var n := |s| - 1;
      IdsSize(s[..n]);
      assert s == s[..n] + [s[n]];
      IdsPush(s[..n], s[n]);
      assert s[n].id !in Ids(s[..n]);
    }
  }

  /** A listing of the active events has as many entries as there are, and the last one starts last. */
  lemma ListingFacts(db: Db, g: Id, list: seq<MinimalEvent>)
    requires IsActiveListing(db, g, list)
    ensures |list| == |ActiveIds(db, g)|
    ensures list != [] ==> var last := list[|list| - 1].id;
              last in ActiveIds(db, g) && forall e :: Active(db, e, g) ==> db.events[e].start <= db.events[last].start
  {
    IdsSize(list);
    assert Ids(list) == ActiveIds(db, g) by {
      forall e | e in Ids(list) ensures e in ActiveIds(db, g) {
        var i :| 0 <= i < |list| && list[i].id == e;
      }
    }
    forall e | list != [] && Active(db, e, g) ensures db.events[e].start <= db.events[list[|list| - 1].id].start {
      var i :| 0 <= i < |list| && list[i].id == e;
      assert list[i].start <= list[|list| - 1].start;
    }
  }

  /**
  `wasLast` says that `id` is the last active event of its group by start; among equal starts either answer
  may be given.
  */
  ghost predicate SaysLast(db: Db, id: Id, wasLast: bool)
    requires id in db.events
  {
    var g := db.events[id].group;
    && (wasLast ==> forall e :: Active(db, e, g) ==> db.events[e].start <= db.events[id].start)
    && (!wasLast ==> exists e :: e != id && Active(db, e, g) && db.events[e].start >= db.events[id].start)
  }

  lemma IdsPush(s: seq<MinimalEvent>, x: MinimalEvent)
    ensures Ids(s + [x]) == Ids(s) + {x.id}
  {
    assert forall i :: 0 <= i < |s| ==> (s + [x])[i] == s[i];
    assert (s + [x])[|s|] == x;
  }

  lemma ListingSorted(db: Db, g: Id, found: seq<MinimalEvent>)
    requires DistinctIds(found) && Describes(db, g, found)
    requires forall e :: Active(db, e, g) ==> e in Ids(found)
    ensures IsActiveListing(db, g, SortBy(found, EventStart()))
  {
    var list := SortBy(found, EventStart());
    StartOrder(found);
    SortDistinct(found);
    SortByMembers(found, EventStart());
    forall i | 0 <= i < |list| ensures Active(db, list[i].id, g)
      && list[i].start == db.events[list[i].id].start && list[i].end == db.events[list[i].id].end {
      assert list[i] in found;
    }
    forall e | Active(db, e, g) ensures e in Ids(list) {
      var i :| 0 <= i < |found| && found[i].id == e;
      assert found[i] in list;
    }
  }

  /** A window that is already exact is not changed by setting it again. */
  lemma SyncChangesNothing(db: Db, g: Id, start: int, end: int)
    requires g in db.groups && IsWindow(db, g, start, end)
    requires IsWindow(db, g, db.groups[g].start, db.groups[g].end)
    ensures SetWindow(db, g, start, end) == db
  {
    assert db.groups[g := db.groups[g]] == db.groups;
  }

  lemma MovedWindowExact(
      db: Db, id: Id, input: UpdateInput, rows: seq<Id>, people: seq<Person>, remaining: seq<MinimalEvent>)
    requires Refs(db) && Validate(db, input, true) == Ok(id)
    requires IsLiveListing(db, db.events[id].group, rows, people)
    requires IsActiveListing(MoveOut(db, id, input, people), db.events[id].group, remaining)
    ensures var moved := BookingModel.Move(db, id, input, people, remaining);
            var g := db.events[id].group;
            g in moved.groups && ((exists e :: Active(moved, e, g)) ==>
                IsWindow(moved, g, moved.groups[g].start, moved.groups[g].end))
  {
    MoveCorrect(db, id, input, rows, people, remaining);
  }

  lemma SplitSet(before: set<Id>, after: set<Id>, moved: Id, split: seq<Id>)
    requires after == before + {moved} + (set s | s in split) && moved !in before
    requires forall i :: 0 <= i < |split| ==> split[i] !in before && split[i] != moved
    ensures (set s | s in split) == after - before - {moved}
    ensures {moved} + (set s | s in split) == after - before
    ensures |split| > 0 <==> exists h :: h in after && h !in before && h != moved
  {
    assert |split| > 0 ==> split[0] in after;
  }

  lemma DivideStep(db: Db, details: GroupDetails, people: seq<Person>, segs: seq<seq<MinimalEvent>>, i: nat)
    requires NonEmptyPieces(segs) && i < |segs|
    ensures NonEmptyPieces(segs[i..]) && NonEmptyPieces(segs[i + 1..])
    ensures AddSegments(db, details, people, segs[i..])
         == AddSegments(AddSegment(db, details, people, segs[i]), details, people, segs[i + 1..])
  {
    assert segs[i..][0] == segs[i] && segs[i..][1..] == segs[i + 1..];
  }

  class Store {
    var events: map<Id, Event>
    var groups: map<Id, Group>
    var participants: map<Id, Participant>
    var rules: set<Id>
    var nextId: Id

    ghost function State(): Db
      reads this
    {
      Db(events, groups, participants, rules, nextId)
    }

    /** Active events of a group, ordered by start. The order of equal starts is not determined. */
    method ListActive(g: Id) returns (list: seq<MinimalEvent>)
      ensures IsActiveListing(State(), g, list)
    {
      var todo: set<Id> := set e | e in events && events[e].group == g && !events[e].deleted;
      var found: seq<MinimalEvent> := [];
      while todo != {}
        invariant DistinctIds(found)
        invariant forall e :: e in todo ==> Active(State(), e, g) && e !in Ids(found)
        invariant forall e :: Active(State(), e, g) ==> e in todo || e in Ids(found)
        invariant Describes(State(), g, found)
        decreases |todo|
      {
        var e: Id :| e in todo;
        ghost var before := found;
        found := found + [MinimalEvent(e, events[e].start, events[e].end)];
        assert forall x :: x in Ids(found) <==> x in Ids(before) || x == e by { IdsPush(before, found[|before|]); }
        todo := todo - {e};
      }
      list := SortBy(found, EventStart());
      StartOrder(found);
      SortDistinct(found);
      ListingSorted(State(), g, found);
    }

    /** What the live participants of a group say, in no determined order. */
    method ListLive(g: Id) returns (people: seq<Person>, ghost rows: seq<Id>)
      ensures IsLiveListing(State(), g, rows, people)
    {
      var todo: set<Id> := set p | p in participants && participants[p].group == g && !participants[p].deleted;
      people, rows := [], [];
      while todo != {}
        invariant |rows| == |people|
        invariant forall i, j :: 0 <= i < j < |rows| ==> rows[i] != rows[j]
        invariant forall p :: p in todo ==> Live(State(), p, g) && p !in rows
        invariant forall p :: Live(State(), p, g) ==> p in todo || p in rows
        invariant forall i :: 0 <= i < |rows| ==> Live(State(), rows[i], g) && participants[rows[i]].person == people[i]
        decreases |todo|
      {
        var p: Id :| p in todo;
        people, rows := people + [participants[p].person], rows + [p];
        todo := todo - {p};
      }
    }

    method CloneGroupWithParticipants(details: GroupDetails, people: seq<Person>, start: int, end: int) returns (g: Id)
      modifies this
      ensures g == old(nextId)
      ensures State() == Clone(old(State()), details, people, start, end)
    {
      g := nextId;
      groups := groups[g := Group(start, end, CloneDetails(details))];
      CopyParticipants(g, people);
      nextId := g + 1 + |people|;
    }

    method CopyParticipants(g: Id, people: seq<Person>)
      modifies this`participants
      ensures participants == old(participants) + NewRows(g, people)
    {
      assert old(participants) + NewRows(g, people[..0]) == old(participants);
      for i := 0 to |people|
        invariant participants == old(participants) + NewRows(g, people[..i])
      {
        assert people[..i + 1][..i] == people[..i];
        participants := participants[g + 1 + i := Participant(g, people[i], false)];
      }
      assert people[..|people|] == people;
    }

    /**
    Sets the window to the least start and largest end of the active events; false, and no change, if there
    are none.
    */
    method SyncGroupWindow(g: Id) returns (hasActive: bool)
      requires g in groups
      modifies this
      ensures hasActive <==> exists e :: Active(old(State()), e, g)
      ensures !hasActive ==> State() == old(State())
      ensures hasActive ==> exists start, end ::
                IsWindow(old(State()), g, start, end) && State() == SetWindow(old(State()), g, start, end)
      ensures forall e :: e in events && events[e].group == g && !events[e].deleted ==>
                hasActive && groups[g].start <= events[e].start && events[e].end <= groups[g].end
      ensures hasActive ==> exists e, f ::
                && e in events && events[e].group == g && !events[e].deleted && events[e].start == groups[g].start
                && f in events && events[f].group == g && !events[f].deleted && events[f].end == groups[g].end
    {
      var activeEvents := ListActive(g);
      if |activeEvents| == 0 {
        assert forall e :: e !in Ids(activeEvents);
        assert forall e :: e in events ==> !Active(State(), e, g);
        return false;
      }
      var startDate, endDate := GetSegmentBounds(activeEvents);
      PieceWindow(State(), g, activeEvents);
      assert Active(State(), activeEvents[0].id, g);
      groups := groups[g := groups[g].(start := startDate, end := endDate)];
      return true;
    }

    method MoveToGroup(ids: set<Id>, g: Id)
      modifies this`events
      ensures events == Regroup(old(events), ids, g)
    {
      events := map e | e in events :: if e in ids then events[e].(group := g) else events[e];
    }

    /** One transaction: all of it happens, or, with an error, nothing. */
    method UpdateEventById(input: UpdateInput, isMany: bool)
      returns (res: Result<UpdateReport, UpdateError>, ghost remaining: seq<MinimalEvent>)
      requires Refs(State())
      modifies this
      ensures match Validate(old(State()), input, isMany)
              case Err(e) => res == Err(e) && State() == old(State())
              case Ok(id) =>
                && (!isMany ==> EditStep(old(State()), input, State()))
                && (isMany ==> ListsRemaining(old(State()), id, remaining))
                && (isMany ==> MoveEvents(old(State()), id, input, State()))
                && (isMany ==> MovePieces(old(State()), id, State(), Segments(remaining)))
                && (isMany ==> MoveGroups(old(State()), id, State()))
                && (isMany ==> MovePeople(old(State()), id, State()))
      ensures Step(old(State()), if isMany then Action.MoveEvent(input) else Action.Edit(input), State())
      ensures res.Ok? ==>
                && input.id.Some? && input.id.value in events && input.id.value in old(events)
                && WritesGiven(old(events[input.id.value]), input, events[input.id.value])
      ensures match Validate(old(State()), input, isMany)
              case Err(e) => true
              case Ok(id) =>
                && res.Ok? && res.value.movedToNewGroup == isMany
                && res.value.oldGroupId == old(events[id].group)
                && res.value.affectedGroupIds == {old(events[id].group)} + (groups.Keys - old(groups.Keys))
                && (res.value.oldGroupHasActiveEvents <==> exists e :: Active(State(), e, old(events[id].group)))
                && res.value.oldGroupServicesCount == |ActiveIds(old(State()), old(events[id].group))|
                && (isMany ==> SaysLast(old(State()), id, res.value.movedWasLastInOriginalGroup))
                && (isMany ==> res.value.newGroupId == Some(events[id].group))
                && (!isMany ==> res.value.newGroupId == None && res.value.splitGroupIds == [])
                && (set s | s in res.value.splitGroupIds) ==
                     groups.Keys - old(groups.Keys) - {events[id].group}
                && (res.value.oldGroupWasSplit <==>
                     exists h :: h in groups && h !in old(groups) && res.value.newGroupId != Some(h))
    {
      remaining := [];
      if input.id == None { return Err(IdRequired), []; }
      if isMany && (input.start == None || input.end == None) { return Err(DatesRequired), []; }
      if input.start == Some(Invalid) { return Err(InvalidStart), []; }
      if input.end == Some(Invalid) { return Err(InvalidEnd), []; }
      var id := input.id.value;
      if id !in events || events[id].deleted { return Err(EventNotFound), []; }
      if events[id].group !in groups { return Err(BookingNotFound), []; }
      if isMany && input.start.value.ms >= input.end.value.ms { return Err(StartNotBeforeEnd), []; }
      var count, wasLast := CountServices(id);
      if isMany {
        res, remaining := MoveEvent(id, input, count, wasLast);
        MoveOutcomeMoves(old(State()), id, input, State(), remaining);
      } else {
        res := EditEvent(id, input, count);
      }
      UpdateWritesGiven(old(State()), input, isMany, State());
    }

    /** How many active events the group of the event has, and whether this one comes last by start. */
    method CountServices(id: Id) returns (count: nat, wasLast: bool)
      requires id in events && !events[id].deleted
      ensures count == |ActiveIds(State(), events[id].group)|
      ensures SaysLast(State(), id, wasLast)
    {
      var list := ListActive(events[id].group);
      ListingFacts(State(), events[id].group, list);
      assert Active(State(), id, events[id].group);
      return |list|, |list| > 0 && list[|list| - 1].id == id;
    }

    method EditEvent(id: Id, input: UpdateInput, count: nat) returns (res: Result<UpdateReport, UpdateError>)
      requires Validate(State(), input, false) == Ok(id)
      modifies this
      ensures EditStep(old(State()), input, State())
      ensures groups.Keys == old(groups.Keys) && Active(State(), id, old(events[id].group))
      ensures var group := old(events[id].group);
              res == Ok(UpdateReport(false, group, None, count, false, {group}, false, true, []))
    {
      var originalGroup := events[id].group;
      events := events[id := Apply(events[id], input)];
      assert State() == WithEvent(old(State()), id, input);
      assert Active(State(), id, originalGroup);
      var has := SyncGroupWindow(originalGroup);
      res := Ok(UpdateReport(false, originalGroup, None, count, false, {originalGroup}, false, true, []));
    }

    /**
    Moves the event to a booking of its own, divides what is left, and syncs the old window, which by then
    is right already.
    */
    method MoveEvent(id: Id, input: UpdateInput, count: nat, wasLast: bool)
      returns (res: Result<UpdateReport, UpdateError>, ghost remaining: seq<MinimalEvent>)
      requires Refs(State()) && Validate(State(), input, true) == Ok(id)
      modifies this
      ensures ListsRemaining(old(State()), id, remaining)
      ensures MoveEvents(old(State()), id, input, State())
      ensures MovePieces(old(State()), id, State(), Segments(remaining))
      ensures MoveGroups(old(State()), id, State())
      ensures MovePeople(old(State()), id, State())
      ensures res.Ok? && res.value.movedToNewGroup && res.value.oldGroupId == old(events[id].group)
      ensures res.value.oldGroupServicesCount == count && res.value.movedWasLastInOriginalGroup == wasLast
      ensures res.value.oldGroupWasSplit <==>
              exists h :: h in groups && h !in old(groups) && res.value.newGroupId != Some(h)
      ensures res.value.affectedGroupIds == {old(events[id].group)} + (groups.Keys - old(groups.Keys))
      ensures res.value.newGroupId == Some(events[id].group)
      ensures (set s | s in res.value.splitGroupIds) == groups.Keys - old(groups.Keys) - {events[id].group}
      ensures res.value.oldGroupHasActiveEvents <==> exists e :: Active(State(), e, old(events[id].group))
    {
      ghost var people, rows;
      res, people, rows, remaining := MoveAndSync(id, input, count, wasLast);
      MoveCorrect(old(State()), id, input, rows, people, remaining);
    }

    method MoveAndSync(id: Id, input: UpdateInput, count: nat, wasLast: bool)
      returns (res: Result<UpdateReport, UpdateError>, ghost people: seq<Person>, ghost rows: seq<Id>,
          ghost remaining: seq<MinimalEvent>)
      requires Refs(State()) && Validate(State(), input, true) == Ok(id)
      modifies this
      ensures IsLiveListing(old(State()), old(events[id].group), rows, people)
      ensures IsActiveListing(MoveOut(old(State()), id, input, people), old(events[id].group), remaining)
      ensures State() == BookingModel.Move(old(State()), id, input, people, remaining)
      ensures res.Ok? && res.value.movedToNewGroup && res.value.oldGroupId == old(events[id].group)
      ensures res.value.oldGroupServicesCount == count && res.value.movedWasLastInOriginalGroup == wasLast
      ensures res.value.oldGroupWasSplit <==>
              exists h :: h in groups && h !in old(groups) && res.value.newGroupId != Some(h)
      ensures res.value.affectedGroupIds == {old(events[id].group)} + (groups.Keys - old(groups.Keys))
      ensures res.value.newGroupId == Some(old(nextId))
      ensures (set s | s in res.value.splitGroupIds) == groups.Keys - old(groups.Keys) - {old(nextId)}
      ensures res.value.oldGroupHasActiveEvents <==> exists e :: Active(State(), e, old(events[id].group))
    {
      var originalGroup := events[id].group;
      var movedGroup, split;
      movedGroup, split, people, rows, remaining := MoveRows(id, input);
      MovedWindowExact(old(State()), id, input, rows, people, remaining);
      var has := SyncAgain(originalGroup);
      res := Ok(UpdateReport(true, originalGroup, Some(movedGroup), count, |split| > 0,
                             {originalGroup, movedGroup} + (set s | s in split), wasLast, has, split));
      SplitSet(old(groups.Keys), groups.Keys, movedGroup, split);
    }

    /** Syncing a window that is right already. */
    method SyncAgain(g: Id) returns (hasActive: bool)
      requires g in groups
      requires (exists e :: Active(State(), e, g)) ==> IsWindow(State(), g, groups[g].start, groups[g].end)
      modifies this
      ensures State() == old(State()) && (hasActive <==> exists e :: Active(State(), e, g))
    {
      ghost var before := State();
      hasActive := SyncGroupWindow(g);
      if hasActive {
        ghost var start, end :| IsWindow(before, g, start, end) && State() == SetWindow(before, g, start, end);
        SyncChangesNothing(before, g, start, end);
      }
    }

    method MoveRows(id: Id, input: UpdateInput)
      returns (movedGroup: Id, split: seq<Id>, ghost people: seq<Person>, ghost rows: seq<Id>,
          ghost remaining: seq<MinimalEvent>)
      requires Refs(State()) && Validate(State(), input, true) == Ok(id)
      modifies this
      ensures IsLiveListing(old(State()), old(events[id].group), rows, people)
      ensures IsActiveListing(MoveOut(old(State()), id, input, people), old(events[id].group), remaining)
      ensures State() == BookingModel.Move(old(State()), id, input, people, remaining)
      ensures old(events[id].group) in groups
      ensures groups.Keys == old(groups.Keys) + {movedGroup} + (set s | s in split)
      ensures movedGroup == old(nextId)
      ensures movedGroup !in old(groups) && forall i :: 0 <= i < |split| ==>
              split[i] !in old(groups) && split[i] != movedGroup
    {
      var target := events[id];
      var originalGroup := target.group;
      var details := groups[originalGroup].details;
      var present, left;
      present, rows := ListLive(originalGroup);
      movedGroup := CloneGroupWithParticipants(details, present, input.start.value.ms, input.end.value.ms);
      events := events[id := Apply(target, input).(group := movedGroup)];
      assert State() == MoveOut(old(State()), id, input, present);
      left := ListActive(originalGroup);
      split := Divide(originalGroup, details, present, left, id, input, old(State()));
      people, remaining := present, left;
    }

    /** A clone for one piece, with the events of the piece moved into it. */
    method AddPiece(details: GroupDetails, people: seq<Person>, segment: seq<MinimalEvent>) returns (splitGroup: Id)
      requires segment != []
      modifies this
      ensures State() == AddSegment(old(State()), details, people, segment)
      ensures splitGroup == old(nextId) && groups.Keys == old(groups.Keys) + {splitGroup}
      ensures nextId > old(nextId)
    {
      var startDate, endDate := GetSegmentBounds(segment);
      splitGroup := CloneGroupWithParticipants(details, people, startDate, endDate);
      MoveToGroup(Ids(segment), splitGroup);
    }

    /** Gives the old group the window of the first piece and every further piece a clone of its own. */
    method Divide(originalGroup: Id, details: GroupDetails, people: seq<Person>, remaining: seq<MinimalEvent>,
                  ghost id: Id, ghost input: UpdateInput, ghost before: Db) returns (split: seq<Id>)
      requires Refs(before) && Validate(before, input, true) == Ok(id)
      requires State() == MoveOut(before, id, input, people)
      requires originalGroup == before.events[id].group && details == before.groups[originalGroup].details
      requires StartsAscend(remaining)
      modifies this
      ensures State() == BookingModel.Move(before, id, input, people, remaining)
      ensures groups.Keys == old(groups.Keys) + (set s | s in split)
      ensures forall i :: 0 <= i < |split| ==> split[i] >= old(nextId)
    {
      AlreadySorted(remaining);
      var segments := SplitByTimeContinuity(remaining);
      split := [];
      if |segments| > 0 {
        var startDate, endDate := GetSegmentBounds(segments[0]);
        groups := groups[originalGroup := groups[originalGroup].(start := startDate, end := endDate)];
        split := AddPieces(details, people, segments[1..]);
      }
    }

    method AddPieces(
        details: GroupDetails, people: seq<Person>, segments: seq<seq<MinimalEvent>>) returns (split: seq<Id>)
      requires NonEmptyPieces(segments)
      modifies this
      ensures State() == AddSegments(old(State()), details, people, segments)
      ensures groups.Keys == old(groups.Keys) + (set s | s in split)
      ensures forall i :: 0 <= i < |split| ==> split[i] >= old(nextId)
    {
      split := [];
      assert segments[0..] == segments;
      for index := 0 to |segments|
        invariant NonEmptyPieces(segments[index..])
        invariant AddSegments(State(), details, people, segments[index..]) ==
                  AddSegments(old(State()), details, people, segments)
        invariant groups.Keys == old(groups.Keys) + (set s | s in split)
        invariant nextId >= old(nextId) && forall i :: 0 <= i < |split| ==> split[i] >= old(nextId)
      {
        DivideStep(State(), details, people, segments, index);
        var splitGroup := AddPiece(details, people, segments[index]);
        split := split + [splitGroup];
      }
      assert segments[|segments|..] == [];
    }

    /**
    Deletes the events, then the groups this empties with their participants, then the rules nothing uses
    any more.
    */
    method DeleteEvent(idList: set<Id>)
      modifies this
      ensures State() == DeleteEvents(old(State()), idList)
      ensures Step(old(State()), Action.Delete(idList), State())
      ensures forall e :: e in events <==> e in old(events) && e !in idList
      ensures forall g :: g in groups <==> g in old(groups) && !GroupEmptied(old(State()), idList, g)
      ensures forall p :: p in participants <==>
              p in old(participants) && !GroupEmptied(old(State()), idList, old(participants)[p].group)
      ensures forall e :: e in events ==> events[e] == old(events)[e]
      ensures forall g :: g in groups ==> groups[g] == old(groups)[g]
      ensures forall p :: p in participants ==> participants[p] == old(participants)[p]
      ensures forall r :: r in rules <==> r in old(rules) && !RuleUnused(old(State()), idList, r)
    {
      var hit := set e | e in idList && e in events;
      var ruleIds := set e | e in hit && events[e].rule.Some? :: events[e].rule.value;
      var groupIds := set e | e in hit :: events[e].group;
      events := events - idList;
      if groupIds != {} {
        var emptied := EmptiedGroups(events, groupIds);
        participants := WithoutGroups(participants, emptied);
        groups := groups - emptied;
      } else {
        assert EmptiedGroups(events, groupIds) == {};
        assert groups - {} == groups && WithoutGroups(participants, {}) == participants;
      }
      rules := rules - UnusedRules(events, ruleIds);
      DeleteKeepsRest(old(State()), idList);
    }
  }
}
