/**
A client cancels or confirms a booking from the web. Results are kept in a cache whose entries may
expire at any moment; a repeated request is answered from the cache while its entry lives.
*/
module ClientActions {
  import opened Wrappers
  import opened Statuses
  import opened Runs

  type Id = nat

  datatype EventRow = EventRow(group: Id, deleted: bool, maxParticipants: Option<int>)
  datatype GroupRow = GroupRow(workspace: string, status: EventStatus)
  datatype ParticipantRow = ParticipantRow(group: Id, client: Option<string>, status: EventStatus, deleted: bool)

  datatype Action = Cancel | Confirm
  datatype Key = Key(action: Action, workspace: string, client: string, event: Id)
  datatype Answer = Answer(event: Id, status: EventStatus, cached: bool, changed: bool)

  datatype Db = Db(
    events: map<Id, EventRow>, groups: map<Id, GroupRow>, participants: map<Id, ParticipantRow>,
    cache: map<Key, Answer>)

  /** The foreign keys. */
  ghost predicate Refs(db: Db) {
    && (forall e :: e in db.events ==> db.events[e].group in db.groups)
    && (forall p :: p in db.participants ==> db.participants[p].group in db.groups)
  }

  // ----- One request, as a change of the tables

  /** Row `p` is a live row of the requesting client in the group of the event. */
  predicate RowOf(db: Db, key: Key, p: Id) {
    && key.event in db.events
    && p in db.participants && !db.participants[p].deleted
    && db.participants[p].group == db.events[key.event].group
    && db.participants[p].client == Some(key.client)
  }

  /** The event is there, in this workspace, and the client takes part. */
  ghost predicate Found(db: Db, key: Key) {
    && key.event in db.events && !db.events[key.event].deleted
    && db.events[key.event].group in db.groups
    && db.groups[db.events[key.event].group].workspace == key.workspace
    && exists p :: RowOf(db, key, p)
  }

  predicate Several(e: EventRow) {
    (if e.maxParticipants.Some? then e.maxParticipants.value else 1) > 1
  }

  function SetParticipant(db: Db, p: Id, status: EventStatus): Db
    requires p in db.participants
  {
    db.(participants := db.participants[p := db.participants[p].(status := status)])
  }

  function SetGroup(db: Db, g: Id, status: EventStatus): Db
    requires g in db.groups
  {
    db.(groups := db.groups[g := db.groups[g].(status := status)])
  }

  function RemoveGroup(db: Db, g: Id): Db {
    db.(events := map e | e in db.events && db.events[e].group != g :: db.events[e],
        participants := map p | p in db.participants && db.participants[p].group != g :: db.participants[p],
        groups := db.groups - {g})
  }

  /** Some live row of the group other than `p` has not been cancelled by its client. */
  predicate OthersActive(db: Db, g: Id, p: Id) {
    exists q :: q in db.participants && q != p && db.participants[q].group == g && !db.participants[q].deleted
      && db.participants[q].status != CANCELLED_BY_CLIENT
  }

  function Remember(db: Db, key: Key, a: Answer): Db {
    db.(cache := db.cache[key := a])
  }

  function CancelRow(db: Db, key: Key, p: Id): (Db, Answer)
    requires RowOf(db, key, p) && db.events[key.event].group in db.groups
  {
    var g := db.events[key.event].group;
    var asBefore := Answer(key.event, CANCELLED_BY_CLIENT, false, false);
    var changed := Answer(key.event, CANCELLED_BY_CLIENT, false, true);
    if IsCancelled(db.groups[g].status) || db.participants[p].status == CANCELLED_BY_CLIENT then
      (Remember(db, key, asBefore), asBefore)
    else if Several(db.events[key.event]) then
      var db1 := SetParticipant(db, p, CANCELLED_BY_CLIENT);
      (Remember(if OthersActive(db, g, p) then db1 else RemoveGroup(db1, g), key, changed), changed)
    else
      (Remember(SetGroup(SetParticipant(db, p, CANCELLED_BY_CLIENT), g, CANCELLED_BY_CLIENT), key, changed), changed)
  }

  function ConfirmRow(db: Db, key: Key, p: Id): (Db, Answer)
    requires RowOf(db, key, p) && db.events[key.event].group in db.groups
  {
    var g := db.events[key.event].group;
    var asBefore := Answer(key.event, CONFIRMED, false, false);
    var changed := Answer(key.event, CONFIRMED, false, true);
    if db.groups[g].status != ACCEPTED then
      (if db.groups[g].status == CONFIRMED then Remember(db, key, asBefore) else db, asBefore)
    else if db.participants[p].status != ACCEPTED then
      (if db.participants[p].status == CONFIRMED then Remember(db, key, asBefore) else db, asBefore)
    else if Several(db.events[key.event]) then
      (Remember(SetParticipant(db, p, CONFIRMED), key, changed), changed)
    else
      (Remember(SetGroup(SetParticipant(db, p, CONFIRMED), g, CONFIRMED), key, changed), changed)
  }

  function ActOnRow(db: Db, key: Key, p: Id): (Db, Answer)
    requires RowOf(db, key, p) && db.events[key.event].group in db.groups
  {
    match key.action
    case Cancel => CancelRow(db, key, p)
    case Confirm => ConfirmRow(db, key, p)
  }

  /** What happened: a request, with the row it worked on if it got that far, or an expiry. No answer means an error. */
  datatype Label = Request(key: Key, row: Option<Id>, answer: Option<Answer>) | Expire(key: Key)

  ghost predicate Step(db: Db, act: Label, db': Db) {
    match act
    case Expire(key) => db' == db.(cache := db.cache - {key})
    case Request(key, row, answer) =>
      if key in db.cache then
        db' == db && row == None && answer == Some(db.cache[key].(cached := true))
      else if !Found(db, key) then
        db' == db && row == None && answer == None
      else
        && row.Some? && RowOf(db, key, row.value)
        && db' == ActOnRow(db, key, row.value).0 && answer == Some(ActOnRow(db, key, row.value).1)
  }

  // ----- The service

  class Service {
    var events: map<Id, EventRow>
    var groups: map<Id, GroupRow>
    var participants: map<Id, ParticipantRow>
    var cache: map<Key, Answer>

    ghost function State(): Db
      reads this
    {
      Db(events, groups, participants, cache)
    }

    /** The live participants of a group, in no determined order. */
    method LiveParticipants(g: Id) returns (rows: seq<Id>)
      ensures forall p :: p in rows <==> p in participants && participants[p].group == g && !participants[p].deleted
    {
      var todo: set<Id> := set p | p in participants && participants[p].group == g && !participants[p].deleted;
      ghost var all := todo;
      rows := [];
      while todo != {}
        invariant forall p :: p in all <==> p in todo || p in rows
        decreases |todo|
      {
        var p: Id :| p in todo;
        rows := rows + [p];
        todo := todo - {p};
      }
    }

    /** The first of `rows` that belongs to the client. */
    method FindRow(rows: seq<Id>, client: string) returns (row: Option<Id>)
      requires forall p :: p in rows ==> p in participants
      ensures row.Some? ==> row.value in rows && participants[row.value].client == Some(client)
      ensures row.None? ==> forall p :: p in rows ==> participants[p].client != Some(client)
    {
      for i := 0 to |rows|
        invariant forall j :: 0 <= j < i ==> participants[rows[j]].client != Some(client)
      {
        if participants[rows[i]].client == Some(client) {
          return Some(rows[i]);
        }
      }
      return None;
    }

    /** No answer stands for the error "not found or not the client's". */
    method CancelEventFromWeb(
        idEvent: Id, client: string, workspace: string) returns (answer: Option<Answer>, ghost row: Option<Id>)
      requires Refs(State())
      modifies this
      ensures Step(old(State()), Request(Key(Cancel, workspace, client, idEvent), row, answer), State())
    {
      var key := Key(Cancel, workspace, client, idEvent);
      row := None;
      if key in cache {
        return Some(cache[key].(cached := true)), None;
      }
      if idEvent !in events || events[idEvent].deleted || groups[events[idEvent].group].workspace != workspace {
        return None, None;
      }
      var g := events[idEvent].group;
      var live := LiveParticipants(g);
      var found := FindRow(live, client);
      if found.None? {
        return None, None;
      }
      var p := found.value;
      row := found;
      assert RowOf(State(), key, p);
      if IsCancelled(groups[g].status) || participants[p].status == CANCELLED_BY_CLIENT {
        var result := Answer(idEvent, CANCELLED_BY_CLIENT, false, false);
        cache := cache[key := result];
        return Some(result), row;
      }
      if Several(events[idEvent]) {
        var active := false;
        for i := 0 to |live|
          invariant active <==>
                    exists j :: 0 <= j < i && live[j] != p && participants[live[j]].status != CANCELLED_BY_CLIENT
        {
          active := active || (live[i] != p && participants[live[i]].status != CANCELLED_BY_CLIENT);
        }
        assert active <==> OthersActive(State(), g, p);
        participants := participants[p := participants[p].(status := CANCELLED_BY_CLIENT)];
        if !active {
          events := map e | e in events && events[e].group != g :: events[e];
          participants := map q | q in participants && participants[q].group != g :: participants[q];
          groups := groups - {g};
        }
      } else {
        participants := participants[p := participants[p].(status := CANCELLED_BY_CLIENT)];
        groups := groups[g := groups[g].(status := CANCELLED_BY_CLIENT)];
      }
      var result := Answer(idEvent, CANCELLED_BY_CLIENT, false, true);
      cache := cache[key := result];
      return Some(result), row;
    }

    method ConfirmEventFromWeb(
        idEvent: Id, client: string, workspace: string) returns (answer: Option<Answer>, ghost row: Option<Id>)
      requires Refs(State())
      modifies this
      ensures Step(old(State()), Request(Key(Confirm, workspace, client, idEvent), row, answer), State())
    {
      var key := Key(Confirm, workspace, client, idEvent);
      row := None;
      if key in cache {
        return Some(cache[key].(cached := true)), None;
      }
      if idEvent !in events || events[idEvent].deleted || groups[events[idEvent].group].workspace != workspace {
        return None, None;
      }
      var g := events[idEvent].group;
      var live := LiveParticipants(g);
      var found := FindRow(live, client);
      if found.None? {
        return None, None;
      }
      var p := found.value;
      row := found;
      assert RowOf(State(), key, p);
      if groups[g].status != ACCEPTED {
        var result := Answer(idEvent, CONFIRMED, false, false);
        if groups[g].status == CONFIRMED {
          cache := cache[key := result];
        }
        return Some(result), row;
      }
      if participants[p].status != ACCEPTED {
        var result := Answer(idEvent, CONFIRMED, false, false);
        if participants[p].status == CONFIRMED {
          cache := cache[key := result];
        }
        return Some(result), row;
      }
      participants := participants[p := participants[p].(status := CONFIRMED)];
      if !Several(events[idEvent]) {
        groups := groups[g := groups[g].(status := CONFIRMED)];
      }
      var result := Answer(idEvent, CONFIRMED, false, true);
      cache := cache[key := result];
      return Some(result), row;
    }
  }

  // ----- What a request does, told from the rows alone

  /** The event is there, in this workspace, and a live row of its group is the client's. */
  ghost predicate Reachable(db: Db, workspace: string, client: string, event: Id) {
    && event in db.events && !db.events[event].deleted
    && db.events[event].group in db.groups && db.groups[db.events[event].group].workspace == workspace
    && exists p :: p in db.participants && !db.participants[p].deleted && db.participants[p].client == Some(client)
         && db.participants[p].group == db.events[event].group
  }

  /** The tables with one participant's status changed, and the cache with one more entry or as it was. */
  ghost predicate OnlyRowChanged(db: Db, db': Db, p: Id, status: EventStatus) {
    && p in db.participants && db'.events == db.events && db'.groups == db.groups
    && db'.participants.Keys == db.participants.Keys
    && (forall q :: q in db.participants && q != p ==> db'.participants[q] == db.participants[q])
    && db'.participants[p] == db.participants[p].(status := status)
  }

  /** The same, and the group `g` takes the status too. */
  ghost predicate RowAndGroupChanged(db: Db, db': Db, p: Id, g: Id, status: EventStatus) {
    && p in db.participants && g in db.groups && db'.events == db.events
    && db'.participants.Keys == db.participants.Keys
    && (forall q :: q in db.participants && q != p ==> db'.participants[q] == db.participants[q])
    && db'.participants[p] == db.participants[p].(status := status)
    && db'.groups.Keys == db.groups.Keys
    && (forall h :: h in db.groups && h != g ==> db'.groups[h] == db.groups[h])
    && db'.groups[g] == db.groups[g].(status := status)
  }

  /** Group `g` is gone with its events and participants, and nothing else is changed. */
  ghost predicate OnlyGroupGone(db: Db, db': Db, g: Id) {
    && (forall h :: h in db'.groups <==> h in db.groups && h != g)
    && (forall h :: h in db'.groups ==> db'.groups[h] == db.groups[h])
    && (forall e :: e in db'.events <==> e in db.events && db.events[e].group != g)
    && (forall e :: e in db'.events ==> db'.events[e] == db.events[e])
    && (forall p :: p in db'.participants <==> p in db.participants && db.participants[p].group != g)
    && (forall p :: p in db'.participants ==> db'.participants[p] == db.participants[p])
  }

  ghost predicate SameTables(db: Db, db': Db) {
    db'.events == db.events && db'.groups == db.groups && db'.participants == db.participants
  }

  /** The event is for more than one person; it is for one if it does not say. */
  predicate ForMany(e: EventRow) {
    e.maxParticipants.Some? && e.maxParticipants.value >= 2
  }

  /** Every live row of the group but `p`, whoever's it is, has been cancelled by its client. */
  ghost predicate AllElseCancelled(db: Db, g: Id, p: Id) {
    forall q :: q in db.participants && db.participants[q].group == g && !db.participants[q].deleted && q != p ==>
      db.participants[q].status == CANCELLED_BY_CLIENT
  }

  /** Whatever the action: an answer from the cache, an error, or work on a live row of the client's. */
  lemma RequestExact(db: Db, key: Key, row: Option<Id>, answer: Option<Answer>, db': Db)
    requires Step(db, Request(key, row, answer), db')
    ensures key in db.cache ==> db' == db && answer == Some(db.cache[key].(cached := true))
    ensures key !in db.cache ==> (answer.Some? <==> Reachable(db, key.workspace, key.client, key.event))
    ensures answer.None? ==> db' == db
  {
    if key !in db.cache && Reachable(db, key.workspace, key.client, key.event) {
      var p :| p in db.participants && !db.participants[p].deleted && db.participants[p].client == Some(key.client)
        && db.participants[p].group == db.events[key.event].group;
      assert RowOf(db, key, p);
    }
  }

  /** The row worked on is a live one of the client's, and of the cache at most the entry of the request changes. */
  lemma WorkExact(db: Db, key: Key, row: Option<Id>, answer: Answer, db': Db)
    requires key !in db.cache && Step(db, Request(key, row, Some(answer)), db')
    ensures && row.Some? && row.value in db.participants && db.participants[row.value].client == Some(key.client)
            && !db.participants[row.value].deleted
            && db.participants[row.value].group == db.events[key.event].group
    ensures answer.event == key.event && !answer.cached
    ensures db'.cache == if key in db'.cache then db.cache[key := answer] else db.cache
    ensures if answer.changed then key in db'.cache else SameTables(db, db')
  {
    assert Found(db, key) && db' == ActOnRow(db, key, row.value).0;
  }

  /**
  A cancel changes something exactly if neither the group nor the row is cancelled. Through an event for
  one person it cancels row and group. Through one for several the booking is removed exactly if everybody
  else, of whatever client, has cancelled; otherwise the row alone is cancelled.
  */
  lemma CancelExact(db: Db, key: Key, p: Id, answer: Answer, db': Db)
    requires key !in db.cache && key.action == Cancel && Step(db, Request(key, Some(p), Some(answer)), db')
    ensures var g := db.events[key.event].group;
            && answer.status == CANCELLED_BY_CLIENT && key in db'.cache
            && (answer.changed <==>
                 && db.groups[g].status !in {CANCELLED, CANCELLED_BY_CLIENT, CANCELLED_BY_CLIENT_REMOVED}
                 && db.participants[p].status != CANCELLED_BY_CLIENT)
            && (answer.changed && !ForMany(db.events[key.event]) ==>
                 RowAndGroupChanged(db, db', p, g, CANCELLED_BY_CLIENT))
            && (answer.changed && ForMany(db.events[key.event]) ==>
                 && (g !in db'.groups <==> AllElseCancelled(db, g, p))
                 && (g !in db'.groups ==> OnlyGroupGone(db, db', g))
                 && (g in db'.groups ==> OnlyRowChanged(db, db', p, CANCELLED_BY_CLIENT)))
  {
  }

  /**
  A confirm changes something exactly if group and row are both still accepted; it confirms the row, and
  the group too if the event is for one person. An unchanged answer is remembered only for what is
  confirmed already.
  */
  lemma ConfirmExact(db: Db, key: Key, p: Id, answer: Answer, db': Db)
    requires key !in db.cache && key.action == Confirm && Step(db, Request(key, Some(p), Some(answer)), db')
    ensures var g := db.events[key.event].group;
            && answer.status == CONFIRMED
            && (answer.changed <==> db.groups[g].status == ACCEPTED && db.participants[p].status == ACCEPTED)
            && (answer.changed && ForMany(db.events[key.event]) ==> OnlyRowChanged(db, db', p, CONFIRMED))
            && (answer.changed && !ForMany(db.events[key.event]) ==> RowAndGroupChanged(db, db', p, g, CONFIRMED))
            && (!answer.changed ==>
                 (key in db'.cache <==>
                  || db.groups[g].status == CONFIRMED
                  || (db.groups[g].status == ACCEPTED && db.participants[p].status == CONFIRMED)))
  {
  }

  // ----- Statuses only move forward

  ghost function StepRelation(): (Db, Label, Db) -> bool {
    (db, act, db') => Step(db, act, db')
  }

  /** How far a participant has gone: open, confirmed, cancelled by the client. */
  function Stage(s: EventStatus): nat {
    if s == CANCELLED_BY_CLIENT then 3 else if IsCancelled(s) then 2 else if s == CONFIRMED then 1 else 0
  }

  /**
  Later rows are earlier rows, in the same place, with no status gone back; cancelled groups stay cancelled,
  and none becomes merely accepted again.
  */
  ghost predicate Forward(db: Db, db': Db) {
    && (forall p :: p in db'.participants ==>
          && p in db.participants
          && db'.participants[p] == db.participants[p].(status := db'.participants[p].status)
          && Stage(db.participants[p].status) <= Stage(db'.participants[p].status)
          && (db'.participants[p].status == ACCEPTED ==> db.participants[p].status == ACCEPTED))
    && (forall g :: g in db'.groups ==>
          && g in db.groups && (IsCancelled(db.groups[g].status) ==> IsCancelled(db'.groups[g].status))
          && (db'.groups[g].status == ACCEPTED ==> db.groups[g].status == ACCEPTED))
    && (forall e :: e in db'.events ==> e in db.events && db'.events[e] == db.events[e])
    && (forall p :: p in db.participants && db.participants[p].group in db'.groups ==> p in db'.participants)
  }

  lemma RemoveForward(db: Db, g: Id)
    requires Refs(db)
    ensures Forward(db, RemoveGroup(db, g)) && Refs(RemoveGroup(db, g))
  {
  }

  lemma SetForward(db: Db, p: Id, status: EventStatus)
    requires Refs(db) && p in db.participants && status != ACCEPTED
    requires Stage(db.participants[p].status) <= Stage(status)
    ensures Forward(db, SetParticipant(db, p, status)) && Refs(SetParticipant(db, p, status))
  {
  }

  lemma SetGroupForward(db: Db, g: Id, status: EventStatus)
    requires Refs(db) && g in db.groups && !IsCancelled(db.groups[g].status) && status != ACCEPTED
    ensures Forward(db, SetGroup(db, g, status)) && Refs(SetGroup(db, g, status))
  {
  }

  lemma CancelForward(db: Db, key: Key, p: Id)
    requires Refs(db) && RowOf(db, key, p)
    ensures Forward(db, CancelRow(db, key, p).0) && Refs(CancelRow(db, key, p).0)
  {
    var g := db.events[key.event].group;
    if !(IsCancelled(db.groups[g].status) || db.participants[p].status == CANCELLED_BY_CLIENT) {
      var db1 := SetParticipant(db, p, CANCELLED_BY_CLIENT);
      SetForward(db, p, CANCELLED_BY_CLIENT);
      var db2 := if !Several(db.events[key.event]) then SetGroup(db1, g, CANCELLED_BY_CLIENT)
                 else if OthersActive(db, g, p) then db1 else RemoveGroup(db1, g);
      assert Forward(db1, db2) && Refs(db2) by {
        SetGroupForward(db1, g, CANCELLED_BY_CLIENT);
        RemoveForward(db1, g);
        assert Forward(db1, db1);
      }
    }
  }

  lemma ConfirmForward(db: Db, key: Key, p: Id)
    requires Refs(db) && RowOf(db, key, p)
    ensures Forward(db, ConfirmRow(db, key, p).0) && Refs(ConfirmRow(db, key, p).0)
  {
    var g := db.events[key.event].group;
    if db.groups[g].status != ACCEPTED || db.participants[p].status != ACCEPTED {
      assert Forward(db, db);
    } else {
      var db1 := SetParticipant(db, p, CONFIRMED);
      SetForward(db, p, CONFIRMED);
      var db2 := if Several(db.events[key.event]) then db1 else SetGroup(db1, g, CONFIRMED);
      assert Forward(db1, db2) && Refs(db2) by {
        SetGroupForward(db1, g, CONFIRMED);
        assert Forward(db1, db1);
      }
    }
  }

  lemma StepForward(db: Db, act: Label, db': Db)
    requires Refs(db) && Step(db, act, db')
    ensures Forward(db, db') && Refs(db')
  {
    if act.Request? && act.key !in db.cache && Found(db, act.key) {
      CancelForward(db, act.key, act.row.value);
      ConfirmForward(db, act.key, act.row.value);
    }
  }

  // ----- Live cancel entries tell the truth

  /**
  The cancellation that a cached cancel answer reports is still visible: in the row, in the group, or
  because the event is gone.
  */
  ghost predicate CancelVisible(db: Db, key: Key) {
    || key.event !in db.events
    || (db.events[key.event].group in db.groups && IsCancelled(db.groups[db.events[key.event].group].status))
    || exists p :: RowOf(db, key, p) && db.participants[p].status == CANCELLED_BY_CLIENT
  }

  ghost predicate CacheTrue(db: Db) {
    forall key :: key in db.cache && key.action == Cancel ==> CancelVisible(db, key)
  }

  lemma CancelStaysVisible(db: Db, db': Db, key: Key)
    requires Forward(db, db') && Refs(db) && Refs(db') && CancelVisible(db, key)
    ensures CancelVisible(db', key)
  {
    if key.event in db'.events {
      if p :| RowOf(db, key, p) && db.participants[p].status == CANCELLED_BY_CLIENT {
        assert RowOf(db', key, p);
      }
    }
  }

  lemma CancelEntryVisible(db: Db, key: Key, p: Id)
    requires Refs(db) && RowOf(db, key, p) && key.action == Cancel
    ensures CancelVisible(CancelRow(db, key, p).0, key)
  {
    var db' := CancelRow(db, key, p).0;
    if key.event in db'.events && !IsCancelled(db.groups[db.events[key.event].group].status) {
      if db.participants[p].status == CANCELLED_BY_CLIENT || Several(db.events[key.event]) {
        assert RowOf(db', key, p);
      }
    }
  }

  /** A step adds at most an entry for the request it carries out. */
  lemma NewEntry(db: Db, act: Label, db': Db, key: Key)
    requires Step(db, act, db') && key in db'.cache && key !in db.cache
    ensures act.Request? && act.key == key && act.row.Some? && RowOf(db, key, act.row.value) && Found(db, key)
    ensures db' == ActOnRow(db, key, act.row.value).0
  {
  }

  lemma StepKeepsCacheTrue(db: Db, act: Label, db': Db)
    requires Refs(db) && CacheTrue(db) && Step(db, act, db')
    ensures CacheTrue(db')
  {
    StepForward(db, act, db');
    forall key | key in db'.cache && key.action == Cancel ensures CancelVisible(db', key) {
      if key in db.cache {
        CancelStaysVisible(db, db', key);
      } else {
        NewEntry(db, act, db', key);
        CancelEntryVisible(db, key, act.row.value);
      }
    }
  }

  // ----- Runs

  /**
  In every run, with entries expiring at any moment, references hold and every live cancel entry reports a
  cancellation that stands.
  */
  lemma RunCacheTrue(dbs: seq<Db>, acts: seq<Label>)
    requires IsRun(StepRelation(), dbs, acts) && Refs(dbs[0]) && CacheTrue(dbs[0])
    ensures forall i :: 0 <= i < |dbs| ==> Refs(dbs[i]) && CacheTrue(dbs[i])
  {
    var inv := (db: Db) => Refs(db) && CacheTrue(db);
    forall i | 0 <= i < |acts| && inv(dbs[i]) && StepRelation()(dbs[i], acts[i], dbs[i + 1]) ensures inv(dbs[i + 1]) {
      StepForward(dbs[i], acts[i], dbs[i + 1]);
      StepKeepsCacheTrue(dbs[i], acts[i], dbs[i + 1]);
    }
    RunInvariant(StepRelation(), inv, dbs, acts);
    forall i | 0 <= i < |dbs| ensures Refs(dbs[i]) && CacheTrue(dbs[i]) {
      assert inv(dbs[i]);
    }
  }

  lemma RunKeepsRefs(dbs: seq<Db>, acts: seq<Label>)
    requires IsRun(StepRelation(), dbs, acts) && Refs(dbs[0])
    ensures forall i :: 0 <= i < |dbs| ==> Refs(dbs[i])
  {
    var inv := (db: Db) => Refs(db);
    forall i | 0 <= i < |acts| && inv(dbs[i]) && StepRelation()(dbs[i], acts[i], dbs[i + 1]) ensures inv(dbs[i + 1]) {
      StepForward(dbs[i], acts[i], dbs[i + 1]);
    }
    RunInvariant(StepRelation(), inv, dbs, acts);
    forall i | 0 <= i < |dbs| ensures Refs(dbs[i]) {
      assert inv(dbs[i]);
    }
  }

  /**
  Between any two moments of a run nothing goes back: no row appears, no cancelled participant or group is
  un-cancelled.
  */
  lemma RunForward(dbs: seq<Db>, acts: seq<Label>, i: nat, j: nat)
    requires IsRun(StepRelation(), dbs, acts) && Refs(dbs[0]) && i <= j < |dbs|
    ensures Forward(dbs[i], dbs[j])
    ensures forall p :: p in dbs[j].participants && IsCancelled(dbs[i].participants[p].status) ==>
            IsCancelled(dbs[j].participants[p].status)
  {
    RunKeepsRefs(dbs, acts);
    var rel := (a: Db, b: Db) => Forward(a, b);
    forall a, b, c | rel(a, b) && rel(b, c) ensures rel(a, c) {
    }
    forall k | i <= k < j && StepRelation()(dbs[k], acts[k], dbs[k + 1]) ensures rel(dbs[k], dbs[k + 1]) {
      StepForward(dbs[k], acts[k], dbs[k + 1]);
    }
    RunRelation(StepRelation(), rel, dbs, acts, i, j);
    assert rel(dbs[i], dbs[j]);
  }

  /** The request was not answered from the cache and reports a change, made in row `p`. */
  predicate Changes(act: Label, action: Action, p: Id) {
    act.Request? && act.key.action == action && act.row == Some(p) && act.answer.Some? && act.answer.value.changed
  }

  lemma ChangeNeedsAndLeaves(db: Db, act: Label, db': Db, action: Action, p: Id)
    requires Refs(db) && Step(db, act, db') && Changes(act, action, p)
    ensures RowOf(db, act.key, p)
    ensures action == Confirm ==>
            db.participants[p].status == ACCEPTED && p in db'.participants && db'.participants[p].status == CONFIRMED
    ensures action == Cancel ==>
              && db.participants[p].status != CANCELLED_BY_CLIENT
              && (p in db'.participants ==> db'.participants[p].status == CANCELLED_BY_CLIENT)
  {
  }

  /** Per participant row, in any run: the only two changes there can be are one confirm and, after it, one cancel. */
  lemma ChangesOncePerRow(dbs: seq<Db>, acts: seq<Label>, i: nat, j: nat, a: Action, b: Action, p: Id)
    requires IsRun(StepRelation(), dbs, acts) && Refs(dbs[0]) && i < j < |acts|
    requires Changes(acts[i], a, p) && Changes(acts[j], b, p)
    ensures a == Confirm && b == Cancel
  {
    RunKeepsRefs(dbs, acts);
    assert StepRelation()(dbs[i], acts[i], dbs[i + 1]) && StepRelation()(dbs[j], acts[j], dbs[j + 1]);
    ChangeNeedsAndLeaves(dbs[i], acts[i], dbs[i + 1], a, p);
    ChangeNeedsAndLeaves(dbs[j], acts[j], dbs[j + 1], b, p);
    RunForward(dbs, acts, i + 1, j);
  }

  /** The request changed something for this client in this group. */
  ghost predicate ChangesFor(db: Db, act: Label, client: string, g: Id) {
    act.Request? && act.row.Some? && Changes(act, act.key.action, act.row.value)
    && act.key.client == client && act.key.event in db.events && db.events[act.key.event].group == g
  }

  // ----- When a client can change a booking more often

  /**
  A run from `db` in which two requests of the client change the group and are not a confirm followed by a
  cancel.
  */
  ghost predicate ChangesTwice(db: Db, dbs: seq<Db>, acts: seq<Label>, client: string, g: Id) {
    && IsRun(StepRelation(), dbs, acts) && dbs[0] == db
    && exists i, j :: 0 <= i < j < |acts| && ChangesFor(dbs[i], acts[i], client, g)
         && ChangesFor(dbs[j], acts[j], client, g)
                      && !(acts[i].key.action == Confirm && acts[j].key.action == Cancel)
  }

  predicate ActiveRow(db: Db, client: string, g: Id, p: Id) {
    && p in db.participants && !db.participants[p].deleted && db.participants[p].group == g
    && db.participants[p].client == Some(client) && db.participants[p].status != CANCELLED_BY_CLIENT
  }

  ghost predicate TwoActiveRows(db: Db, client: string, g: Id) {
    exists p, q :: p != q && ActiveRow(db, client, g, p) && ActiveRow(db, client, g, q)
  }

  /** Event `e` is a live event for several people in the group, which is not cancelled. */
  predicate OpenToSeveral(db: Db, g: Id, e: Id) {
    && e in db.events && db.events[e].group == g && !db.events[e].deleted && Several(db.events[e])
    && g in db.groups && !IsCancelled(db.groups[g].status)
  }

  /** A row that a request changes was there, live and not cancelled, from the start. */
  lemma ChangedRowWasActive(dbs: seq<Db>, acts: seq<Label>, i: nat, client: string, g: Id)
    requires IsRun(StepRelation(), dbs, acts) && Refs(dbs[0]) && i < |acts| && ChangesFor(dbs[i], acts[i], client, g)
    ensures ActiveRow(dbs[0], client, g, acts[i].row.value)
  {
    RunKeepsRefs(dbs, acts);
    assert StepRelation()(dbs[i], acts[i], dbs[i + 1]);
    ChangeNeedsAndLeaves(dbs[i], acts[i], dbs[i + 1], acts[i].key.action, acts[i].row.value);
    RunForward(dbs, acts, 0, i);
  }

  /**
  A change meets an open group, and a change through an event for one person closes it for further confirms,
  and a cancel for all.
  */
  lemma ChangeNeedsOpenGroup(db: Db, act: Label, db': Db, client: string, g: Id)
    requires Refs(db) && Step(db, act, db') && ChangesFor(db, act, client, g)
    ensures act.key.event in db.events && db.events[act.key.event].group == g && !db.events[act.key.event].deleted
    ensures g in db.groups && !IsCancelled(db.groups[g].status)
    ensures act.key.action == Confirm ==> db.groups[g].status == ACCEPTED
    ensures !Several(db.events[act.key.event]) ==>
              g in db'.groups && db'.groups[g].status == if act.key.action == Cancel then CANCELLED_BY_CLIENT
                  else CONFIRMED
  {
  }

  /** Two changes that are not a confirm and then a cancel: the first went through an event for several. */
  lemma FirstChangeIsOpen(dbs: seq<Db>, acts: seq<Label>, i: nat, j: nat, client: string, g: Id)
    requires IsRun(StepRelation(), dbs, acts) && Refs(dbs[0]) && i < j < |acts|
    requires ChangesFor(dbs[i], acts[i], client, g) && ChangesFor(dbs[j], acts[j], client, g)
    requires !(acts[i].key.action == Confirm && acts[j].key.action == Cancel)
    ensures OpenToSeveral(dbs[0], g, acts[i].key.event)
  {
    RunKeepsRefs(dbs, acts);
    assert StepRelation()(dbs[i], acts[i], dbs[i + 1]) && StepRelation()(dbs[j], acts[j], dbs[j + 1]);
    ChangeNeedsOpenGroup(dbs[i], acts[i], dbs[i + 1], client, g);
    ChangeNeedsOpenGroup(dbs[j], acts[j], dbs[j + 1], client, g);
    RunForward(dbs, acts, 0, i);
    RunForward(dbs, acts, i + 1, j);
  }

  lemma TwoChangesNeedTwoRows(dbs: seq<Db>, acts: seq<Label>, i: nat, j: nat, client: string, g: Id)
    requires IsRun(StepRelation(), dbs, acts) && Refs(dbs[0]) && i < j < |acts|
    requires ChangesFor(dbs[i], acts[i], client, g) && ChangesFor(dbs[j], acts[j], client, g)
    requires !(acts[i].key.action == Confirm && acts[j].key.action == Cancel)
    ensures TwoActiveRows(dbs[0], client, g)
  {
    ChangedRowWasActive(dbs, acts, i, client, g);
    ChangedRowWasActive(dbs, acts, j, client, g);
    if acts[i].row == acts[j].row {
      ChangesOncePerRow(dbs, acts, i, j, acts[i].key.action, acts[j].key.action, acts[i].row.value);
    }
    assert acts[i].row.value != acts[j].row.value;
  }

  /**
  Per client and group: at most one uncached changed confirm and one such cancel, never the confirm
  after the cancel, whichever events of the group the requests name, unless two active rows in an open
  event for several are the client's.
  */
  lemma ChangesOncePerClient(dbs: seq<Db>, acts: seq<Label>, i: nat, j: nat, client: string, g: Id)
    requires IsRun(StepRelation(), dbs, acts) && Refs(dbs[0]) && i < j < |acts|
    requires !(TwoActiveRows(dbs[0], client, g) && exists e :: OpenToSeveral(dbs[0], g, e))
    requires ChangesFor(dbs[i], acts[i], client, g) && ChangesFor(dbs[j], acts[j], client, g)
    ensures acts[i].key.action == Confirm && acts[j].key.action == Cancel
  {
    if !(acts[i].key.action == Confirm && acts[j].key.action == Cancel) {
      TwoChangesNeedTwoRows(dbs, acts, i, j, client, g);
      FirstChangeIsOpen(dbs, acts, i, j, client, g);
    }
  }

  /** With another active row beside it, cancelling a row changes that row and nothing else. */
  lemma CancelBesideOther(db: Db, key: Key, g: Id, p: Id, q: Id)
    requires key.action == Cancel && OpenToSeveral(db, g, key.event) && key.workspace == db.groups[g].workspace
             && key !in db.cache
    requires p != q && ActiveRow(db, key.client, g, p) && ActiveRow(db, key.client, g, q)
    ensures var changed := Answer(key.event, CANCELLED_BY_CLIENT, false, true);
            var db' := Remember(SetParticipant(db, p, CANCELLED_BY_CLIENT), key, changed);
            && StepRelation()(db, Request(key, Some(p), Some(changed)), db')
            && ChangesFor(db, Request(key, Some(p), Some(changed)), key.client, g)
  {
    assert RowOf(db, key, p);
    assert OthersActive(db, g, p) by { assert q in db.participants; }
  }

  /** Cancelling an active row of an open group always changes something. */
  lemma CancelActive(db: Db, key: Key, g: Id, q: Id)
    requires key.action == Cancel && OpenToSeveral(db, g, key.event) && key.workspace == db.groups[g].workspace
             && key !in db.cache
    requires ActiveRow(db, key.client, g, q)
    ensures RowOf(db, key, q)
    ensures var changed := Answer(key.event, CANCELLED_BY_CLIENT, false, true);
            && StepRelation()(db, Request(key, Some(q), Some(changed)), CancelRow(db, key, q).0)
            && ChangesFor(db, Request(key, Some(q), Some(changed)), key.client, g)
  {
    assert RowOf(db, key, q);
  }

  lemma TwoRowsCancelTwice(db: Db, client: string, g: Id, e: Id)
    requires OpenToSeveral(db, g, e) && TwoActiveRows(db, client, g)
    ensures exists dbs: seq<Db>, acts: seq<Label> :: ChangesTwice(db, dbs, acts, client, g)
  {
    var p, q :| p != q && ActiveRow(db, client, g, p) && ActiveRow(db, client, g, q);
    var key := Key(Cancel, db.groups[g].workspace, client, e);
    var changed := Answer(e, CANCELLED_BY_CLIENT, false, true);
    var db1 := db.(cache := db.cache - {key});
    var db2 := Remember(SetParticipant(db1, p, CANCELLED_BY_CLIENT), key, changed);
    var db3 := db2.(cache := db2.cache - {key});
    CancelBesideOther(db1, key, g, p, q);
    CancelActive(db3, key, g, q);
    var db4 := CancelRow(db3, key, q).0;
    var dbs := [db, db1, db2, db3, db4];
    var acts := [Expire(key), Request(key, Some(p), Some(changed)), Expire(key), Request(key, Some(q), Some(changed))];
    RunOfFour(dbs, acts);
    assert ChangesFor(dbs[1], acts[1], client, g) && ChangesFor(dbs[3], acts[3], client, g);
    assert ChangesTwice(db, dbs, acts, client, g);
  }

  lemma RunOfFour(dbs: seq<Db>, acts: seq<Label>)
    requires |dbs| == 5 && |acts| == 4
    requires StepRelation()(dbs[0], acts[0], dbs[1]) && StepRelation()(dbs[1], acts[1], dbs[2])
    requires StepRelation()(dbs[2], acts[2], dbs[3]) && StepRelation()(dbs[3], acts[3], dbs[4])
    ensures IsRun(StepRelation(), dbs, acts)
  {
  }

  /** A run from `db` in which a request of each kind, in this order, changes the group for the client. */
  ghost predicate ChangesInOrder(
      db: Db, dbs: seq<Db>, acts: seq<Label>, client: string, g: Id, first: Action, second: Action) {
    && IsRun(StepRelation(), dbs, acts) && dbs[0] == db
    && exists i, j :: 0 <= i < j < |acts| && ChangesFor(dbs[i], acts[i], client, g)
         && ChangesFor(dbs[j], acts[j], client, g)
                      && acts[i].key.action == first && acts[j].key.action == second
  }

  /** Confirming an accepted row of an accepted group through an event for several changes that row and nothing else. */
  lemma ConfirmAccepted(db: Db, key: Key, g: Id, p: Id)
    requires key.action == Confirm && OpenToSeveral(db, g, key.event) && key.workspace == db.groups[g].workspace
             && key !in db.cache
    requires db.groups[g].status == ACCEPTED && ActiveRow(db, key.client, g, p) && db.participants[p].status == ACCEPTED
    ensures var changed := Answer(key.event, CONFIRMED, false, true);
            && StepRelation()(db, Request(key, Some(p), Some(changed)),
                 Remember(SetParticipant(db, p, CONFIRMED), key, changed))
            && ChangesFor(db, Request(key, Some(p), Some(changed)), key.client, g)
  {
    assert RowOf(db, key, p);
  }

  /**
  With two accepted rows in an accepted booking for several, a changed confirm can follow a changed confirm
  and even a changed cancel.
  */
  lemma TwoAcceptedRows(db: Db, client: string, g: Id, e: Id, p: Id, q: Id, first: Action)
    requires OpenToSeveral(db, g, e) && db.groups[g].status == ACCEPTED && p != q
    requires ActiveRow(db, client, g, p) && db.participants[p].status == ACCEPTED
    requires ActiveRow(db, client, g, q) && db.participants[q].status == ACCEPTED
    ensures exists dbs: seq<Db>, acts: seq<Label> :: ChangesInOrder(db, dbs, acts, client, g, first, Confirm)
  {
    var k1, k2 := Key(first, db.groups[g].workspace, client, e), Key(Confirm, db.groups[g].workspace, client, e);
    var status := if first == Cancel then CANCELLED_BY_CLIENT else CONFIRMED;
    var answer, confirmed := Answer(e, status, false, true), Answer(e, CONFIRMED, false, true);
    var db1 := db.(cache := db.cache - {k1});
    var db2 := Remember(SetParticipant(db1, p, status), k1, answer);
    var db3 := db2.(cache := db2.cache - {k2});
    var db4 := Remember(SetParticipant(db3, q, CONFIRMED), k2, confirmed);
    if first == Cancel {
      CancelBesideOther(db1, k1, g, p, q);
    } else {
      ConfirmAccepted(db1, k1, g, p);
    }
    ConfirmAccepted(db3, k2, g, q);
    var dbs := [db, db1, db2, db3, db4];
    var acts := [Expire(k1), Request(k1, Some(p), Some(answer)), Expire(k2), Request(k2, Some(q), Some(confirmed))];
    RunOfFour(dbs, acts);
    assert ChangesFor(dbs[1], acts[1], client, g) && ChangesFor(dbs[3], acts[3], client, g);
    assert ChangesInOrder(db, dbs, acts, client, g, first, Confirm);
  }

  /**
  Some run gives the client two changes of the group other than a confirm and then a cancel exactly
  when two active rows in it are theirs and it has an open event for several people.
  */
  lemma ChangesTwiceExact(db: Db, client: string, g: Id)
    requires Refs(db)
    ensures (exists dbs: seq<Db>, acts: seq<Label> :: ChangesTwice(db, dbs, acts, client, g)) <==>
            TwoActiveRows(db, client, g) && exists e :: OpenToSeveral(db, g, e)
  {
    if dbs: seq<Db>, acts: seq<Label> :| ChangesTwice(db, dbs, acts, client, g) {
      var i, j :| 0 <= i < j < |acts| && ChangesFor(dbs[i], acts[i], client, g)
          && ChangesFor(dbs[j], acts[j], client, g)
                  && !(acts[i].key.action == Confirm && acts[j].key.action == Cancel);
      TwoChangesNeedTwoRows(dbs, acts, i, j, client, g);
      FirstChangeIsOpen(dbs, acts, i, j, client, g);
    }
    if e :| OpenToSeveral(db, g, e) {
      if TwoActiveRows(db, client, g) {
        TwoRowsCancelTwice(db, client, g, e);
      }
    }
  }
}
