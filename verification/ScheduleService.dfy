/** The schedule requests as they rewrite the body, delete rows between checks, write, and clear the cache. */
module ScheduleService {
  import opened Wrappers
  import opened HourFormat
  import opened Schedule
  import opened ScheduleDays
  import opened ScheduleCache

  class Service {
    /** The instant that an ISO text names, if it names one. */
    const instant: string -> Option<int>
    var business: Rows
    var workers: Rows
    var cache: map<string, View>
    var nextId: Id

    ghost function State(): Db
      reads this
    {
      Db(business, workers, cache, nextId)
    }

    // ----- The pipeline

    /**
    First part of the pipeline; None ends the request with the format error. A closed body loses both
    times, given times come back in normal form, and everything else stays as it is.
    */
    method ConvertTimes(body: Body) returns (prepared: Option<Body>)
      ensures prepared == Prepare(Resolve(instant, body))
      ensures prepared.None? <==>
              !SaysClosed(body) && HasTimes(body)
                  && (ReadTime(instant, body.start.value).None? || ReadTime(instant, body.end.value).None?)
      ensures prepared.Some? ==>
                && prepared.value == body.(start := prepared.value.start, end := prepared.value.end)
                && (SaysClosed(body) ==> prepared.value.start == None && prepared.value.end == None)
                && (!SaysClosed(body) && !HasTimes(body) ==> prepared.value == body)
                && (!SaysClosed(body) && HasTimes(body) ==>
                     && HasTimes(prepared.value)
                     && IsHHmm(prepared.value.start.value) && IsHHmm(prepared.value.end.value)
                     && prepared.value.start == ReadTime(instant, body.start.value)
                     && prepared.value.end == ReadTime(instant, body.end.value))
    {
      if SaysClosed(body) { return Some(body.(start := None, end := None)); }
      if !HasTimes(body) { return Some(body); }
      ReadTimeNormal(instant, body.start.value);
      ReadTimeNormal(instant, body.end.value);
      var startHH := ReadTime(instant, body.start.value);
      if startHH.None? { return None; }
      var endHH := ReadTime(instant, body.end.value);
      if endHH.None? { return None; }
      return Some(body.(start := startHH, end := endHH));
    }

    /** Second part: the body says whose rows are looked at, whatever the route. */
    method DeleteClosedRecords(body: Body)
      modifies this`business, this`workers
      ensures State() == Cleaned(old(State()), body)
    {
      if body.user.Some? {
        workers := DeletedOf(workers, body);
      } else {
        business := DeletedOf(business, body);
      }
    }

    /** A closed day loses all its rows, an open range only the closed ones. */
    static method DeletedOf(rows: Rows, body: Body) returns (kept: Rows)
      ensures kept == CleanUp(rows, body)
    {
      if SaysClosed(body) {
        kept := map r | r in rows && !Selects(body, rows[r]) :: rows[r];
      } else if HasTimes(body) {
        kept := map r | r in rows && !(Selects(body, rows[r]) && rows[r].closed) :: rows[r];
      } else {
        kept := rows;
      }
    }

    /** Looks for an open row of the day, other than the one written, that overlaps; the times are normalised again. */
    method PreventOverlapping(body: Body, self: Option<Id>) returns (blocked: bool)
      requires HasTimes(body) ==> ToHHmm(body.start.value) == body.start && ToHHmm(body.end.value) == body.end
      ensures blocked == Blocked(TableOf(State(), Branch(body)), body, self)
    {
      if !HasTimes(body) { return false; }
      var rows := if body.user.Some? then workers else business;
      var s, e := ToHHmm(body.start.value).value, ToHHmm(body.end.value).value;
      var todo := rows.Keys;
      while todo != {}
        invariant todo <= rows.Keys
        invariant forall r :: r in rows && r !in todo ==> !(Clashes(rows[r], body) && self != Some(r))
        decreases |todo|
      {
        var r: Id :| r in todo;
        if self != Some(r) && Selects(body, rows[r]) && !rows[r].closed && Overlaps(rows[r], s, e) {
          return true;
        }
        todo := todo - {r};
      }
      return false;
    }

    /** The three parts in turn; on None the request has ended, and what was deleted stays deleted. */
    method RunPipeline(body: Body, self: Option<Id>) returns (go: Option<Body>, why: Outcome)
      modifies this`business, this`workers
      ensures var c := Pipeline(old(State()), Resolve(instant, body), self);
              State() == c.db && (if go.None? then c == Stop(State(), why) else c == Go(State(), go.value))
    {
      why := Done;
      var prepared := ConvertTimes(body);
      if prepared.None? { return None, BadTime; }
      PreparedNormal(Resolve(instant, body));
      DeleteClosedRecords(prepared.value);
      var blocked := PreventOverlapping(prepared.value, self);
      if blocked { return None, Overlap; }
      return prepared, Done;
    }

    // ----- Adds

    method InvalidateFor(ws: Option<string>)
      modifies this`cache
      ensures cache == Invalidate(old(cache), ws)
    {
      if ws.Some? {
        cache := cache - {ws.value};
      }
    }

    /** Ids given out from now on are above the one written. */
    method NoteId(id: Id)
      modifies this`nextId
      ensures nextId == if id < old(nextId) then old(nextId) else id + 1
    {
      if id >= nextId {
        nextId := id + 1;
      }
    }

    method AddBusinessHour(body: Body) returns (o: Outcome)
      requires Accepted(Business, body)
      modifies this
      ensures (State(), o) == Add(old(State()), Business, Resolve(instant, body))
    {
      var go, why := RunPipeline(body, body.id);
      if go.None? { return why; }
      var b := go.value;
      ghost var db1 := State();
      var id := if b.id.Some? then b.id.value else nextId;
      assert id == IdFor(old(State()), b);
      if !Creatable(Business, b) || id in business { return Failed; }
      business := business[id := NewRow(Business, b)];
      NoteId(id);
      InvalidateFor(b.workspace);
      assert State() == Store(db1, Business, id, NewRow(Business, b), b);
      return Done;
    }

    method AddWorkerBusinessHour(body: Body) returns (o: Outcome)
      requires Accepted(Workers, body)
      modifies this
      ensures (State(), o) == Add(old(State()), Workers, Resolve(instant, body))
    {
      var go, why := RunPipeline(body, body.id);
      if go.None? { return why; }
      var b := go.value;
      ghost var db1 := State();
      var id := if b.id.Some? then b.id.value else nextId;
      assert id == IdFor(old(State()), b);
      if !Creatable(Workers, b) || id in workers { return Failed; }
      workers := workers[id := NewRow(Workers, b)];
      NoteId(id);
      assert State() == Store(db1, Workers, id, NewRow(Workers, b), b);
      return Done;
    }

    // ----- Updates

    method UpdateBusinessHour(id: Id, body: Body) returns (o: Outcome)
      modifies this
      ensures (State(), o) == Update(old(State()), Business, id, Resolve(instant, body))
    {
      var go, why := RunPipeline(body, Some(id));
      if go.None? { return why; }
      var b := go.value;
      if id !in business || !Writable(Business, b) { return Failed; }
      business := business[id := Patch(Business, business[id], b)];
      NoteId(id);
      InvalidateFor(b.workspace);
      return Done;
    }

    /** Counts the worker's rows of that day, where the body names them, and creates the row if there are none. */
    method UpdateWorkerBusinessHour(id: Id, body: Body) returns (o: Outcome)
      modifies this
      ensures (State(), o) == Update(old(State()), Workers, id, Resolve(instant, body))
    {
      var go, why := RunPipeline(body, Some(id));
      if go.None? { return why; }
      var b := go.value;
      var existing := set r | r in workers && Counts(b, workers[r]);
      if existing == {} {
        assert forall r :: r in workers ==> r !in existing;
        if !Creatable(Workers, b) || id in workers { return Failed; }
        workers := workers[id := NewRow(Workers, b)];
      } else {
        if id !in workers || !Writable(Workers, b) { return Failed; }
        workers := workers[id := Patch(Workers, workers[id], b)];
      }
      NoteId(id);
      return Done;
    }

    // ----- Deletions

    method DropEntries(touched: set<string>)
      modifies this`cache
      ensures cache == old(cache) - touched
    {
      var todo := touched;
      while todo != {}
        invariant todo <= touched && cache == old(cache) - (touched - todo)
        decreases |todo|
      {
        var ws: string :| ws in todo;
        cache := cache - {ws};
        todo := todo - {ws};
      }
      assert touched - {} == touched;
    }

    /**
    The entries of the workspaces that had a listed row go; rows that the pipeline has just deleted are no
    longer found.
    */
    method DeleteBusinessHour(body: Body, ids: set<Id>) returns (o: Outcome)
      modifies this
      ensures (State(), o) == Delete(old(State()), Business, Resolve(instant, body), ids)
    {
      var go, why := RunPipeline(body, body.id);
      if go.None? { return why; }
      ghost var db1 := State();
      var touched := Owners(business, ids);
      business := business - ids;
      DropEntries(touched);
      assert State() == db1.(business := db1.business - ids, cache := db1.cache - Owners(db1.business, ids));
      return Done;
    }

    method DeleteWorkerBusinessHour(body: Body, ids: set<Id>) returns (o: Outcome)
      modifies this
      ensures (State(), o) == Delete(old(State()), Workers, Resolve(instant, body), ids)
    {
      var go, why := RunPipeline(body, body.id);
      if go.None? { return why; }
      workers := workers - ids;
      return Done;
    }

    // ----- Generation

    method CreateRows(schedule: seq<Row>)
      modifies this`business, this`nextId
      ensures business == Created(old(business), old(nextId), schedule) && nextId == old(nextId) + |schedule|
    {
      for i := 0 to |schedule|
        invariant nextId == old(nextId) + i
        invariant business == Created(old(business), old(nextId), schedule[..i])
      {
        assert schedule[..i + 1][..i] == schedule[..i];
        business := business[nextId := schedule[i]];
        nextId := nextId + 1;
      }
      assert schedule[..|schedule|] == schedule;
    }

    method CreateSchedule(ws: string, schedule: seq<Row>)
      modifies this
      ensures State() == WithSchedule(old(State()), ws, schedule)
    {
      CreateRows(schedule);
      cache := cache - {ws};
    }

    method ChooseSchedule(ws: string, drafts: seq<Draft>) returns (schedule: Option<seq<Row>>)
      ensures schedule == ScheduleFor(ws, drafts)
    {
      if drafts == [] { return Some(DefaultSchedule(ws)); }
      schedule := Normalize(ws, drafts);
    }

    /** One transaction: the rows are created only if the workspace has none; its cache entry goes either way. */
    method GenerateWorkspaceBusinessHours(company: string, ws: string, drafts: seq<Draft>) returns (o: Outcome)
      modifies this
      ensures (State(), o) == Generate(old(State()), company, ws, drafts)
    {
      if company == "" || ws == "" { return Failed; }
      var hasRows := exists r :: r in business && business[r].owner == ws;
      if hasRows {
        cache := cache - {ws};
        return Done;
      }
      var schedule := ChooseSchedule(ws, drafts);
      if schedule.None? { return Failed; }
      CreateSchedule(ws, schedule.value);
      return Done;
    }

    // ----- Reading

    /** The cached view, or a fold over the rows in whatever order the store gives them, which is then cached. */
    method GetBusinessHours(ws: string) returns (view: View, ghost list: seq<Id>)
      modifies this`cache
      ensures ws in old(cache) ==> view == old(cache)[ws] && cache == old(cache)
      ensures ws !in old(cache) ==>
                Lists(list, business, ws) && view == Fold(RowsAt(list, business)) && cache == old(cache)[ws := view]
    {
      list := [];
      if ws in cache { return cache[ws], []; }
      var todo: set<Id> := set r | r in business && business[r].owner == ws;
      view := map[];
      while todo != {}
        invariant business == old(business) && cache == old(cache) && todo <= business.Keys
        invariant forall r :: r in todo ==> business[r].owner == ws && r !in list
        invariant forall r :: r in business && business[r].owner == ws <==> r in todo || r in list
        invariant forall i, j :: 0 <= i < j < |list| ==> list[i] != list[j]
        invariant forall r :: r in list ==> r in business
        invariant view == Fold(RowsAt(list, business))
        decreases |todo|
      {
        var r: Id :| r in todo;
        FoldPush(list, r, business);
        if !business[r].closed {
          view := Put(view, business[r].weekDay, (business[r].start, business[r].end));
        }
        list := list + [r];
        todo := todo - {r};
      }
      cache := cache[ws := view];
    }
  }

  /** What generating comes to for a workspace without rows. */
  lemma PreparedNormal(body: Body)
    ensures var p := Prepare(body);
            p.Some? && HasTimes(p.value) ==>
                ToHHmm(p.value.start.value) == p.value.start && ToHHmm(p.value.end.value) == p.value.end
  {
    if HasTimes(body) {
      NormalForm(body.start.value);
      NormalForm(body.end.value);
    }
  }
}
