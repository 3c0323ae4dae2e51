/**
What schedule requests do, told from the fields of the body and the rows stored: which rows go, which row
is written and with what, and which cache entries are dropped.
*/
module ScheduleEffects {
  import opened Wrappers
  import opened HourFormat
  import opened Texts
  import opened Schedule
  import opened ScheduleDays

  // ----- What the pipeline leaves

  /** The row is the owner's, where the body names one, and of the weekday, where it names one. */
  predicate About(body: Body, row: Row) {
    && (body.user.Some? ==> body.user == Some(row.owner))
    && (body.user.None? && body.workspace.Some? ==> body.workspace == Some(row.owner))
    && (body.weekDay.Some? ==> body.weekDay == Some(row.weekDay))
  }

  predicate GivesBoth(body: Body) {
    body.start.Some? && body.end.Some? && body.start != Some("") && body.end != Some("")
  }

  /** Times are read only where the day is not closed and both are given. */
  predicate ReadsTimes(body: Body) {
    body.closed != Some(true) && GivesBoth(body)
  }

  predicate Unreadable(body: Body) {
    ReadsTimes(body) && (ToHHmm(body.start.value) == None || ToHHmm(body.end.value) == None)
  }

  /** The table that the body is about. */
  predicate IsFor(body: Body, t: Table) {
    if body.user.Some? then t == Workers else t == Business
  }

  /** A closing body takes every row it is about, one with both times the closed ones, any other none. */
  predicate Taken(body: Body, row: Row) {
    About(body, row) && (body.closed == Some(true) || (GivesBoth(body) && row.closed))
  }

  /** Row `r` of the table is there and not taken by the body. */
  predicate Spared(db: Db, t: Table, body: Body, r: Id) {
    r in TableOf(db, t) && !(IsFor(body, t) && Taken(body, TableOf(db, t)[r]))
  }

  /** An open row that the body is about, other than the one written, overlaps the times it gives. */
  ghost predicate Collides(rows: Rows, body: Body, self: Option<Id>)
    requires !Unreadable(body)
  {
    ReadsTimes(body) && exists r ::
      && r in rows && self != Some(r) && About(body, rows[r]) && !rows[r].closed
      && rows[r].start.Some? && rows[r].end.Some?
      && TextLess(rows[r].start.value, ToHHmm(body.end.value).value)
      && TextLess(ToHHmm(body.start.value).value, rows[r].end.value)
  }

  /** Both tables hold exactly the rows that the body spares, as they were. */
  ghost predicate OnlyTaken(db: Db, body: Body, db': Db) {
    forall t ::
      && (forall r :: r in TableOf(db', t) <==> Spared(db, t, body, r))
      && (forall r :: r in TableOf(db', t) ==> TableOf(db', t)[r] == TableOf(db, t)[r])
  }

  /** The start that is written: none on a closed day, the normal form where both are given, else as it came. */
  function WrittenStart(body: Body): Option<string> {
    if body.closed == Some(true) then None
    else if GivesBoth(body) then ToHHmm(body.start.value) else body.start
  }

  function WrittenEnd(body: Body): Option<string> {
    if body.closed == Some(true) then None
    else if GivesBoth(body) then ToHHmm(body.end.value) else body.end
  }

  /** Preparing a body changes nothing about which rows it selects and takes. */
  lemma TakenMeans(body: Body, row: Row)
    requires Prepare(body).Some?
    ensures Removed(row, Prepare(body).value) <==> Taken(body, row)
    ensures Selects(Prepare(body).value, row) <==> About(body, row)
    ensures Selects(body, row) <==> About(body, row)
  {
    PrepareKeeps(body);
  }

  lemma CleanedMeans(db: Db, body: Body)
    requires Prepare(body).Some?
    ensures OnlyTaken(db, body, Cleaned(db, Prepare(body).value))
    ensures forall t, r :: Left(db, t, Prepare(body).value, r) <==> Spared(db, t, body, r)
  {
    var b := Prepare(body).value;
    CleanedTable(db, b, Business);
    CleanedTable(db, b, Workers);
    forall t, r ensures Left(db, t, b, r) <==> Spared(db, t, body, r) {
      if r in TableOf(db, t) {
        TakenMeans(body, TableOf(db, t)[r]);
      }
    }
  }

  lemma PreparedMeans(body: Body)
    ensures Prepare(body).None? <==> Unreadable(body)
    ensures Prepare(body).Some? ==> Prepare(body).value == body.(start := WrittenStart(body), end := WrittenEnd(body))
  {
  }

  lemma BlockedMeans(rows: Rows, body: Body, self: Option<Id>)
    requires Prepare(body).Some? && !Unreadable(body)
    ensures Blocked(rows, Prepare(body).value, self) <==> Collides(rows, body, self)
  {
    PrepareKeeps(body);
    forall r | r in rows ensures Selects(Prepare(body).value, rows[r]) <==> About(body, rows[r]) {
      TakenMeans(body, rows[r]);
    }
  }

  /** How a request ends before anything is written. */
  ghost predicate Refuses(db: Db, body: Body, self: Option<Id>, o: Outcome) {
    if Unreadable(body) then o == BadTime
    else o == Overlap && Collides(TableOf(db, if body.user.Some? then Workers else Business), body, self)
  }

  /**
  A body that cannot be read changes nothing; otherwise its rows go, and only then does an overlap end the
  request.
  */
  lemma PipelineEffect(db: Db, body: Body, self: Option<Id>)
    ensures var c := Pipeline(db, body, self);
            && c.db.cache == db.cache && c.db.nextId == db.nextId
            && (if Unreadable(body) then c.db == db else OnlyTaken(db, body, c.db))
            && (c.Stop? ==> Refuses(db, body, self, c.why))
            && (c.Go? ==> !Refuses(db, body, self, BadTime) && !Refuses(db, body, self, Overlap))
            && (c.Go? ==> c.body == body.(start := WrittenStart(body), end := WrittenEnd(body)))
  {
    PipelineExact(db, body, self);
    PreparedMeans(body);
    if Prepare(body).Some? {
      CleanedMeans(db, body);
      PrepareKeeps(body);
      BlockedMeans(TableOf(db, Branch(body)), body, self);
    }
  }

  // ----- What is written

  /** A text that the columns for times can hold. */
  predicate Short(v: Option<string>) {
    v.Some? ==> |v.value| <= 5
  }

  /** The table has a column for every field that the body gives. */
  predicate Storable(t: Table, body: Body) {
    && !body.unknownField && (t == Business ==> body.user.None?)
    && Short(WrittenStart(body)) && Short(WrittenEnd(body))
  }

  function OwnerGiven(t: Table, body: Body): Option<string> {
    match t
    case Business => body.workspace
    case Workers => body.user
  }

  /** A new row needs a company, an owner and a weekday. */
  predicate Insertable(t: Table, body: Body) {
    Storable(t, body) && body.company.Some? && OwnerGiven(t, body).Some? && body.weekDay.Some?
  }

  ghost predicate IsNew(t: Table, body: Body, row: Row) {
    && OwnerGiven(t, body) == Some(row.owner) && body.weekDay == Some(row.weekDay)
    && row.start == WrittenStart(body) && row.end == WrittenEnd(body)
    && (row.closed <==> body.closed == Some(true))
  }

  /**
  Each column has what is given for it and otherwise what it had; a time given as null, or on a closed day,
  is cleared.
  */
  ghost predicate IsPatched(t: Table, body: Body, was: Row, row: Row) {
    && (if OwnerGiven(t, body).Some? then OwnerGiven(t, body) == Some(row.owner) else row.owner == was.owner)
    && (if body.weekDay.Some? then body.weekDay == Some(row.weekDay) else row.weekDay == was.weekDay)
    && (if body.closed.Some? then body.closed == Some(row.closed) else row.closed == was.closed)
    && (if body.closed == Some(true) then row.start.None? && row.end.None?
        else
          && (if body.start.Some? then row.start == WrittenStart(body)
              else row.start == if body.nullStart then None else was.start)
          && (if body.end.Some? then row.end == WrittenEnd(body)
              else row.end == if body.nullEnd then None else was.end))
  }

  /** Of both tables only what the body takes is gone, and `id` in table `t` holds the row. */
  ghost predicate OnlyTakenAndWritten(db: Db, body: Body, t: Table, id: Id, row: Row, db': Db) {
    forall u ::
      && (forall r :: r in TableOf(db', u) <==> Spared(db, u, body, r) || (u == t && r == id))
      && (forall r :: r in TableOf(db', u) ==>
            TableOf(db', u)[r] == if u == t && r == id then row else TableOf(db, u)[r])
  }

  /** A business write drops the entry of the workspace that the body names, and nothing else does. */
  ghost predicate OnlyNamedDropped(db: Db, body: Body, t: Table, db': Db) {
    && (forall ws :: ws in db'.cache <==> ws in db.cache && !(t == Business && body.workspace == Some(ws)))
    && (forall ws :: ws in db'.cache ==> db'.cache[ws] == db.cache[ws])
  }

  lemma StoreEffect(db: Db, t: Table, id: Id, row: Row, body: Body)
    requires Prepare(body).Some?
    ensures var b := Prepare(body).value; var db' := Store(Cleaned(db, b), t, id, row, b);
            OnlyTakenAndWritten(db, body, t, id, row, db') && OnlyNamedDropped(db, body, t, db')
  {
    PrepareKeeps(body);
    CleanedMeans(db, body);
  }

  /** The id of a row that is added: the one given, or one that was never given out. */
  predicate IsIdFor(db: Db, body: Body, id: Id) {
    if body.id.Some? then body.id == Some(id) else id == db.nextId
  }

  lemma AddWritesMeans(db: Db, t: Table, body: Body, id: Id)
    requires IsIdFor(db, body, id)
    ensures AddWrites(db, t, body) <==>
            && !Unreadable(body) && !Refuses(db, body, body.id, Overlap)
            && Insertable(t, body) && !Spared(db, t, body, id)
    ensures AddWrites(db, t, body) ==> IsNew(t, body, NewRow(t, Prepare(body).value))
  {
    PreparedMeans(body);
    if Prepare(body).Some? {
      CleanedMeans(db, body);
      BlockedMeans(TableOf(db, Branch(body)), body, body.id);
    }
  }

  /**
  An add is done exactly if it is not refused, the body has what a row needs and the id is free once the
  rows it takes are gone. Then the row holds what was given; otherwise only the rows it takes are gone.
  */
  lemma AddEffect(db: Db, t: Table, body: Body, id: Id)
    requires Accepted(t, body) && IsIdFor(db, body, id)
    ensures var (after, o) := Add(db, t, body);
            && (o == BadTime <==> Unreadable(body))
            && (o == Overlap <==> Refuses(db, body, body.id, Overlap))
            && (o == Done <==>
                 && !Unreadable(body) && !Refuses(db, body, body.id, Overlap)
                 && Insertable(t, body) && !Spared(db, t, body, id))
            && (o != Done ==>
                 after.cache == db.cache && if Unreadable(body) then after == db else OnlyTaken(db, body, after))
            && (o == Done ==>
                 && OnlyNamedDropped(db, body, t, after)
                 && exists row :: IsNew(t, body, row) && OnlyTakenAndWritten(db, body, t, id, row, after))
  {
    AddExact(db, t, body);
    PipelineEffect(db, body, body.id);
    PipelineExact(db, body, body.id);
    AddWritesMeans(db, t, body, id);
    if AddWrites(db, t, body) {
      StoreEffect(db, t, id, NewRow(t, Prepare(body).value), body);
    }
  }

  // ----- Updates

  /** The worker route finds no row of the user and weekday that the body names, among those it spares. */
  ghost predicate NoneToUpdate(db: Db, t: Table, body: Body) {
    t == Workers && forall r :: Spared(db, Workers, body, r) ==>
      !((body.user.Some? ==> body.user == Some(db.workers[r].owner))
        && (body.weekDay.Some? ==> body.weekDay == Some(db.workers[r].weekDay)))
  }

  lemma CreatingMeans(db: Db, t: Table, body: Body)
    requires Prepare(body).Some?
    ensures Creating(db, t, Prepare(body).value) <==> NoneToUpdate(db, t, body)
  {
    PrepareKeeps(body);
    CleanedMeans(db, body);
    forall r ensures Left(db, Workers, Prepare(body).value, r) <==> Spared(db, Workers, body, r) {
    }
  }

  /** The row that an update writes: a new one where there is none to update, else the stored one patched. */
  ghost predicate IsWritten(db: Db, t: Table, id: Id, body: Body, row: Row) {
    if NoneToUpdate(db, t, body) then IsNew(t, body, row)
    else id in TableOf(db, t) && IsPatched(t, body, TableOf(db, t)[id], row)
  }

  lemma WrittenMeans(db: Db, t: Table, id: Id, body: Body)
    requires UpdateWrites(db, t, id, body)
    ensures IsWritten(db, t, id, body, Written(db, t, id, body))
  {
    PreparedMeans(body);
    CreatingMeans(db, t, body);
  }

  /**
  An update is done exactly if it is not refused and its row is still there once the rows that the body
  takes are gone, or, on the worker route with no row to update, if a new row can be made under its id.
  */
  lemma UpdateEffect(db: Db, t: Table, id: Id, body: Body)
    ensures var (after, o) := Update(db, t, id, body);
            && (o == BadTime <==> Unreadable(body))
            && (o == Overlap <==> Refuses(db, body, Some(id), Overlap))
            && (o == Done <==>
                 && !Unreadable(body) && !Refuses(db, body, Some(id), Overlap)
                 && if NoneToUpdate(db, t, body) then Insertable(t, body) && !Spared(db, t, body, id)
                    else Storable(t, body) && Spared(db, t, body, id))
            && (o != Done ==>
                 after.cache == db.cache && if Unreadable(body) then after == db else OnlyTaken(db, body, after))
            && (o == Done ==>
                 && OnlyNamedDropped(db, body, t, after)
                 && exists row :: IsWritten(db, t, id, body, row) && OnlyTakenAndWritten(db, body, t, id, row, after))
  {
    UpdateExact(db, t, id, body);
    PipelineEffect(db, body, Some(id));
    PreparedMeans(body);
    if Prepare(body).Some? {
      CleanedMeans(db, body);
      CreatingMeans(db, t, body);
      PipelineExact(db, body, Some(id));
      if UpdateWrites(db, t, id, body) {
        StoreEffect(db, t, id, Written(db, t, id, body), body);
        WrittenMeans(db, t, id, body);
      }
    }
  }

  // ----- Deletions

  /** The workspace has a listed row that the body spares. */
  ghost predicate LosesListed(db: Db, t: Table, body: Body, ids: set<Id>, ws: string) {
    t == Business && exists r :: r in ids && Spared(db, Business, body, r) && db.business[r].owner == ws
  }

  /**
  A deletion that is not refused removes exactly the listed rows of its own table besides the rows that the
  body takes, and drops the entries of the workspaces that lose a listed row; a refused one removes no row
  for being listed.
  */
  lemma DeleteEffect(db: Db, t: Table, body: Body, ids: set<Id>)
    ensures var (after, o) := Delete(db, t, body, ids);
            && (o == BadTime <==> Unreadable(body))
            && (o == Overlap <==> Refuses(db, body, body.id, Overlap))
            && (o != Done <==> Unreadable(body) || Refuses(db, body, body.id, Overlap))
            && (o != Done ==>
                 after.cache == db.cache && if Unreadable(body) then after == db else OnlyTaken(db, body, after))
            && (o == Done ==> forall u ::
                 && (forall r :: r in TableOf(after, u) <==> Spared(db, u, body, r) && !(u == t && r in ids))
                 && (forall r :: r in TableOf(after, u) ==> TableOf(after, u)[r] == TableOf(db, u)[r]))
            && (o == Done ==>
                 && (forall ws :: ws in after.cache <==> ws in db.cache && !LosesListed(db, t, body, ids, ws))
                 && (forall ws :: ws in after.cache ==> after.cache[ws] == db.cache[ws]))
  {
    PipelineEffect(db, body, body.id);
    var c := Pipeline(db, body, body.id);
    if c.Go? {
      forall ws ensures t == Business ==> (ws in Owners(c.db.business, ids) <==> LosesListed(db, t, body, ids, ws)) {
        OwnersMeans(db, body, c.db, ids, ws);
      }
    }
  }

  lemma OwnersMeans(db: Db, body: Body, clean: Db, ids: set<Id>, ws: string)
    requires OnlyTaken(db, body, clean)
    ensures ws in Owners(clean.business, ids) <==> LosesListed(db, Business, body, ids, ws)
  {
    assert forall r :: r in TableOf(clean, Business) <==> Spared(db, Business, body, r);
    if r :| r in ids && Spared(db, Business, body, r) && db.business[r].owner == ws {
      assert r in TableOf(clean, Business) && clean.business[r].owner == ws;
    }
    if ws in Owners(clean.business, ids) {
      var r :| r in ids && r in clean.business && clean.business[r].owner == ws;
      assert r in TableOf(clean, Business);
    }
  }

  // ----- Generation

  /** The drafts as rows: closed ones without times, open ones with theirs in normal form. */
  predicate IsDrafted(ws: string, d: Draft, row: Row) {
    && row.owner == ws && row.weekDay == d.weekDay && row.closed == d.closed
    && (if d.closed then row.start.None? && row.end.None?
        else
          && d.start.Some? && d.end.Some? && row.start.Some? && row.end.Some?
          && row.start == ToHHmm(d.start.value) && row.end == ToHHmm(d.end.value))
  }

  /** The draft can become a row: closed, or with two times that can be read, in text order. */
  predicate Draftable(d: Draft) {
    d.closed ||
    (&& d.start.Some? && d.end.Some? && d.start != Some("") && d.end != Some("")
     && ToHHmm(d.start.value).Some? && ToHHmm(d.end.value).Some?
     && TextLess(ToHHmm(d.start.value).value, ToHHmm(d.end.value).value))
  }

  /** No weekday has both a closed and an open draft. */
  predicate Unmixed(ds: seq<Draft>) {
    forall i, j :: 0 <= i < |ds| && 0 <= j < |ds| && ds[i].weekDay == ds[j].weekDay ==> ds[i].closed == ds[j].closed
  }

  lemma {:induction false} DraftedMeans(ws: string, ds: seq<Draft>)
    ensures NormalizeEach(ws, ds).Some? <==> forall i :: 0 <= i < |ds| ==> Draftable(ds[i])
    ensures NormalizeEach(ws, ds).Some? ==>
              var rows := NormalizeEach(ws, ds).value;
              |rows| == |ds| && forall i :: 0 <= i < |ds| ==> IsDrafted(ws, ds[i], rows[i])
    decreases |ds|
  {
    if ds != [] {
      var n := |ds| - 1;
      DraftedMeans(ws, ds[..n]);
      forall i | 0 <= i < n ensures Draftable(ds[..n][i]) <==> Draftable(ds[i]) {
      }
    }
  }

  lemma MixedMeans(ws: string, ds: seq<Draft>)
    requires NormalizeEach(ws, ds).Some?
    ensures MixesDay(NormalizeEach(ws, ds).value) <==> !Unmixed(ds)
  {
    DraftedMeans(ws, ds);
    var rows := NormalizeEach(ws, ds).value;
    forall i | 0 <= i < |rows| ensures rows[i].weekDay == ds[i].weekDay && rows[i].closed == ds[i].closed {
      assert IsDrafted(ws, ds[i], rows[i]);
    }
    if i, j :| 0 <= i < |ds| && 0 <= j < |ds| && ds[i].weekDay == ds[j].weekDay && ds[i].closed && !ds[j].closed {
      assert rows[i].closed && !rows[j].closed && rows[i].weekDay == rows[j].weekDay;
    }
  }

  /** Nothing but one entry of the cache may be gone. */
  ghost predicate OnlyEntryDropped(db: Db, ws: string, db': Db) {
    && (forall other :: other in db'.cache <==> other in db.cache && other != ws)
    && (forall other :: other in db'.cache ==> db'.cache[other] == db.cache[other])
  }

  lemma NormalizeMeans(ws: string, ds: seq<Draft>)
    ensures Normalize(ws, ds).Some? <==> (forall i :: 0 <= i < |ds| ==> Draftable(ds[i])) && Unmixed(ds)
    ensures Normalize(ws, ds).Some? ==> Normalize(ws, ds) == NormalizeEach(ws, ds)
  {
    DraftedMeans(ws, ds);
    if NormalizeEach(ws, ds).Some? {
      MixedMeans(ws, ds);
    }
  }

  /**
  Generating a schedule for drafts fails without company or workspace, changes no row if the workspace has
  some, is refused if a draft cannot become a row or a day is mixed, and otherwise adds rows.
  */
  lemma GenerateEffect(db: Db, company: string, ws: string, ds: seq<Draft>)
    requires ds != []
    ensures var (after, o) := Generate(db, company, ws, ds);
            var has := exists r :: r in db.business && db.business[r].owner == ws;
            && (o == Done <==>
                 && company != "" && ws != ""
                 && (has || ((forall i :: 0 <= i < |ds| ==> Draftable(ds[i])) && Unmixed(ds))))
            && (o != Done ==> o == Failed && after == db)
            && (o == Done ==> after.workers == db.workers && OnlyEntryDropped(db, ws, after))
            && (has ==> after.business == db.business)
  {
    NormalizeMeans(ws, ds);
  }

  lemma GeneratedTable(db: Db, company: string, ws: string, ds: seq<Draft>)
    requires ds != [] && Generate(db, company, ws, ds).1 == Done
    requires forall r :: r in db.business ==> db.business[r].owner != ws
    ensures NormalizeEach(ws, ds).Some?
    ensures Generate(db, company, ws, ds).0.business == Created(db.business, db.nextId, NormalizeEach(ws, ds).value)
  {
    NormalizeMeans(ws, ds);
  }

  /** The rows that are added: one for each draft, under new ids; `r` is any of them. */
  lemma GeneratedRows(db: Db, company: string, ws: string, ds: seq<Draft>, rows: Rows, r: Id)
    requires ds != [] && Generate(db, company, ws, ds).1 == Done && rows == Generate(db, company, ws, ds).0.business
    requires forall q :: q in db.business ==> db.business[q].owner != ws
    requires db.nextId <= r < db.nextId + |ds|
    ensures forall q :: q in rows <==> q in db.business || db.nextId <= q < db.nextId + |ds|
    ensures forall q :: q in db.business && q < db.nextId ==> rows[q] == db.business[q]
    ensures IsDrafted(ws, ds[r - db.nextId], rows[r])
  {
    GeneratedTable(db, company, ws, ds);
    RowsFor(db.business, db.nextId, ws, ds, rows, r);
  }

  lemma RowsFor(before: Rows, from: Id, ws: string, ds: seq<Draft>, rows: Rows, r: Id)
    requires NormalizeEach(ws, ds).Some? && rows == Created(before, from, NormalizeEach(ws, ds).value)
    requires from <= r < from + |ds|
    ensures forall q :: q in rows <==> q in before || from <= q < from + |ds|
    ensures forall q :: q in before && q < from ==> rows[q] == before[q]
    ensures IsDrafted(ws, ds[r - from], rows[r])
  {
    DraftedAt(ws, ds, r - from);
    CreatedRow(before, from, ds, NormalizeEach(ws, ds).value, r);
  }

  lemma DraftedAt(ws: string, ds: seq<Draft>, i: nat)
    requires NormalizeEach(ws, ds).Some? && i < |ds|
    ensures var rows := NormalizeEach(ws, ds).value; |rows| == |ds| && IsDrafted(ws, ds[i], rows[i])
  {
    DraftedMeans(ws, ds);
  }

  lemma CreatedRow(rows: Rows, from: Id, ds: seq<Draft>, added: seq<Row>, r: Id)
    requires |added| == |ds| && from <= r < from + |ds|
    ensures var m := Created(rows, from, added);
            && m[r] == added[r - from]
            && (forall q :: q in m <==> q in rows || from <= q < from + |ds|)
            && (forall q :: q in rows && q < from ==> m[q] == rows[q])
  {
  }

  /** Without drafts a workspace that has no rows gets the default schedule. */
  lemma GenerateDefault(db: Db, company: string, ws: string, i: nat)
    requires company != "" && ws != "" && i < 12 && forall r :: r in db.business ==> db.business[r].owner != ws
    ensures var (after, o) := Generate(db, company, ws, []);
            && o == Done && OnlyEntryDropped(db, ws, after) && after.workers == db.workers
            && (forall r :: r in after.business <==> r in db.business || db.nextId <= r < db.nextId + 12)
            && after.business[db.nextId + i] ==
                 (if i == 11 then Row(ws, SUNDAY, None, None, true)
                  else if i == 10 then Row(ws, SATURDAY, Some("10:00"), Some("14:00"), false)
                  else Row(ws, [MONDAY, TUESDAY, WEDNESDAY, THURSDAY, FRIDAY][i / 2],
                           Some(if i % 2 == 0 then "09:00" else "15:00"),
                           Some(if i % 2 == 0 then "13:00" else "20:00"), false))
  {
    DefaultAt(ws, i);
  }
}
