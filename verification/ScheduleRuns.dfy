/** Runs of schedule requests: when days stay well formed and cached views true all along. */
module ScheduleRuns {
  import opened Wrappers
  import opened Runs
  import opened Schedule
  import opened ScheduleDays
  import opened ScheduleCache

  datatype Action =
    | AddRow(table: Table, body: Body)
    | UpdateRow(table: Table, id: Id, body: Body)
    | DeleteBy(table: Table, body: Body, ids: set<Id>)
    | GenerateFor(company: string, ws: string, drafts: seq<Draft>)
    | Read(ws: string)
    | Expire(ws: string)

  ghost predicate ReadStep(db: Db, ws: string, db': Db) {
    if ws in db.cache then db' == db
    else
      exists list ::
        Lists(list, db.business, ws) && db' == db.(cache := db.cache[ws := Fold(RowsAt(list, db.business))])
  }

  ghost predicate Step(db: Db, act: Action, db': Db) {
    match act
    case AddRow(t, body) => Accepted(t, body) && db' == Add(db, t, body).0
    case UpdateRow(t, id, body) => db' == Update(db, t, id, body).0
    case DeleteBy(t, body, ids) => db' == Delete(db, t, body, ids).0
    case GenerateFor(company, ws, drafts) => db' == Generate(db, company, ws, drafts).0
    case Read(ws) => ReadStep(db, ws, db')
    case Expire(ws) => db' == db.(cache := db.cache - {ws})
  }

  ghost function StepRelation(): (Db, Action, Db) -> bool {
    (db, act, db') => Step(db, act, db')
  }

  lemma PipelineKeepsIds(db: Db, body: Body, self: Option<Id>)
    requires IdsFresh(db)
    ensures var db' := Pipeline(db, body, self).db; IdsFresh(db') && db'.nextId == db.nextId
  {
  }

  lemma StepKeepsIds(db: Db, act: Action, db': Db)
    requires IdsFresh(db) && Step(db, act, db')
    ensures IdsFresh(db')
  {
    match act
    case AddRow(t, body) =>
      AddExact(db, t, body);
      PipelineKeepsIds(db, body, body.id);
      if AddWrites(db, t, body) {
        var b := Prepare(body).value;
        PipelineExact(db, body, body.id);
      }
    case UpdateRow(t, id, body) =>
      UpdateExact(db, t, id, body);
      PipelineKeepsIds(db, body, Some(id));
      if UpdateWrites(db, t, id, body) {
        var b := Prepare(body).value;
        PipelineExact(db, body, Some(id));
      }
    case DeleteBy(t, body, ids) => PipelineKeepsIds(db, body, body.id);
    case GenerateFor(company, ws, drafts) =>
    case Read(ws) =>
    case Expire(ws) =>
  }

  lemma RunIdsFresh(dbs: seq<Db>, acts: seq<Action>)
    requires IsRun(StepRelation(), dbs, acts) && IdsFresh(dbs[0])
    ensures forall i :: 0 <= i < |dbs| ==> IdsFresh(dbs[i])
  {
    var inv := (db: Db) => IdsFresh(db);
    forall i | 0 <= i < |acts| && inv(dbs[i]) && StepRelation()(dbs[i], acts[i], dbs[i + 1]) ensures inv(dbs[i + 1]) {
      StepKeepsIds(dbs[i], acts[i], dbs[i + 1]);
    }
    RunInvariant(StepRelation(), inv, dbs, acts);
    forall i | 0 <= i < |dbs| ensures IdsFresh(dbs[i]) {
      assert inv(dbs[i]);
    }
  }

  // ----- Views

  lemma ReadKeepsCache(db: Db, ws: string, db': Db)
    requires CacheAgrees(db) && ReadStep(db, ws, db')
    ensures CacheAgrees(db') && db'.business == db.business && ws in db'.cache && Shows(db'.cache[ws], db.business, ws)
  {
    if ws !in db.cache {
      var list :| Lists(list, db.business, ws) && db' == db.(cache := db.cache[ws := Fold(RowsAt(list, db.business))]);
      FoldShows(list, db.business, ws);
    }
  }

  /** Exactly when a step leaves every cached view true, told from the request and the rows stored. */
  ghost predicate KeepsViews(db: Db, act: Action) {
    match act
    case AddRow(t, body) => AddKeepsViews(db, t, body)
    case UpdateRow(t, id, body) => UpdateKeepsViews(db, t, id, body)
    case DeleteBy(t, body, ids) => DeleteKeepsViews(db, t, body, ids)
    case _ => true
  }

  lemma StepCacheExact(db: Db, act: Action, db': Db)
    requires CacheAgrees(db) && IdsFresh(db) && Step(db, act, db')
    ensures CacheAgrees(db') <==> KeepsViews(db, act)
  {
    match act
    case AddRow(t, body) => AddCacheExact(db, t, body);
    case UpdateRow(t, id, body) => UpdateCacheExact(db, t, id, body);
    case DeleteBy(t, body, ids) => DeleteCacheExact(db, t, body, ids);
    case GenerateFor(company, ws, drafts) => GenerateKeepsCache(db, company, ws, drafts);
    case Read(ws) => ReadKeepsCache(db, ws, db');
    case Expire(ws) =>
  }

  /**
  Over any run of adds, updates and deletions on both routes, refused and failing ones too, and of
  generations, reads and expiries, every cached view agrees with the rows all along exactly if no
  request closes or changes what a view that it does not drop shows.
  */
  lemma RunCacheExact(dbs: seq<Db>, acts: seq<Action>)
    requires IsRun(StepRelation(), dbs, acts) && CacheAgrees(dbs[0]) && IdsFresh(dbs[0])
    ensures (forall i :: 0 <= i < |dbs| ==> CacheAgrees(dbs[i])) <==>
            (forall i :: 0 <= i < |acts| ==> KeepsViews(dbs[i], acts[i]))
  {
    RunIdsFresh(dbs, acts);
    forall i | 0 <= i < |acts| && CacheAgrees(dbs[i]) ensures CacheAgrees(dbs[i + 1]) <==> KeepsViews(dbs[i], acts[i]) {
      assert StepRelation()(dbs[i], acts[i], dbs[i + 1]);
      StepCacheExact(dbs[i], acts[i], dbs[i + 1]);
    }
    var inv, cond := (db: Db) => CacheAgrees(db), (db, act) => KeepsViews(db, act);
    RunExact(StepRelation(), inv, cond, dbs, acts);
    assert forall i :: 0 <= i < |dbs| ==> inv(dbs[i]) == CacheAgrees(dbs[i]);
    assert forall i :: 0 <= i < |acts| ==> cond(dbs[i], acts[i]) == KeepsViews(dbs[i], acts[i]);
  }

  /**
  A cached view that agrees with the rows equals, up to the order of ranges, what any fresh fold over them
  would build.
  */
  lemma AgreesIsFreshFold(db: Db, ws: string, list: seq<Id>)
    requires CacheAgrees(db) && ws in db.cache && Lists(list, db.business, ws)
    ensures var folded := Fold(RowsAt(list, db.business));
            db.cache[ws].Keys == folded.Keys && forall d :: d in folded ==>
                multiset(db.cache[ws][d]) == multiset(folded[d])
  {
    FoldShows(list, db.business, ws);
    ShowsUnique(db.cache[ws], Fold(RowsAt(list, db.business)), db.business, ws);
  }

  // ----- Days

  /** Exactly when a step keeps days well formed, told from the request and the rows stored. */
  ghost predicate KeepsDays(db: Db, act: Action) {
    match act
    case AddRow(t, body) => AddKeepsDays(db, t, body)
    case UpdateRow(t, id, body) => UpdateKeepsDays(db, t, id, body)
    case GenerateFor(company, ws, drafts) => GenerateKeepsDays(db, company, ws, drafts)
    case _ => true
  }

  lemma StepWellFormedExact(db: Db, act: Action, db': Db)
    requires DaysOk(db) && IdsFresh(db) && Step(db, act, db')
    ensures DaysOk(db') <==> KeepsDays(db, act)
  {
    match act
    case AddRow(t, body) => AddWellFormedExact(db, t, body);
    case UpdateRow(t, id, body) => UpdateWellFormedExact(db, t, id, body);
    case DeleteBy(t, body, ids) => DeleteKeepsDays(db, t, body, ids);
    case GenerateFor(company, ws, drafts) => GenerateWellFormedExact(db, company, ws, drafts);
    case Read(ws) =>
    case Expire(ws) =>
  }

  /**
  Over any such run every day of every workspace and worker is well formed all along exactly if no add is
  written unchecked, every update keeps the days, and no schedule is generated from overlapping drafts.
  */
  lemma RunWellFormed(dbs: seq<Db>, acts: seq<Action>)
    requires IsRun(StepRelation(), dbs, acts) && DaysOk(dbs[0]) && IdsFresh(dbs[0])
    ensures (forall i :: 0 <= i < |dbs| ==> DaysOk(dbs[i])) <==>
            (forall i :: 0 <= i < |acts| ==> KeepsDays(dbs[i], acts[i]))
  {
    RunIdsFresh(dbs, acts);
    forall i | 0 <= i < |acts| && DaysOk(dbs[i]) ensures DaysOk(dbs[i + 1]) <==> KeepsDays(dbs[i], acts[i]) {
      assert StepRelation()(dbs[i], acts[i], dbs[i + 1]);
      StepWellFormedExact(dbs[i], acts[i], dbs[i + 1]);
    }
    var inv, cond := (db: Db) => DaysOk(db), (db, act) => KeepsDays(db, act);
    RunExact(StepRelation(), inv, cond, dbs, acts);
    assert forall i :: 0 <= i < |dbs| ==> inv(dbs[i]) == DaysOk(dbs[i]);
    assert forall i :: 0 <= i < |acts| ==> cond(dbs[i], acts[i]) == KeepsDays(dbs[i], acts[i]);
  }
}
