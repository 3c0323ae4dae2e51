/** What requests do to the cached views of workspaces: when a view still agrees with the rows. */
module ScheduleCache {
  import opened Wrappers
  import opened FiniteSets
  import opened Schedule
  import opened ScheduleDays

  // ----- The fold shows the rows

  lemma PutCount(view: View, d: WeekDay, range: Range, d': WeekDay, range': Range)
    ensures ViewCount(Put(view, d, range), d', range') ==
            ViewCount(view, d', range') + if d == d' && range == range' then 1 else 0
  {
    if d in view {
      assert multiset(view[d] + [range]) == multiset(view[d]) + multiset{range};
    } else {
      assert [] + [range] == [range];
    }
  }

  ghost function OffersIn(list: seq<Id>, rows: Rows, ws: string, d: WeekDay, range: Range): set<Id>
    requires forall r :: r in list ==> r in rows
  {
    set r | r in list && Offers(rows[r], ws, d, range)
  }

  lemma OffersPush(front: seq<Id>, r: Id, rows: Rows, ws: string, d: WeekDay, range: Range)
    requires r in rows && r !in front && forall x :: x in front ==> x in rows
    ensures |OffersIn(front + [r], rows, ws, d, range)|
         == |OffersIn(front, rows, ws, d, range)| + if Offers(rows[r], ws, d, range) then 1 else 0
  {
    var before := OffersIn(front, rows, ws, d, range);
    var all := OffersIn(front + [r], rows, ws, d, range);
    if Offers(rows[r], ws, d, range) {
      assert all == before + {r};
    } else {
      assert all == before;
    }
  }

  lemma FoldPush(front: seq<Id>, r: Id, rows: Rows)
    requires r in rows && forall x :: x in front ==> x in rows
    ensures Fold(RowsAt(front + [r], rows)) ==
            if rows[r].closed then Fold(RowsAt(front, rows))
            else Put(Fold(RowsAt(front, rows)), rows[r].weekDay, (rows[r].start, rows[r].end))
  {
    var all := RowsAt(front + [r], rows);
    assert all[..|all| - 1] == RowsAt(front, rows) && all[|all| - 1] == rows[r];
  }

  lemma {:induction false} FoldCounts(list: seq<Id>, rows: Rows, ws: string, d: WeekDay, range: Range)
    requires forall i, j :: 0 <= i < j < |list| ==> list[i] != list[j]
    requires forall r :: r in list ==> r in rows && rows[r].owner == ws
    ensures ViewCount(Fold(RowsAt(list, rows)), d, range) == |OffersIn(list, rows, ws, d, range)|
    ensures forall e :: e in Fold(RowsAt(list, rows)) ==> Fold(RowsAt(list, rows))[e] != []
    decreases |list|
  {
    if list == [] {
    } else {
      var n := |list| - 1;
      var r, front := list[n], list[..n];
      assert list == front + [r];
      assert r !in front;
      FoldCounts(front, rows, ws, d, range);
      OffersPush(front, r, rows, ws, d, range);
      FoldPush(front, r, rows);
      PutCount(Fold(RowsAt(front, rows)), rows[r].weekDay, (rows[r].start, rows[r].end), d, range);
    }
  }

  /** Whatever order the store lists the rows in, the fold shows them. */
  lemma FoldShows(list: seq<Id>, rows: Rows, ws: string)
    requires Lists(list, rows, ws)
    ensures Shows(Fold(RowsAt(list, rows)), rows, ws)
  {
    forall d, range ensures ViewCount(Fold(RowsAt(list, rows)), d, range) == RowCount(rows, ws, d, range) {
      FoldCounts(list, rows, ws, d, range);
      assert OffersIn(list, rows, ws, d, range) == RowsOffering(rows, ws, d, range);
    }
    FoldCounts(list, rows, ws, MONDAY, (None, None));
  }

  /** Two views that show the same rows are equal up to the order of ranges. */
  lemma ShowsUnique(a: View, b: View, rows: Rows, ws: string)
    requires Shows(a, rows, ws) && Shows(b, rows, ws)
    ensures a.Keys == b.Keys
    ensures forall d :: d in a ==> multiset(a[d]) == multiset(b[d])
  {
    forall d ensures d in a <==> d in b {
      if d in a {
        assert ViewCount(a, d, a[d][0]) > 0 && ViewCount(b, d, a[d][0]) > 0 by {
          assert a[d][0] in multiset(a[d]);
          assert ViewCount(a, d, a[d][0]) == RowCount(rows, ws, d, a[d][0]) == ViewCount(b, d, a[d][0]);
        }
      }
      if d in b {
        assert ViewCount(b, d, b[d][0]) > 0 && ViewCount(a, d, b[d][0]) > 0 by {
          assert b[d][0] in multiset(b[d]);
          assert ViewCount(a, d, b[d][0]) == RowCount(rows, ws, d, b[d][0]) == ViewCount(b, d, b[d][0]);
        }
      }
    }
    forall d | d in a ensures multiset(a[d]) == multiset(b[d]) {
      forall range ensures multiset(a[d])[range] == multiset(b[d])[range] {
        assert ViewCount(a, d, range) == RowCount(rows, ws, d, range) == ViewCount(b, d, range);
      }
    }
  }

  // ----- The cache agrees with the rows

  ghost predicate CacheAgrees(db: Db) {
    forall ws :: ws in db.cache ==> Shows(db.cache[ws], db.business, ws)
  }

  /** What the row shows readers of the workspace: its day and range, if it is an open row of theirs. */
  function ShownBy(row: Row, ws: string): Option<(WeekDay, Range)> {
    if row.owner == ws && !row.closed then Some((row.weekDay, (row.start, row.end))) else None
  }

  function ShownTo(rows: Rows, r: Id, ws: string): Option<(WeekDay, Range)> {
    if r in rows then ShownBy(rows[r], ws) else None
  }

  lemma OfferingIsShown(rows: Rows, ws: string, d: WeekDay, range: Range, r: Id)
    ensures r in RowsOffering(rows, ws, d, range) <==> ShownTo(rows, r, ws) == Some((d, range))
  {
  }

  /** If one row alone shows something else, the counts of what it showed and of what it shows now differ. */
  lemma OneRowCounts(rows: Rows, rows': Rows, ws: string, id: Id, d: WeekDay, range: Range)
    requires forall r :: r != id ==> ShownTo(rows, r, ws) == ShownTo(rows', r, ws)
    ensures RowCount(rows', ws, d, range) + (if ShownTo(rows, id, ws) == Some((d, range)) then 1 else 0)
         == RowCount(rows, ws, d, range) + (if ShownTo(rows', id, ws) == Some((d, range)) then 1 else 0)
  {
    forall r | r != id ensures r in RowsOffering(rows, ws, d, range) <==> r in RowsOffering(rows', ws, d, range) {
      OfferingIsShown(rows, ws, d, range, r);
      OfferingIsShown(rows', ws, d, range, r);
    }
    DifferAtOne(RowsOffering(rows, ws, d, range), RowsOffering(rows', ws, d, range), id);
    OfferingIsShown(rows, ws, d, range, id);
    OfferingIsShown(rows', ws, d, range, id);
  }

  /** A view of the old rows shows the new ones exactly if that row shows the same. */
  lemma OneRowShows(view: View, rows: Rows, rows': Rows, ws: string, id: Id)
    requires Shows(view, rows, ws) && forall r :: r != id ==> ShownTo(rows, r, ws) == ShownTo(rows', r, ws)
    ensures Shows(view, rows', ws) <==> ShownTo(rows, id, ws) == ShownTo(rows', id, ws)
  {
    var was, now := ShownTo(rows, id, ws), ShownTo(rows', id, ws);
    if was == now {
      forall d, range ensures ViewCount(view, d, range) == RowCount(rows', ws, d, range) {
        OneRowCounts(rows, rows', ws, id, d, range);
        assert ViewCount(view, d, range) == RowCount(rows, ws, d, range);
      }
    } else {
      var (d, range) := if was.Some? then was.value else now.value;
      OneRowCounts(rows, rows', ws, id, d, range);
      assert ViewCount(view, d, range) == RowCount(rows, ws, d, range);
    }
  }

  /** Rows that show nothing new, and one that no longer shows what it did: the view is out of date. */
  lemma LostRowShows(view: View, rows: Rows, rows': Rows, ws: string, lost: Id)
    requires Shows(view, rows, ws)
    requires forall r :: ShownTo(rows', r, ws) == ShownTo(rows, r, ws) || ShownTo(rows', r, ws) == None
    requires ShownTo(rows, lost, ws) != ShownTo(rows', lost, ws)
    ensures !Shows(view, rows', ws)
  {
    var (d, range) := ShownTo(rows, lost, ws).value;
    var before, now := RowsOffering(rows, ws, d, range), RowsOffering(rows', ws, d, range);
    forall r ensures (r in before <==> ShownTo(rows, r, ws) == Some((d, range)))
        && (r in now <==> ShownTo(rows', r, ws) == Some((d, range))) {
      OfferingIsShown(rows, ws, d, range, r);
      OfferingIsShown(rows', ws, d, range, r);
    }
    assert now <= before - {lost} && lost in before;
    SubsetSize(now, before - {lost});
    assert ViewCount(view, d, range) == RowCount(rows, ws, d, range);
  }

  lemma SameShown(view: View, rows: Rows, rows': Rows, ws: string)
    requires Shows(view, rows, ws) && forall r :: ShownTo(rows, r, ws) == ShownTo(rows', r, ws)
    ensures Shows(view, rows', ws)
  {
    OneRowShows(view, rows, rows', ws, 0);
  }

  /** A closing body for business hours selects an open row that readers of the workspace are shown. */
  ghost predicate Closes(db: Db, body: Body, ws: string) {
    && Branch(body) == Business && SaysClosed(body)
    && exists r :: r in db.business && Selects(body, db.business[r]) && ShownTo(db.business, r, ws) != None
  }

  /** A view is still true after the clean-up exactly if that closed nothing it showed. */
  lemma CleanedViewExact(view: View, db: Db, b: Body, ws: string)
    requires Shows(view, db.business, ws)
    ensures Shows(view, Cleaned(db, b).business, ws) <==> !Closes(db, b, ws)
  {
    var rows := Cleaned(db, b).business;
    forall r ensures ShownTo(rows, r, ws) == ShownTo(db.business, r, ws)
        || (ShownTo(rows, r, ws) == None && Closes(db, b, ws)) {
    }
    if Closes(db, b, ws) {
      var r :| r in db.business && Selects(b, db.business[r]) && ShownTo(db.business, r, ws) != None;
      LostRowShows(view, db.business, rows, ws, r);
    } else {
      SameShown(view, db.business, rows, ws);
    }
  }

  /** A body that cannot be read closes nothing. */
  lemma PipelineViewExact(view: View, db: Db, body: Body, self: Option<Id>, ws: string)
    requires Shows(view, db.business, ws)
    ensures Shows(view, Pipeline(db, body, self).db.business, ws) <==> !Closes(db, body, ws)
  {
    PipelineExact(db, body, self);
    if Prepare(body).Some? {
      CleanedViewExact(view, db, Prepare(body).value, ws);
    }
  }

  // ----- Adds

  /**
  Exactly when an add keeps the views: it is written, or it does not close a day of business hours on
  which readers are shown something. Only the failing write of a closing add leaves a view that is out
  of date.
  */
  ghost predicate AddKeepsViews(db: Db, t: Table, body: Body) {
    AddWrites(db, t, body) || forall ws :: ws in db.cache ==> !Closes(db, body, ws)
  }

  lemma AddCacheExact(db: Db, t: Table, body: Body)
    requires CacheAgrees(db) && Accepted(t, body)
    ensures CacheAgrees(Add(db, t, body).0) <==> AddKeepsViews(db, t, body)
  {
    var after := Add(db, t, body).0;
    AddExact(db, t, body);
    if !AddWrites(db, t, body) {
      forall ws | ws in db.cache ensures Shows(db.cache[ws], after.business, ws) <==> !Closes(db, body, ws) {
        PipelineViewExact(db.cache[ws], db, body, body.id, ws);
      }
    } else if t == Business {
      forall ws | ws in after.cache ensures Shows(after.cache[ws], after.business, ws) {
        forall r ensures ShownTo(db.business, r, ws) == ShownTo(after.business, r, ws) {
        }
        SameShown(db.cache[ws], db.business, after.business, ws);
      }
    } else {
      PrepareKeeps(body);
      assert after.business == db.business && after.cache == db.cache;
    }
  }

  // ----- Updates

  /**
  The update leaves what readers of the workspace are shown as it is: it closes nothing they see, and the
  row it patches shows them the same afterwards.
  */
  ghost predicate UpdateKeepsView(db: Db, t: Table, id: Id, body: Body, ws: string) {
    && !Closes(db, body, ws)
    && (t == Business && UpdateWrites(db, t, id, body) ==>
          ShownBy(db.business[id], ws) == ShownBy(Patch(Business, db.business[id], Prepare(body).value), ws))
  }

  /** A business update that is written drops the entry of the workspace it names. */
  ghost predicate UpdateDrops(db: Db, t: Table, id: Id, body: Body, ws: string) {
    t == Business && UpdateWrites(db, t, id, body) && body.workspace == Some(ws)
  }

  ghost predicate UpdateKeepsViews(db: Db, t: Table, id: Id, body: Body) {
    forall ws :: ws in db.cache && !UpdateDrops(db, t, id, body, ws) ==> UpdateKeepsView(db, t, id, body, ws)
  }

  lemma WrittenViewExact(view: View, db: Db, id: Id, body: Body, ws: string)
    requires Shows(view, db.business, ws) && UpdateWrites(db, Business, id, body)
    ensures Shows(view, Update(db, Business, id, body).0.business, ws) <==> UpdateKeepsView(db, Business, id, body, ws)
  {
    var rows := Update(db, Business, id, body).0.business;
    if SaysClosed(body) {
      forall r ensures ShownTo(rows, r, ws) == ShownTo(db.business, r, ws) || ShownTo(rows, r, ws) == None {
      }
      if r :| r in db.business && Selects(body, db.business[r]) && ShownTo(db.business, r, ws) != None {
        LostRowShows(view, db.business, rows, ws, r);
      } else if ShownTo(rows, id, ws) != ShownTo(db.business, id, ws) {
        LostRowShows(view, db.business, rows, ws, id);
      } else {
        forall r ensures ShownTo(db.business, r, ws) == ShownTo(rows, r, ws) {
        }
        SameShown(view, db.business, rows, ws);
      }
    } else {
      forall r | r != id ensures ShownTo(db.business, r, ws) == ShownTo(rows, r, ws) {
      }
      OneRowShows(view, db.business, rows, ws, id);
    }
  }

  lemma UpdateViewExact(view: View, db: Db, t: Table, id: Id, body: Body, ws: string)
    requires Shows(view, db.business, ws)
    ensures Shows(view, Update(db, t, id, body).0.business, ws) <==> UpdateKeepsView(db, t, id, body, ws)
  {
    if t == Business && UpdateWrites(db, t, id, body) {
      WrittenViewExact(view, db, id, body, ws);
    } else {
      UpdateExact(db, t, id, body);
      PipelineViewExact(view, db, body, Some(id), ws);
      PipelineExact(db, body, Some(id));
    }
  }

  lemma UpdatedCache(db: Db, t: Table, id: Id, body: Body)
    ensures var cache := Update(db, t, id, body).0.cache;
            forall ws :: (ws in cache <==> ws in db.cache && !UpdateDrops(db, t, id, body, ws))
                && (ws in cache ==> cache[ws] == db.cache[ws])
  {
    UpdateExact(db, t, id, body);
    if Prepare(body).Some? {
      PrepareKeeps(body);
    }
  }

  /** After any update on either route every cached view is true exactly if each that stays cached is left as it is. */
  lemma UpdateCacheExact(db: Db, t: Table, id: Id, body: Body)
    requires CacheAgrees(db)
    ensures CacheAgrees(Update(db, t, id, body).0) <==> UpdateKeepsViews(db, t, id, body)
  {
    var after := Update(db, t, id, body).0;
    UpdatedCache(db, t, id, body);
    forall ws | ws in after.cache ensures Shows(after.cache[ws], after.business, ws) <==>
        UpdateKeepsView(db, t, id, body, ws) {
      UpdateViewExact(db.cache[ws], db, t, id, body, ws);
    }
  }

  // ----- Deletions

  /**
  A deletion that also closes a day of business hours must delete some other row of each workspace that it
  closes.
  */
  ghost predicate DeleteKeepsViews(db: Db, t: Table, body: Body, ids: set<Id>) {
    forall ws :: ws in db.cache && Closes(db, body, ws) ==> DeleteDrops(db, t, body, ids, ws)
  }

  ghost predicate DeleteDrops(db: Db, t: Table, body: Body, ids: set<Id>, ws: string) {
    t == Business && exists r :: r in ids && Left(db, Business, body, r) && db.business[r].owner == ws
  }

  lemma DeleteCacheExact(db: Db, t: Table, body: Body, ids: set<Id>)
    requires CacheAgrees(db)
    ensures CacheAgrees(Delete(db, t, body, ids).0) <==> DeleteKeepsViews(db, t, body, ids)
  {
    var after := Delete(db, t, body, ids).0;
    var c := Pipeline(db, body, body.id);
    PipelineExact(db, body, body.id);
    forall ws | ws in after.cache ensures Shows(after.cache[ws], after.business, ws) <==> !Closes(db, body, ws) {
      PipelineViewExact(db.cache[ws], db, body, body.id, ws);
      if c.Go? && t == Business {
        forall r ensures ShownTo(c.db.business, r, ws) == ShownTo(after.business, r, ws) {
        }
        SameShownExact(db.cache[ws], c.db.business, after.business, ws);
      }
    }
    if SaysClosed(body) {
      DeleteDropsOwners(db, t, body, ids);
    }
  }

  lemma SameShownExact(view: View, rows: Rows, rows': Rows, ws: string)
    requires forall r :: ShownTo(rows, r, ws) == ShownTo(rows', r, ws)
    ensures Shows(view, rows, ws) <==> Shows(view, rows', ws)
  {
    if Shows(view, rows, ws) {
      SameShown(view, rows, rows', ws);
    }
    if Shows(view, rows', ws) {
      SameShown(view, rows', rows, ws);
    }
  }

  /** A closing deletion drops the entries of the workspaces with a listed row that the clean-up left. */
  lemma DeleteDropsOwners(db: Db, t: Table, body: Body, ids: set<Id>)
    requires SaysClosed(body)
    ensures forall ws :: ws in Delete(db, t, body, ids).0.cache <==>
            ws in db.cache && !DeleteDrops(db, t, body, ids, ws)
  {
    var b := Prepare(body).value;
    PipelineExact(db, body, body.id);
    CleanedTable(db, b, Business);
    forall r ensures Left(db, Business, b, r) <==> Left(db, Business, body, r) {
      assert r in db.business ==> (Removed(db.business[r], b) <==> Removed(db.business[r], body));
    }
    forall ws ensures t == Business ==> (ws in Owners(Cleaned(db, b).business, ids) <==>
        DeleteDrops(db, t, body, ids, ws)) {
      if t == Business && ws in Owners(Cleaned(db, b).business, ids) {
        var r :| r in ids && r in Cleaned(db, b).business && Cleaned(db, b).business[r].owner == ws;
        assert Left(db, Business, body, r);
      }
    }
  }

  // ----- Generation and reading

  lemma CreatedKeepsCache(db: Db, ws: string, added: seq<Row>)
    requires CacheAgrees(db) && IdsFresh(db) && forall i :: 0 <= i < |added| ==> added[i].owner == ws
    ensures forall other :: other in db.cache && other != ws ==>
              Shows(db.cache[other], Created(db.business, db.nextId, added), other)
  {
    forall other | other in db.cache && other != ws
        ensures Shows(db.cache[other], Created(db.business, db.nextId, added), other) {
      forall r ensures ShownTo(db.business, r, other) == ShownTo(Created(db.business, db.nextId, added), r, other) {
      }
      SameShown(db.cache[other], db.business, Created(db.business, db.nextId, added), other);
    }
  }

  lemma GenerateKeepsCache(db: Db, company: string, ws: string, ds: seq<Draft>)
    requires CacheAgrees(db) && IdsFresh(db)
    ensures CacheAgrees(Generate(db, company, ws, ds).0)
  {
    if company != "" && ws != "" && !HasRows(db.business, ws) {
      if ds == [] {
        CreatedKeepsCache(db, ws, DefaultSchedule(ws));
      } else if Normalize(ws, ds).Some? {
        NormalizeSound(ws, ds);
        CreatedKeepsCache(db, ws, Normalize(ws, ds).value);
      }
    }
  }

  // ----- What this means for single requests

  /**
  A business update that names its row's workspace keeps every view true, unless it closes the day and is
  not written.
  */
  lemma UpdateKeepsCache(db: Db, id: Id, body: Body, ws: string)
    requires CacheAgrees(db) && body.workspace == Some(ws) && (id in db.business ==> db.business[id].owner == ws)
    requires SaysClosed(body) ==> UpdateWrites(db, Business, id, body)
    ensures CacheAgrees(Update(db, Business, id, body).0)
  {
    UpdateCacheExact(db, Business, id, body);
    if Prepare(body).Some? {
      PrepareKeeps(body);
    }
  }

  /**
  Without the workspace no entry is dropped: a view of the row's workspace stays true exactly if the row
  goes on to show the same.
  */
  lemma OmittedWorkspaceExact(db: Db, id: Id, body: Body, ws: string)
    requires CacheAgrees(db) && body.workspace.None? && !SaysClosed(body) && UpdateWrites(db, Business, id, body)
    requires id in db.business && db.business[id].owner == ws
    ensures CacheAgrees(Update(db, Business, id, body).0) <==>
            ws !in db.cache || ShownBy(db.business[id], ws) ==
                ShownBy(Patch(Business, db.business[id], Prepare(body).value), ws)
  {
    UpdateCacheExact(db, Business, id, body);
    PrepareKeeps(body);
    forall other | other in db.cache
      ensures UpdateKeepsView(db, Business, id, body, other) <==>
              (other == ws ==>
                  ShownBy(db.business[id], ws) == ShownBy(Patch(Business, db.business[id], Prepare(body).value), ws)) {
    }
  }

  /** An update that hands an open row to another workspace leaves the first one's entry, which still shows it. */
  lemma MovedWorkspaceStale(db: Db, id: Id, body: Body, ws: string, other: string)
    requires CacheAgrees(db) && UpdateWrites(db, Business, id, body) && body.workspace == Some(other) && other != ws
    requires ws in db.cache && ShownTo(db.business, id, ws) != None
    ensures !CacheAgrees(Update(db, Business, id, body).0)
  {
    UpdateCacheExact(db, Business, id, body);
    PrepareKeeps(body);
    assert !UpdateDrops(db, Business, id, body, ws) && !UpdateKeepsView(db, Business, id, body, ws);
  }

  /**
  Such a request, from an empty cache in two steps: the view of the workspace is read, then the row is given
  away.
  */
  lemma RowToGiveAway(ws: string, other: string)
    requires other != ws
    ensures var rows := map[0 := Row(ws, MONDAY, Some("09:00"), Some("10:00"), false)];
            var db := Db(rows, map[], map[ws := Fold(RowsAt([0], rows))], 1);
            var body := Body(None, None, None, Some(other), None, None, None, None, false, false, false);
            CacheAgrees(db) && UpdateWrites(db, Business, 0, body) && ShownTo(db.business, 0, ws) != None
  {
    var rows := map[0 := Row(ws, MONDAY, Some("09:00"), Some("10:00"), false)];
    FoldShows([0], rows, ws);
  }

  /**
  An update sent to the worker route that names no user is cleaned up as one of business hours: views
  stay true exactly if it closes nothing they show. With a user, or if it closes nothing, they always do.
  */
  lemma WorkerUpdateCacheExact(db: Db, id: Id, body: Body)
    requires CacheAgrees(db)
    ensures CacheAgrees(Update(db, Workers, id, body).0) <==> forall ws :: ws in db.cache ==> !Closes(db, body, ws)
    ensures body.user.Some? || !SaysClosed(body) ==> CacheAgrees(Update(db, Workers, id, body).0)
  {
    UpdateCacheExact(db, Workers, id, body);
  }

  /** The body that closes a weekday of a workspace and says no more. */
  function ClosingBody(ws: string, d: WeekDay): Body {
    Body(None, None, None, Some(ws), Some(d), None, None, Some(true), false, false, false)
  }

  ghost predicate OpenOn(rows: Rows, owner: string, d: WeekDay) {
    exists r :: r in rows && rows[r].owner == owner && rows[r].weekDay == d && !rows[r].closed
  }

  /** Sent to the worker route it deletes the business rows of the day and leaves a view that still shows them. */
  lemma WorkerRouteStale(db: Db, id: Id, ws: string, d: WeekDay)
    requires CacheAgrees(db) && ws in db.cache && OpenOn(db.business, ws, d)
    ensures !CacheAgrees(Update(db, Workers, id, ClosingBody(ws, d)).0)
  {
    WorkerUpdateCacheExact(db, id, ClosingBody(ws, d));
  }

  /**
  Sent as an add it is accepted and cleaned up, but the row has no company: the write fails and the view is
  out of date.
  */
  lemma AddWithoutCompanyStale(db: Db, ws: string, d: WeekDay)
    requires CacheAgrees(db) && ws in db.cache && OpenOn(db.business, ws, d)
    ensures Add(db, Business, ClosingBody(ws, d)).1 == Failed && !CacheAgrees(Add(db, Business, ClosingBody(ws, d)).0)
  {
    var body := ClosingBody(ws, d);
    AddExact(db, Business, body);
    PipelineExact(db, body, body.id);
    AddCacheExact(db, Business, body);
  }

  /** Closing a business row's own weekday by update always fails: the clean-up deletes the row before it is written. */
  lemma CloseOwnDayFails(db: Db, id: Id, body: Body)
    requires SaysClosed(body) && body.user.None? && id in db.business && Selects(body, db.business[id])
    ensures Update(db, Business, id, body).1 == Failed
  {
  }

  /** After a closing update that is not written the views are true exactly if it closed nothing they show. */
  lemma FailedCloseCacheExact(db: Db, t: Table, id: Id, body: Body)
    requires CacheAgrees(db) && SaysClosed(body) && !UpdateWrites(db, t, id, body)
    ensures CacheAgrees(Update(db, t, id, body).0) <==> forall ws :: ws in db.cache ==> !Closes(db, body, ws)
  {
    UpdateCacheExact(db, t, id, body);
  }
}
