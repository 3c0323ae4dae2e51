/** What requests keep of the days of workspaces and workers: no mixture of closed and open rows, no overlap. */
module ScheduleDays {
  import opened Wrappers
  import opened HourFormat
  import opened Texts
  import opened Schedule

  // ----- Well-formed days

  predicate SameDay(a: Row, b: Row) {
    a.owner == b.owner && a.weekDay == b.weekDay
  }

  predicate ProperTimes(row: Row) {
    row.start.Some? && row.end.Some? && IsHHmm(row.start.value) && IsHHmm(row.end.value)
  }

  /** No day mixes closed and open rows; open rows have times in normal form, and those of one day do not overlap. */
  ghost predicate WellFormed(rows: Rows) {
    && (forall r :: r in rows && !rows[r].closed ==> ProperTimes(rows[r]))
    && (forall r, q :: r in rows && q in rows && SameDay(rows[r], rows[q]) ==> rows[r].closed == rows[q].closed)
    && (forall r, q ::
          r in rows && q in rows && r != q && SameDay(rows[r], rows[q]) && !rows[r].closed && !rows[q].closed ==>
            ProperTimes(rows[q]) && !Overlaps(rows[r], rows[q].start.value, rows[q].end.value))
  }

  predicate MinuteIn(row: Row, t: int)
    requires ProperTimes(row)
  {
    MinuteOfDay(row.start.value) <= t < MinuteOfDay(row.end.value)
  }

  predicate RealMinutes(row: Row)
    requires ProperTimes(row)
  {
    Minutes(row.start.value) < 60 && Minutes(row.end.value) < 60
  }

  /** In a well-formed schedule whose times have minutes below 60, no minute lies in two open ranges of one day. */
  lemma RangesDisjoint(rows: Rows, r: Id, q: Id, t: int)
    requires WellFormed(rows) && r in rows && q in rows && r != q && SameDay(rows[r], rows[q])
    requires !rows[r].closed && !rows[q].closed && RealMinutes(rows[r]) && RealMinutes(rows[q])
    ensures !(MinuteIn(rows[r], t) && MinuteIn(rows[q], t))
  {
    TextOrderIsTimeOrder(rows[r].start.value, rows[q].end.value);
    TextOrderIsTimeOrder(rows[q].start.value, rows[r].end.value);
  }

  // ----- Writing a row

  /** Would `row`, written as `id`, fit the other rows of its day? */
  ghost predicate FitsDay(rows: Rows, id: Id, row: Row) {
    && (!row.closed ==> ProperTimes(row))
    && forall q :: q in rows && q != id && SameDay(rows[q], row) ==> FitsBeside(rows[q], row)
  }

  predicate FitsBeside(other: Row, row: Row)
    requires !row.closed ==> ProperTimes(row)
  {
    other.closed == row.closed && (!row.closed ==> !Overlaps(other, row.start.value, row.end.value))
  }

  lemma WriteExact(rows: Rows, id: Id, row: Row)
    requires WellFormed(rows)
    ensures WellFormed(rows[id := row]) <==> FitsDay(rows, id, row)
  {
    var m := rows[id := row];
    if WellFormed(m) {
      assert id in m && m[id] == row;
      forall q | q in rows && q != id && SameDay(rows[q], row) ensures FitsBeside(rows[q], row) {
        assert m[q] == rows[q];
      }
    }
  }

  // ----- What the pipeline leaves

  lemma PrepareKeeps(body: Body)
    requires Prepare(body).Some?
    ensures var b := Prepare(body).value;
            && b == body.(start := b.start, end := b.end) && (HasTimes(b) <==> !SaysClosed(body) && HasTimes(body))
            && (SaysClosed(body) ==> b.start == None && b.end == None)
            && (!SaysClosed(body) && !HasTimes(body) ==> b == body)
            && (HasTimes(b) ==> IsHHmm(b.start.value) && IsHHmm(b.end.value))
  {
    if !SaysClosed(body) && HasTimes(body) {
      NormalForm(body.start.value);
      NormalForm(body.end.value);
    }
  }

  /** `r` is in the table and the clean-up of the prepared body leaves it there. */
  predicate Left(db: Db, t: Table, b: Body, r: Id) {
    r in TableOf(db, t) && !(Branch(b) == t && Removed(TableOf(db, t)[r], b))
  }

  /** The request is read and not refused for an overlap: the pipeline lets it through. */
  predicate Admitted(db: Db, body: Body, self: Option<Id>) {
    Prepare(body).Some? && var b := Prepare(body).value; !Blocked(TableOf(db, Branch(b)), b, self)
  }

  lemma PipelineExact(db: Db, body: Body, self: Option<Id>)
    ensures var c := Pipeline(db, body, self);
            && (c.Go? <==> Admitted(db, body, self))
            && (c.Go? ==> c.body == Prepare(body).value)
            && (if Prepare(body).None? then c.db == db else c.db == Cleaned(db, Prepare(body).value))
  {
    if Prepare(body).Some? {
      var b := Prepare(body).value;
      PrepareKeeps(body);
    }
  }

  lemma CleanedTable(db: Db, b: Body, t: Table)
    ensures var rows := TableOf(Cleaned(db, b), t);
            && rows == (if Branch(b) == t then CleanUp(TableOf(db, t), b) else TableOf(db, t))
            && forall r :: (r in rows <==> Left(db, t, b, r)) && (r in rows ==> rows[r] == TableOf(db, t)[r])
  {
  }

  // ----- Adds and updates as writes

  predicate AddWrites(db: Db, t: Table, body: Body) {
    Admitted(db, body, body.id) &&
    var b := Prepare(body).value; Creatable(t, b) && !Left(db, t, b, IdFor(db, b))
  }

  /** For a worker without rows that day the update creates one. */
  ghost predicate Creating(db: Db, t: Table, b: Body) {
    t == Workers && forall r :: Left(db, Workers, b, r) ==> !Counts(b, db.workers[r])
  }

  ghost predicate UpdateWrites(db: Db, t: Table, id: Id, body: Body) {
    Admitted(db, body, Some(id)) &&
    var b := Prepare(body).value;
    if Creating(db, t, b) then Creatable(t, b) && !Left(db, t, b, id) else Writable(t, b) && Left(db, t, b, id)
  }

  /** The row written, from the request and the row stored. */
  ghost function Written(db: Db, t: Table, id: Id, body: Body): Row
    requires UpdateWrites(db, t, id, body)
  {
    var b := Prepare(body).value;
    if Creating(db, t, b) then NewRow(t, b) else Patch(t, TableOf(db, t)[id], b)
  }

  lemma AddExact(db: Db, t: Table, body: Body)
    requires Accepted(t, body)
    ensures var (after, o) := Add(db, t, body);
            && (o == Done <==> AddWrites(db, t, body))
            && (if o != Done then after == Pipeline(db, body, body.id).db
                else var b := Prepare(body).value; after == Store(Cleaned(db, b), t, IdFor(db, b), NewRow(t, b), b))
  {
    PipelineExact(db, body, body.id);
    if Prepare(body).Some? {
      CleanedTable(db, Prepare(body).value, t);
    }
  }

  lemma UpdateExact(db: Db, t: Table, id: Id, body: Body)
    ensures var (after, o) := Update(db, t, id, body);
            && (o == Done <==> UpdateWrites(db, t, id, body))
            && (if o != Done then after == Pipeline(db, body, Some(id)).db
                else var b := Prepare(body).value; after == Store(Cleaned(db, b), t, id, Written(db, t, id, body), b))
  {
    PipelineExact(db, body, Some(id));
    if Prepare(body).Some? {
      var b := Prepare(body).value;
      CleanedTable(db, b, t);
      CreatingCleaned(db, t, b);
    }
  }

  lemma CreatingCleaned(db: Db, t: Table, b: Body)
    ensures var rows := TableOf(Cleaned(db, b), t);
            Creating(db, t, b) <==> t == Workers && forall r :: r in rows ==> !Counts(b, rows[r])
  {
    CleanedTable(db, b, t);
  }

  /** The normal form of a draft's time. */
  function HHmm(v: Option<string>): string {
    if v.Some? && ToHHmm(v.value).Some? then ToHHmm(v.value).value else ""
  }

  /**
  Drafts are accepted as one row each, on their weekdays, with proper increasing times unless closed, and no
  day mixed.
  */
  lemma {:induction false} NormalizeSound(ws: string, ds: seq<Draft>)
    requires NormalizeEach(ws, ds).Some?
    ensures var rows := NormalizeEach(ws, ds).value;
            && |rows| == |ds|
            && forall i :: 0 <= i < |rows| ==>
                 && rows[i].owner == ws && rows[i].weekDay == ds[i].weekDay && rows[i].closed == ds[i].closed
                 && (!rows[i].closed ==>
                       && ProperTimes(rows[i]) && TextLess(rows[i].start.value, rows[i].end.value)
                       && rows[i].start == Some(HHmm(ds[i].start)) && rows[i].end == Some(HHmm(ds[i].end)))
    decreases |ds|
  {
    if ds != [] {
      var n := |ds| - 1;
      NormalizeSound(ws, ds[..n]);
      if !ds[n].closed {
        NormalForm(ds[n].start.value);
        NormalForm(ds[n].end.value);
      }
    }
  }

  // ----- A generated schedule is well formed exactly when its open drafts do not overlap

  predicate RowsApart(rows: seq<Row>) {
    forall i, j ::
      && 0 <= i < |rows| && 0 <= j < |rows| && i != j && SameDay(rows[i], rows[j])
      && !rows[i].closed && !rows[j].closed ==>
        ProperTimes(rows[j]) && !Overlaps(rows[i], rows[j].start.value, rows[j].end.value)
  }

  predicate DraftsOverlap(a: Draft, b: Draft) {
    && a.weekDay == b.weekDay && !a.closed && !b.closed
    && TextLess(HHmm(a.start), HHmm(b.end)) && TextLess(HHmm(b.start), HHmm(a.end))
  }

  predicate DraftsApart(ds: seq<Draft>) {
    forall i, j :: 0 <= i < j < |ds| ==> !DraftsOverlap(ds[i], ds[j])
  }

  /** Can the two rows stand side by side? */
  ghost predicate Compatible(a: Row, b: Row) {
    && a.closed == b.closed
    && (!a.closed ==> ProperTimes(b) && !Overlaps(a, b.start.value, b.end.value))
  }

  lemma StoredPair(rows: Rows, r: Id, q: Id)
    requires WellFormed(rows) && r in rows && q in rows && r != q && SameDay(rows[r], rows[q])
    ensures Compatible(rows[r], rows[q])
  {
  }

  lemma ListedPair(rows: seq<Row>, i: nat, j: nat)
    requires !MixesDay(rows) && RowsApart(rows) && i < |rows| && j < |rows| && i != j && SameDay(rows[i], rows[j])
    ensures Compatible(rows[i], rows[j])
  {
    assert rows[i].closed == rows[j].closed;
  }

  lemma Origin(rows: Rows, from: Id, added: seq<Row>, ws: string, r: Id)
    requires forall k :: k in rows ==> k < from && rows[k].owner != ws
    requires forall i :: 0 <= i < |added| ==> added[i].owner == ws
    requires r in Created(rows, from, added)
    ensures var row := Created(rows, from, added)[r];
            if row.owner == ws then from <= r < from + |added| && row == added[r - from]
            else r in rows && row == rows[r]
  {
  }

  lemma CreatedPair(rows: Rows, from: Id, added: seq<Row>, ws: string, r: Id, q: Id)
    requires forall k :: k in rows ==> k < from && rows[k].owner != ws
    requires forall i :: 0 <= i < |added| ==> added[i].owner == ws
    requires var m := Created(rows, from, added); r in m && q in m && r != q && SameDay(m[r], m[q])
    requires r in rows && q in rows && SameDay(rows[r], rows[q]) ==> Compatible(rows[r], rows[q])
    requires var i, j := r - from, q - from;
             0 <= i < |added| && 0 <= j < |added| && SameDay(added[i], added[j]) ==> Compatible(added[i], added[j])
    ensures var m := Created(rows, from, added); Compatible(m[r], m[q])
  {
    Origin(rows, from, added, ws, r);
    Origin(rows, from, added, ws, q);
  }

  lemma CreatedFits(rows: Rows, from: Id, added: seq<Row>, ws: string)
    requires WellFormed(rows) && forall r :: r in rows ==> r < from && rows[r].owner != ws
    requires forall i :: 0 <= i < |added| ==> added[i].owner == ws
    requires !MixesDay(added) && RowsApart(added)
    ensures var m := Created(rows, from, added);
            forall r, q :: r in m && q in m && r != q && SameDay(m[r], m[q]) ==> Compatible(m[r], m[q])
  {
    var m := Created(rows, from, added);
    forall r, q | r in m && q in m && r != q && SameDay(m[r], m[q]) ensures Compatible(m[r], m[q]) {
      if r in rows && q in rows && SameDay(rows[r], rows[q]) {
        StoredPair(rows, r, q);
      }
      var i, j := r - from, q - from;
      if 0 <= i < |added| && 0 <= j < |added| && SameDay(added[i], added[j]) {
        ListedPair(added, i, j);
      }
      CreatedPair(rows, from, added, ws, r, q);
    }
  }

  lemma PairsWellFormed(rows: Rows)
    requires forall r :: r in rows && !rows[r].closed ==> ProperTimes(rows[r])
    requires forall r, q :: r in rows && q in rows && r != q && SameDay(rows[r], rows[q]) ==>
             Compatible(rows[r], rows[q])
    ensures WellFormed(rows)
  {
  }

  lemma CreatedClash(rows: Rows, from: Id, added: seq<Row>)
    requires WellFormed(Created(rows, from, added))
    ensures RowsApart(added)
  {
    var m := Created(rows, from, added);
    forall i, j | 0 <= i < |added| && 0 <= j < |added| && i != j && SameDay(added[i], added[j]) && !added[i].closed
        && !added[j].closed
      ensures ProperTimes(added[j]) && !Overlaps(added[i], added[j].start.value, added[j].end.value) {
      assert m[from + i] == added[i] && m[from + j] == added[j];
      StoredPair(m, from + i, from + j);
    }
  }

  lemma CreatedWellFormed(rows: Rows, from: Id, added: seq<Row>, ws: string)
    requires WellFormed(rows) && forall r :: r in rows ==> r < from && rows[r].owner != ws
    requires forall i :: 0 <= i < |added| ==> added[i].owner == ws && (!added[i].closed ==> ProperTimes(added[i]))
    requires !MixesDay(added)
    ensures WellFormed(Created(rows, from, added)) <==> RowsApart(added)
  {
    if RowsApart(added) {
      CreatedFits(rows, from, added, ws);
      PairsWellFormed(Created(rows, from, added));
    }
    if WellFormed(Created(rows, from, added)) {
      CreatedClash(rows, from, added);
    }
  }

  lemma NormalizedApart(ws: string, ds: seq<Draft>)
    requires NormalizeEach(ws, ds).Some?
    ensures RowsApart(NormalizeEach(ws, ds).value) <==> DraftsApart(ds)
  {
    var rows := NormalizeEach(ws, ds).value;
    NormalizeSound(ws, ds);
    if RowsApart(rows) {
      forall i, j | 0 <= i < j < |ds| ensures !DraftsOverlap(ds[i], ds[j]) {
        assert rows[i].weekDay == ds[i].weekDay && rows[j].weekDay == ds[j].weekDay;
      }
    }
    if DraftsApart(ds) {
      forall i, j | 0 <= i < |rows| && 0 <= j < |rows| && i != j && SameDay(rows[i], rows[j]) && !rows[i].closed
          && !rows[j].closed
        ensures !Overlaps(rows[i], rows[j].start.value, rows[j].end.value) {
        assert !DraftsOverlap(ds[i], ds[j]) by {
          if j < i { assert !DraftsOverlap(ds[j], ds[i]); }
        }
      }
    }
  }

  function DayNumber(d: WeekDay): nat {
    match d
    case MONDAY => 0
    case TUESDAY => 1
    case WEDNESDAY => 2
    case THURSDAY => 3
    case FRIDAY => 4
    case SATURDAY => 5
    case SUNDAY => 6
  }

  /** Two ranges from Monday to Friday, one on Saturday, and a closed Sunday. */
  lemma DefaultAt(ws: string, i: nat)
    requires i < 12
    ensures var row := DefaultSchedule(ws)[i];
            && row.owner == ws && DayNumber(row.weekDay) == (if i == 11 then 6 else i / 2) && row.closed == (i == 11)
            && (i < 10 ==>
                 && row.start == Some(if i % 2 == 0 then "09:00" else "15:00")
                 && row.end == Some(if i % 2 == 0 then "13:00" else "20:00"))
            && (i == 10 ==> row.start == Some("10:00") && row.end == Some("14:00"))
  {
  }

  /** The default schedule has proper times and keeps its ranges apart. */
  lemma DefaultApart(ws: string)
    ensures var rows := DefaultSchedule(ws);
            && (forall i :: 0 <= i < |rows| ==> rows[i].owner == ws && (!rows[i].closed ==> ProperTimes(rows[i])))
            && !MixesDay(rows) && RowsApart(rows)
  {
    TextOrder("15:00", "13:00");
    assert Hours("15:00") == 15 && Hours("13:00") == 13;
    var rows := DefaultSchedule(ws);
    forall i, j | 0 <= i < 12 && 0 <= j < 12 && i != j && rows[i].weekDay == rows[j].weekDay
      ensures i < 10 && j < 10 && Compatible(rows[i], rows[j]) {
      DefaultAt(ws, i);
      DefaultAt(ws, j);
    }
    forall i | 0 <= i < 12 ensures rows[i].owner == ws && (!rows[i].closed ==> ProperTimes(rows[i])) {
      DefaultAt(ws, i);
    }
  }

  /** Ids that have not been given out are in no table. */
  ghost predicate IdsFresh(db: Db) {
    (forall r :: r in db.business ==> r < db.nextId) && (forall r :: r in db.workers ==> r < db.nextId)
  }

  predicate HasRows(rows: Rows, owner: string) {
    exists r :: r in rows && rows[r].owner == owner
  }

  /**
  Exactly when generating a schedule keeps the days: nothing is written, or no two open drafts of one day
  overlap.
  */
  predicate GenerateKeepsDays(db: Db, company: string, ws: string, ds: seq<Draft>) {
    company == "" || ws == "" || HasRows(db.business, ws) || Normalize(ws, ds).None? || DraftsApart(ds)
  }

  lemma GenerateWellFormedExact(db: Db, company: string, ws: string, ds: seq<Draft>)
    requires WellFormed(db.business) && IdsFresh(db)
    ensures var after := Generate(db, company, ws, ds).0;
            after.workers == db.workers && (WellFormed(after.business) <==> GenerateKeepsDays(db, company, ws, ds))
  {
    if company != "" && ws != "" && !HasRows(db.business, ws) {
      if ds == [] {
        DefaultApart(ws);
        CreatedWellFormed(db.business, db.nextId, DefaultSchedule(ws), ws);
      } else if Normalize(ws, ds).Some? {
        NormalizeSound(ws, ds);
        NormalizedApart(ws, ds);
        CreatedWellFormed(db.business, db.nextId, Normalize(ws, ds).value, ws);
      }
    }
  }

  lemma NormalizePush(ws: string, front: seq<Draft>, d: Draft)
    requires NormalizeEach(ws, front).Some? && NormalizeOne(ws, d).Some?
    ensures NormalizeEach(ws, front + [d]) == Some(NormalizeEach(ws, front).value + [NormalizeOne(ws, d).value])
  {
    assert (front + [d])[..|front + [d]| - 1] == front;
  }

  lemma OpenDraft(ws: string, d: WeekDay, s: string, e: string)
    requires IsHHmm(s) && IsHHmm(e) && TextLess(s, e)
    ensures NormalizeOne(ws, Draft(d, Some(s), Some(e), false)) == Some(Open(ws, d, s, e))
  {
    NormalForm(s);
    NormalForm(e);
  }

  /**
  Two drafts of one day with increasing times are accepted, wherever the two ranges lie; the schedule is
  well formed only if they are apart.
  */
  lemma TwoDraftsAccepted(db: Db, company: string, ws: string, a: Draft, b: Draft)
    requires WellFormed(db.business) && IdsFresh(db) && company != "" && ws != "" && !HasRows(db.business, ws)
    requires NormalizeOne(ws, a).Some? && NormalizeOne(ws, b).Some? && !a.closed && !b.closed
    ensures Generate(db, company, ws, [a, b]).1 == Done
    ensures DraftsOverlap(a, b) ==> !WellFormed(Generate(db, company, ws, [a, b]).0.business)
  {
    var ds := [a, b];
    NormalizePush(ws, [], a);
    NormalizePush(ws, [a], b);
    assert [] + [a] == [a] && [a] + [b] == ds;
    GenerateWellFormedExact(db, company, ws, ds);
    if DraftsOverlap(a, b) {
      assert DraftsOverlap(ds[0], ds[1]);
    }
  }

  /** Such a pair: two ranges of one Monday that share two hours. */
  lemma OverlappingDrafts(ws: string)
    ensures var a, b := Draft(MONDAY, Some("09:00"), Some("12:00"), false),
            Draft(MONDAY, Some("10:00"), Some("13:00"), false);
            NormalizeOne(ws, a).Some? && NormalizeOne(ws, b).Some? && DraftsOverlap(a, b)
  {
    TextOrder("09:00", "12:00");
    TextOrder("10:00", "13:00");
    TextOrder("09:00", "13:00");
    TextOrder("10:00", "12:00");
    assert Hours("09:00") == 9 && Hours("10:00") == 10 && Hours("12:00") == 12 && Hours("13:00") == 13;
    OpenDraft(ws, MONDAY, "09:00", "12:00");
    OpenDraft(ws, MONDAY, "10:00", "13:00");
    NormalForm("09:00");
    NormalForm("10:00");
    NormalForm("12:00");
    NormalForm("13:00");
  }

  // ----- Adds and updates, exactly

  ghost predicate DaysOk(db: Db) {
    WellFormed(db.business) && WellFormed(db.workers)
  }

  /** The body closes the day or gives both times. */
  predicate Complete(body: Body) {
    SaysClosed(body) || HasTimes(body)
  }

  lemma PipelineDays(db: Db, body: Body, self: Option<Id>)
    requires DaysOk(db)
    ensures DaysOk(Pipeline(db, body, self).db)
  {
    PipelineExact(db, body, self);
  }

  lemma StoreDays(db: Db, t: Table, id: Id, row: Row, b: Body)
    requires DaysOk(db)
    ensures DaysOk(Store(db, t, id, row, b)) <==> FitsDay(TableOf(db, t), id, row)
  {
    WriteExact(TableOf(db, t), id, row);
  }

  /** A new row fits the day that the pipeline has cleaned up and checked for it exactly if the body is complete. */
  lemma NewRowFits(rows: Rows, t: Table, b: Body, id: Id)
    requires WellFormed(rows) && Creatable(t, b) && Branch(b) == t
             && (HasTimes(b) ==> !SaysClosed(b) && !Blocked(rows, b, Some(id)))
    requires HasTimes(b) ==> IsHHmm(b.start.value) && IsHHmm(b.end.value)
    ensures FitsDay(CleanUp(rows, b), id, NewRow(t, b)) <==> Complete(b)
  {
    var row := NewRow(t, b);
    if Complete(b) {
      forall q | q in CleanUp(rows, b) && q != id && SameDay(rows[q], row) ensures FitsBeside(rows[q], row) {
      }
    }
  }

  /** Exactly when an add keeps the days: it closes the day or gives both times, or the database refuses the row. */
  predicate AddKeepsDays(db: Db, t: Table, body: Body) {
    Complete(body) || !Creatable(t, body) || IdFor(db, body) in TableOf(db, t)
  }

  /** An add that neither closes the day nor gives both times skips every check. */
  lemma IncompleteAdd(db: Db, t: Table, body: Body)
    requires !Complete(body)
    ensures Prepare(body) == Some(body) && Cleaned(db, body) == db
    ensures AddWrites(db, t, body) <==> !AddKeepsDays(db, t, body)
  {
    assert CleanUp(TableOf(db, Branch(body)), body) == TableOf(db, Branch(body));
  }

  lemma AddWellFormedExact(db: Db, t: Table, body: Body)
    requires DaysOk(db) && Accepted(t, body)
    ensures DaysOk(Add(db, t, body).0) <==> AddKeepsDays(db, t, body)
  {
    AddExact(db, t, body);
    PipelineDays(db, body, body.id);
    if !Complete(body) {
      IncompleteAdd(db, t, body);
    }
    if AddWrites(db, t, body) {
      var b := Prepare(body).value;
      var id := IdFor(db, b);
      PrepareKeeps(body);
      CleanedTable(db, b, t);
      StoreDays(Cleaned(db, b), t, id, NewRow(t, b), b);
      NewRowFits(TableOf(db, t), t, b, id);
    }
  }

  /** No day mixes closed and open rows. */
  ghost predicate Unmixed(rows: Rows) {
    forall r, q :: r in rows && q in rows && SameDay(rows[r], rows[q]) ==> rows[r].closed == rows[q].closed
  }

  ghost predicate ClosedOn(rows: Rows, owner: string, d: WeekDay) {
    exists r :: r in rows && rows[r].owner == owner && rows[r].weekDay == d && rows[r].closed
  }

  /** An add leaves a day mixed exactly if it is written unchecked on a closed day. */
  lemma AddMixesExact(db: Db, t: Table, body: Body)
    requires DaysOk(db) && Accepted(t, body)
    ensures Unmixed(TableOf(Add(db, t, body).0, t)) <==>
            AddKeepsDays(db, t, body) || !ClosedOn(TableOf(db, t), OwnerIn(t, body).value, body.weekDay.value)
  {
    if AddKeepsDays(db, t, body) {
      AddWellFormedExact(db, t, body);
    } else {
      IncompleteAdd(db, t, body);
      AddExact(db, t, body);
      MixesExact(TableOf(db, t), IdFor(db, body), NewRow(t, body));
    }
  }

  lemma MixesExact(rows: Rows, id: Id, row: Row)
    requires Unmixed(rows) && id !in rows && !row.closed
    ensures Unmixed(rows[id := row]) <==> !ClosedOn(rows, row.owner, row.weekDay)
  {
    var m := rows[id := row];
    if r :| r in rows && rows[r].owner == row.owner && rows[r].weekDay == row.weekDay && rows[r].closed {
      assert m[r].closed && !m[id].closed && SameDay(m[r], m[id]);
    }
  }

  /** Another row of the day of `row` is open. */
  ghost predicate OpenBeside(rows: Rows, id: Id, row: Row) {
    exists q :: q in rows && q != id && SameDay(rows[q], row) && !rows[q].closed
  }

  /**
  Exactly when an update keeps the days. Nothing written, nothing broken. If the pipeline has cleaned up
  and checked the table that is written, closing a day never breaks it, and two times do only if they are
  written to a row that stays closed beside open ones. Otherwise nothing has been checked, and the row as
  patched must fit its day as stored; a new row without both times never does.
  */
  ghost predicate UpdateKeepsDays(db: Db, t: Table, id: Id, body: Body) {
    UpdateWrites(db, t, id, body) ==>
      var b := Prepare(body).value;
      if Creating(db, t, b) then Complete(b)
      else
        var row := Patch(t, TableOf(db, t)[id], b);
        if Branch(b) == t && Complete(b) then SaysClosed(b) || !(row.closed && OpenBeside(TableOf(db, t), id, row))
        else FitsDay(TableOf(db, t), id, row)
  }

  /** A day that the patched row lies on is selected by the body, whatever the body leaves out. */
  lemma PatchedDaySelected(t: Table, b: Body, row: Row, other: Row)
    requires Branch(b) == t && SameDay(other, Patch(t, row, b))
    ensures Selects(b, other)
  {
  }

  lemma PatchedFits(rows: Rows, t: Table, b: Body, id: Id)
    requires WellFormed(rows) && Complete(b) && Branch(b) == t && id in rows
    requires HasTimes(b) ==>
             !SaysClosed(b) && !Blocked(rows, b, Some(id)) && IsHHmm(b.start.value) && IsHHmm(b.end.value)
    ensures var row := Patch(t, rows[id], b);
            FitsDay(CleanUp(rows, b), id, row) <==> SaysClosed(b) || !(row.closed && OpenBeside(rows, id, row))
  {
    var row, kept := Patch(t, rows[id], b), CleanUp(rows, b);
    forall q | q in kept && q != id && SameDay(rows[q], row)
      ensures !SaysClosed(b) && !rows[q].closed && !Overlaps(rows[q], b.start.value, b.end.value) {
      PatchedDaySelected(t, b, rows[id], rows[q]);
    }
    if !SaysClosed(b) {
      if q :| q in rows && q != id && SameDay(rows[q], row) && !rows[q].closed {
        assert q in kept && !rows[q].closed;
        assert FitsBeside(kept[q], row) <==> !row.closed;
      }
    }
  }

  lemma UpdateWellFormedExact(db: Db, t: Table, id: Id, body: Body)
    requires DaysOk(db)
    ensures DaysOk(Update(db, t, id, body).0) <==> UpdateKeepsDays(db, t, id, body)
  {
    UpdateExact(db, t, id, body);
    PipelineDays(db, body, Some(id));
    if UpdateWrites(db, t, id, body) {
      var b := Prepare(body).value;
      PrepareKeeps(body);
      CleanedTable(db, b, t);
      StoreDays(Cleaned(db, b), t, id, Written(db, t, id, body), b);
      if Branch(b) == t && Complete(b) {
        if Creating(db, t, b) {
          NewRowFits(TableOf(db, t), t, b, id);
        } else {
          PatchedFits(TableOf(db, t), t, b, id);
        }
      } else {
        UncheckedTable(db, t, b);
      }
    }
  }

  /** Without a complete body for its branch the table is as it was. */
  lemma UncheckedTable(db: Db, t: Table, b: Body)
    requires !(Branch(b) == t && Complete(b))
    ensures TableOf(Cleaned(db, b), t) == TableOf(db, t)
  {
    assert Branch(b) == t ==> CleanUp(TableOf(db, t), b) == TableOf(db, t);
  }

  /**
  In particular a body for the table it is sent to that names its day and says whether it is closed never
  breaks a day.
  */
  lemma ClearUpdateKeepsDays(db: Db, t: Table, id: Id, body: Body)
    requires Branch(body) == t && (SaysClosed(body) || (HasTimes(body) && body.closed == Some(false)))
    ensures UpdateKeepsDays(db, t, id, body)
  {
    if Prepare(body).Some? {
      PrepareKeeps(body);
    }
  }

  lemma DeleteKeepsDays(db: Db, t: Table, body: Body, ids: set<Id>)
    requires DaysOk(db)
    ensures DaysOk(Delete(db, t, body, ids).0)
  {
    PipelineDays(db, body, body.id);
    var c := Pipeline(db, body, body.id);
  }

  /**
  A closed row moved, by a body that does not say that it is to be open, to a day of the same owner with an
  open row.
  */
  ghost predicate MovesClosedRow(db: Db, t: Table, id: Id, body: Body, q: Id) {
    var rows := TableOf(db, t);
    && Branch(body) == t && HasTimes(body) && body.closed.None? && Prepare(body) == Some(body) && Writable(t, body)
    && body.weekDay.Some? && OwnerIn(t, body).Some? && !Blocked(rows, body, Some(id))
    && id in rows && rows[id].closed && !Selects(body, rows[id]) && q in rows && !rows[q].closed
         && Selects(body, rows[q])
  }

  /** Such an update is done and leaves the day mixed. */
  lemma ClosedRowMoved(db: Db, t: Table, id: Id, body: Body, q: Id)
    requires DaysOk(db) && MovesClosedRow(db, t, id, body, q)
    ensures Update(db, t, id, body).1 == Done && !DaysOk(Update(db, t, id, body).0)
  {
    var row := Patch(t, TableOf(db, t)[id], body);
    assert Left(db, t, body, id) && Left(db, t, body, q) && Counts(body, TableOf(db, t)[q]);
    assert row.closed && SameDay(TableOf(db, t)[q], row);
    UpdateExact(db, t, id, body);
    UpdateWellFormedExact(db, t, id, body);
  }

  function RangeBody(user: string, d: WeekDay, s: string, e: string): Body {
    Body(None, Some(user), None, None, Some(d), Some(s), Some(e), None, false, false, false)
  }

  lemma TuesdayRange(user: string)
    ensures var body := RangeBody(user, TUESDAY, "11:00", "12:00");
            Prepare(body) == Some(body) && !TextLess("11:00", "10:00")
  {
    NormalForm("11:00");
    NormalForm("12:00");
    TextOrder("11:00", "10:00");
    assert Hours("11:00") == 11 && Hours("10:00") == 10;
  }

  /** A worker closed on Mondays has Tuesday 09:00-10:00, and the Monday row is given Tuesday 11:00-12:00. */
  lemma ClosedRowToMove(user: string)
    ensures var rows := map[0 := Row(user, MONDAY, None, None, true),
            1 := Row(user, TUESDAY, Some("09:00"), Some("10:00"), false)];
            var db := Db(map[], rows, map[], 2);
            DaysOk(db) && MovesClosedRow(db, Workers, 0, RangeBody(user, TUESDAY, "11:00", "12:00"), 1)
  {
    TuesdayRange(user);
  }
}
