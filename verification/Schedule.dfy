/**
Opening hours of workspaces and workers: the request pipeline that prepares, cleans up and checks a
write, the writes, and the cached per-weekday view that readers get for a workspace. Two routes lead
here, one for the rows of workspaces and one for those of workers. The route decides which table is
written, but the body decides which table the pipeline cleans up and checks.
*/
module Schedule {
  import opened Wrappers
  import opened HourFormat
  import opened Texts

  type Id = nat

  datatype WeekDay = MONDAY | TUESDAY | WEDNESDAY | THURSDAY | FRIDAY | SATURDAY | SUNDAY

  /** Business hours belong to a workspace, worker hours to a user: the owner is one or the other. */
  datatype Row = Row(owner: string, weekDay: WeekDay, start: Option<string>, end: Option<string>, closed: bool)

  type Rows = map<Id, Row>
  type Range = (Option<string>, Option<string>)
  type View = map<WeekDay, seq<Range>>

  datatype Table = Business | Workers

  /** The cache holds views of workspaces. Ids given out are below `nextId`. */
  datatype Db = Db(business: Rows, workers: Rows, cache: map<string, View>, nextId: Id)

  function TableOf(db: Db, t: Table): Rows {
    if t == Business then db.business else db.workers
  }

  function SetTable(db: Db, t: Table, rows: Rows): Db {
    if t == Business then db.(business := rows) else db.(workers := rows)
  }

  /**
  A request body. An absent field is None; as a filter it matches every row, as a value it leaves the
  stored one. A time that is given as null is None too, but clears the stored one. Fields that neither
  table has are only known to be there.
  */
  datatype Body = Body(
    id: Option<Id>, user: Option<string>, company: Option<string>, workspace: Option<string>, weekDay: Option<WeekDay>,
    start: Option<string>, end: Option<string>, closed: Option<bool>, nullStart: bool, nullEnd: bool,
        unknownField: bool)

  predicate SaysClosed(body: Body) {
    body.closed == Some(true)
  }

  predicate HasTimes(body: Body) {
    body.start.Some? && body.end.Some? && body.start.value != "" && body.end.value != ""
  }

  /** A body with a user is taken to be about worker hours, any other about business hours. */
  function Branch(body: Body): Table {
    if body.user.Some? then Workers else Business
  }

  /** Is `row`, of the table of the branch, selected by the owner and weekday of the body? */
  predicate Selects(body: Body, row: Row) {
    && (if body.user.Some? then row.owner == body.user.value else body.workspace.Some? ==>
         row.owner == body.workspace.value)
    && (body.weekDay.Some? ==> row.weekDay == body.weekDay.value)
  }

  // ----- The pipeline

  /**
  The body with times that are given as ISO texts replaced by the times of day they name, where the pipeline
  reads them.
  */
  function Resolve(instant: string -> Option<int>, body: Body): Body {
    if SaysClosed(body) || !HasTimes(body) then body
    else
      var s, e := ReadTime(instant, body.start.value), ReadTime(instant, body.end.value);
      body.(start := if s.Some? then s else body.start, end := if e.Some? then e else body.end)
  }

  /** First part: no times on a closed day, times in normal form otherwise; None stands for the format error. */
  function Prepare(body: Body): Option<Body> {
    if SaysClosed(body) then Some(body.(start := None, end := None))
    else if !HasTimes(body) then Some(body)
    else
      var s, e := ToHHmm(body.start.value), ToHHmm(body.end.value);
      if s.None? || e.None? then None else Some(body.(start := s, end := e))
  }

  /** Second part: a closed day replaces all rows of that day, an open range only the closed ones. */
  predicate Removed(row: Row, body: Body) {
    Selects(body, row) && (SaysClosed(body) || (HasTimes(body) && row.closed))
  }

  function CleanUp(rows: Rows, body: Body): Rows {
    map r | r in rows && !Removed(rows[r], body) :: rows[r]
  }

  function Cleaned(db: Db, body: Body): Db {
    SetTable(db, Branch(body), CleanUp(TableOf(db, Branch(body)), body))
  }

  predicate Overlaps(row: Row, s: string, e: string) {
    row.start.Some? && row.end.Some? && TextLess(row.start.value, e) && TextLess(s, row.end.value)
  }

  /** Third part: an open row of that day, other than the one being written, overlaps the range. */
  predicate Blocked(rows: Rows, body: Body, self: Option<Id>) {
    && HasTimes(body)
    && exists r :: r in rows && Clashes(rows[r], body) && self != Some(r)
  }

  predicate Clashes(row: Row, body: Body)
    requires HasTimes(body)
  {
    Selects(body, row) && !row.closed && Overlaps(row, body.start.value, body.end.value)
  }

  datatype Outcome = Done | BadTime | Overlap | Failed

  /**
  What the pipeline hands on: an end of the request, or the prepared body. What it deleted stays deleted
  either way.
  */
  datatype Checked = Stop(db: Db, why: Outcome) | Go(db: Db, body: Body)

  function Pipeline(db: Db, body: Body, self: Option<Id>): Checked {
    var prepared := Prepare(body);
    if prepared.None? then Stop(db, BadTime)
    else
      var b := prepared.value;
      var clean := Cleaned(db, b);
      if Blocked(TableOf(clean, Branch(b)), b, self) then Stop(clean, Overlap) else Go(clean, b)
  }

  // ----- The writes

  /** The columns for times hold five characters. */
  predicate Fits(body: Body) {
    (body.start.Some? ==> |body.start.value| <= 5) && (body.end.Some? ==> |body.end.value| <= 5)
  }

  /** The table has all fields of the body: business rows have no user. */
  predicate Writable(t: Table, body: Body) {
    !body.unknownField && (t == Business ==> body.user.None?) && Fits(body)
  }

  function OwnerIn(t: Table, body: Body): Option<string> {
    if t == Business then body.workspace else body.user
  }

  /** The body has the columns without a default. */
  predicate Creatable(t: Table, body: Body) {
    Writable(t, body) && body.company.Some? && OwnerIn(t, body).Some? && body.weekDay.Some?
  }

  function NewRow(t: Table, body: Body): Row
    requires Creatable(t, body)
  {
    Row(OwnerIn(t, body).value, body.weekDay.value, body.start, body.end, SaysClosed(body))
  }

  /** The row with the given fields set and the others as they were. */
  function Patch(t: Table, row: Row, b: Body): Row {
    Row(if OwnerIn(t, b).Some? then OwnerIn(t, b).value else row.owner,
        if b.weekDay.Some? then b.weekDay.value else row.weekDay,
        if b.start.Some? || SaysClosed(b) || b.nullStart then b.start else row.start,
        if b.end.Some? || SaysClosed(b) || b.nullEnd then b.end else row.end,
        if b.closed.Some? then b.closed.value else row.closed)
  }

  function Invalidate(cache: map<string, View>, ws: Option<string>): map<string, View> {
    if ws.Some? then cache - {ws.value} else cache
  }

  /** Writes one row. A business write then drops the entry of the workspace named. */
  function Store(db: Db, t: Table, id: Id, row: Row, b: Body): Db {
    var db1 := SetTable(db, t, TableOf(db, t)[id := row]);
    db1.(cache := if t == Business then Invalidate(db.cache, b.workspace) else db.cache,
         nextId := if id < db.nextId then db.nextId else id + 1)
  }

  /** What the routes accept as an add. */
  predicate Accepted(t: Table, body: Body) {
    body.workspace.Some? && body.weekDay.Some? && (t == Workers ==> body.user.Some? && body.company.Some?)
  }

  function IdFor(db: Db, body: Body): Id {
    if body.id.Some? then body.id.value else db.nextId
  }

  function Add(db: Db, t: Table, body: Body): (Db, Outcome)
    requires Accepted(t, body)
  {
    match Pipeline(db, body, body.id)
    case Stop(db1, why) => (db1, why)
    case Go(db1, b) =>
      if !Creatable(t, b) || IdFor(db, b) in TableOf(db1, t) then (db1, Failed)
      else (Store(db1, t, IdFor(db, b), NewRow(t, b), b), Done)
  }

  /** Is the row one of the user and weekday of the body, where these are given? */
  predicate Counts(body: Body, row: Row) {
    && (body.user.Some? ==> row.owner == body.user.value)
    && (body.weekDay.Some? ==> row.weekDay == body.weekDay.value)
  }

  /** The row to write: a patched one, or for a worker without rows that day a new one. */
  function ToWrite(rows: Rows, t: Table, id: Id, b: Body): Option<Row> {
    if t == Workers && forall r :: r in rows ==> !Counts(b, rows[r]) then
      if Creatable(t, b) && id !in rows then Some(NewRow(t, b)) else None
    else if id in rows && Writable(t, b) then Some(Patch(t, rows[id], b))
    else None
  }

  function Update(db: Db, t: Table, id: Id, body: Body): (Db, Outcome) {
    match Pipeline(db, body, Some(id))
    case Stop(db1, why) => (db1, why)
    case Go(db1, b) =>
      var row := ToWrite(TableOf(db1, t), t, id, b);
      if row.None? then (db1, Failed) else (Store(db1, t, id, row.value, b), Done)
  }

  /** The owners of the rows, of those that are there. */
  function Owners(rows: Rows, ids: set<Id>): set<string> {
    set r | r in ids && r in rows :: rows[r].owner
  }

  /** Deletions run the pipeline too, on whatever else their body holds. */
  function Delete(db: Db, t: Table, body: Body, ids: set<Id>): (Db, Outcome) {
    match Pipeline(db, body, body.id)
    case Stop(db1, why) => (db1, why)
    case Go(db1, _) =>
      (SetTable(db1, t, TableOf(db1, t) - ids)
         .(cache := if t == Business then db1.cache - Owners(db1.business, ids) else db1.cache), Done)
  }

  // ----- Generating a workspace's first schedule

  datatype Draft = Draft(weekDay: WeekDay, start: Option<string>, end: Option<string>, closed: bool)

  function NormalizeOne(ws: string, d: Draft): Option<Row> {
    if d.closed then Some(Row(ws, d.weekDay, None, None, true))
    else if d.start.None? || d.end.None? || d.start.value == "" || d.end.value == "" then None
    else
      var s, e := ToHHmm(d.start.value), ToHHmm(d.end.value);
      if s.None? || e.None? || !TextLess(s.value, e.value) then None
      else Some(Row(ws, d.weekDay, s, e, false))
  }

  function NormalizeEach(ws: string, ds: seq<Draft>): Option<seq<Row>> {
    if ds == [] then Some([])
    else
      var front, last := NormalizeEach(ws, ds[..|ds| - 1]), NormalizeOne(ws, ds[|ds| - 1]);
      if front.None? || last.None? then None else Some(front.value + [last.value])
  }

  predicate MixesDay(rows: seq<Row>) {
    exists i, j :: 0 <= i < |rows| && 0 <= j < |rows| && rows[i].weekDay == rows[j].weekDay && rows[i].closed
        && !rows[j].closed
  }

  /** The rows for the drafts; None stands for any of the validation errors. */
  function Normalize(ws: string, ds: seq<Draft>): Option<seq<Row>> {
    var rows := NormalizeEach(ws, ds);
    if rows.None? || MixesDay(rows.value) then None else rows
  }

  function Open(ws: string, d: WeekDay, s: string, e: string): Row {
    Row(ws, d, Some(s), Some(e), false)
  }

  /** The schedule given to a workspace that sends none. */
  function DefaultSchedule(ws: string): seq<Row> {
    [Open(ws, MONDAY, "09:00", "13:00"), Open(ws, MONDAY, "15:00", "20:00"),
     Open(ws, TUESDAY, "09:00", "13:00"), Open(ws, TUESDAY, "15:00", "20:00"),
     Open(ws, WEDNESDAY, "09:00", "13:00"), Open(ws, WEDNESDAY, "15:00", "20:00"),
     Open(ws, THURSDAY, "09:00", "13:00"), Open(ws, THURSDAY, "15:00", "20:00"),
     Open(ws, FRIDAY, "09:00", "13:00"), Open(ws, FRIDAY, "15:00", "20:00"),
     Open(ws, SATURDAY, "10:00", "14:00"),
     Row(ws, SUNDAY, None, None, true)]
  }

  /** The rows to create; None stands for any of the validation errors. */
  function ScheduleFor(ws: string, ds: seq<Draft>): Option<seq<Row>> {
    if ds == [] then Some(DefaultSchedule(ws)) else Normalize(ws, ds)
  }

  function Created(rows: Rows, from: Id, added: seq<Row>): (m: Rows)
    ensures forall r :: r in m <==> r in rows || from <= r < from + |added|
    ensures forall r :: r in m ==> m[r] == if from <= r < from + |added| then added[r - from] else rows[r]
    decreases |added|
  {
    if added == [] then rows
    else
      var n := |added| - 1;
      Created(rows, from, added[..n])[from + n := added[n]]
  }

  /** The rows are there and the entry of the workspace is gone. */
  function WithSchedule(db: Db, ws: string, rows: seq<Row>): Db {
    Db(Created(db.business, db.nextId, rows), db.workers, db.cache - {ws}, db.nextId + |rows|)
  }

  function Generate(db: Db, company: string, ws: string, ds: seq<Draft>): (Db, Outcome) {
    if company == "" || ws == "" then (db, Failed)
    else if exists r :: r in db.business && db.business[r].owner == ws then (db.(cache := db.cache - {ws}), Done)
    else
      var schedule := ScheduleFor(ws, ds);
      if schedule.None? then (db, Failed)
      else
        (WithSchedule(db, ws, schedule.value), Done)
  }

  // ----- Reading

  function Put(view: View, d: WeekDay, range: Range): View {
    view[d := (if d in view then view[d] else []) + [range]]
  }

  /** One pass over rows in the order listed: open ranges under their weekday, closed rows left out. */
  function Fold(rows: seq<Row>): View {
    if rows == [] then map[]
    else
      var r := rows[|rows| - 1];
      var before := Fold(rows[..|rows| - 1]);
      if r.closed then before else Put(before, r.weekDay, (r.start, r.end))
  }

  predicate Offers(row: Row, ws: string, d: WeekDay, range: Range) {
    row.owner == ws && row.weekDay == d && !row.closed && (row.start, row.end) == range
  }

  ghost function RowsOffering(rows: Rows, ws: string, d: WeekDay, range: Range): set<Id> {
    set r | r in rows && Offers(rows[r], ws, d, range)
  }

  /** How many open rows of the workspace give exactly this range on this weekday. */
  ghost function RowCount(rows: Rows, ws: string, d: WeekDay, range: Range): nat {
    |RowsOffering(rows, ws, d, range)|
  }

  ghost function ViewCount(view: View, d: WeekDay, range: Range): nat {
    if d in view then multiset(view[d])[range] else 0
  }

  /** The view shows the open rows of the workspace, range by range, whatever the order; no weekday is listed empty. */
  ghost predicate Shows(view: View, rows: Rows, ws: string) {
    && (forall d :: d in view ==> view[d] != [])
    && (forall d, range :: ViewCount(view, d, range) == RowCount(rows, ws, d, range))
  }

  /** `list` names the rows of the workspace, each once. */
  ghost predicate Lists(list: seq<Id>, rows: Rows, ws: string) {
    && (forall i, j :: 0 <= i < j < |list| ==> list[i] != list[j])
    && (forall r :: r in list <==> r in rows && rows[r].owner == ws)
  }

  function RowsAt(list: seq<Id>, rows: Rows): seq<Row>
    requires forall r :: r in list ==> r in rows
  {
    seq(|list|, i requires 0 <= i < |list| => rows[list[i]])
  }
}
