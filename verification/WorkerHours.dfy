/** The per-weekday view of a worker's rows: a closed row blanks its day, a later open row starts the day again. */
module WorkerHours {
  import opened Wrappers
  import Schedule

  type WeekDay = Schedule.WeekDay
  type Range = (string, string)
  datatype Row = Row(weekDay: WeekDay, range: Range, closed: bool)

  /** None is the closed day. A weekday without rows is absent. */
  type View = map<WeekDay, Option<seq<Range>>>

  function Take(view: View, r: Row): View {
    var day := if r.weekDay in view && view[r.weekDay].Some? then view[r.weekDay].value else [];
    view[r.weekDay := if r.closed then None else Some(day + [r.range])]
  }

  function Fold(rows: seq<Row>): View {
    if rows == [] then map[] else Take(Fold(rows[..|rows| - 1]), rows[|rows| - 1])
  }

  method GetWorkerHours(rows: seq<Row>) returns (hours: View)
    ensures hours == Fold(rows)
  {
    hours := map[];
    for i := 0 to |rows|
      invariant hours == Fold(rows[..i])
    {
      var r := rows[i];
      assert rows[..i + 1][..i] == rows[..i];
      if r.weekDay !in hours || hours[r.weekDay].None? {
        hours := hours[r.weekDay := Some([])];
      }
      if r.closed {
        hours := hours[r.weekDay := None];
      } else {
        hours := hours[r.weekDay := Some(hours[r.weekDay].value + [r.range])];
      }
    }
    assert rows[..|rows|] == rows;
  }

  ghost predicate HasClosed(rows: seq<Row>, d: WeekDay) {
    exists i :: 0 <= i < |rows| && rows[i].weekDay == d && rows[i].closed
  }

  ghost predicate HasOpen(rows: seq<Row>, d: WeekDay) {
    exists i :: 0 <= i < |rows| && rows[i].weekDay == d && !rows[i].closed
  }

  /** The open ranges of a day, in row order. */
  function OpenRanges(rows: seq<Row>, d: WeekDay): seq<Range> {
    if rows == [] then []
    else
      var r := rows[|rows| - 1];
      OpenRanges(rows[..|rows| - 1], d) + if r.weekDay == d && !r.closed then [r.range] else []
  }

  lemma {:induction false} HasPush(rows: seq<Row>, r: Row, d: WeekDay)
    ensures HasClosed(rows + [r], d) <==> HasClosed(rows, d) || (r.weekDay == d && r.closed)
    ensures HasOpen(rows + [r], d) <==> HasOpen(rows, d) || (r.weekDay == d && !r.closed)
  {
    var all := rows + [r];
    assert all[|rows|] == r;
    if HasClosed(rows, d) {
      var i :| 0 <= i < |rows| && rows[i].weekDay == d && rows[i].closed;
      assert all[i] == rows[i];
    }
    if HasOpen(rows, d) {
      var i :| 0 <= i < |rows| && rows[i].weekDay == d && !rows[i].closed;
      assert all[i] == rows[i];
    }
  }

  /** On a day that does not mix the view is what the rows say: closed, or all open ranges, or absent. */
  lemma {:induction false} UnmixedDay(rows: seq<Row>, d: WeekDay)
    requires !(HasClosed(rows, d) && HasOpen(rows, d))
    ensures d in Fold(rows) <==> HasClosed(rows, d) || HasOpen(rows, d)
    ensures HasClosed(rows, d) ==> Fold(rows)[d] == None
    ensures HasOpen(rows, d) ==> Fold(rows)[d] == Some(OpenRanges(rows, d))
    ensures !HasOpen(rows, d) ==> OpenRanges(rows, d) == []
    decreases |rows|
  {
    if rows != [] {
      var n := |rows| - 1;
      assert rows == rows[..n] + [rows[n]];
      HasPush(rows[..n], rows[n], d);
      UnmixedDay(rows[..n], d);
      assert [] + [rows[n].range] == [rows[n].range];
      assert OpenRanges(rows[..n], d) + [] == OpenRanges(rows[..n], d);
    }
  }

  /** The view has these open ranges on the day; without any the day is closed, or absent if nothing closed it. */
  predicate Stands(view: View, d: WeekDay, open: seq<Range>, closedBefore: bool) {
    if open != [] then d in view && view[d] == Some(open)
    else if closedBefore then d in view && view[d] == None
    else d !in view
  }

  lemma TakeStands(view: View, r: Row, d: WeekDay, open: seq<Range>, closedBefore: bool)
    requires Stands(view, d, open, closedBefore) && (r.weekDay == d ==> !r.closed)
    ensures Stands(Take(view, r), d, open + if r.weekDay == d then [r.range] else [], closedBefore)
  {
    assert [] + [r.range] == [r.range] && open + [] == open;
  }

  /**
  Any day, mixed or not: where `k` is just after the last closed row of the day, or 0 if there is none, the
  open ranges of the day from there on stand.
  */
  lemma {:induction false} MixedDay(rows: seq<Row>, d: WeekDay, k: nat)
    requires k <= |rows| && (k > 0 ==> rows[k - 1].weekDay == d && rows[k - 1].closed)
    requires forall i :: k <= i < |rows| && rows[i].weekDay == d ==> !rows[i].closed
    ensures Stands(Fold(rows), d, OpenRanges(rows[k..], d), k > 0)
    decreases |rows|
  {
    var n := |rows| - 1;
    if k < |rows| {
      var front := rows[..n];
      MixedDay(front, d, k);
      assert rows[k..] == front[k..] + [rows[n]];
      assert rows[k..][..|rows[k..]| - 1] == front[k..];
      TakeStands(Fold(front), rows[n], d, OpenRanges(front[k..], d), k > 0);
    }
  }

  /** The last row of a day decides whether it is closed. */
  lemma LastRowDecides(rows: seq<Row>, r: Row)
    ensures r.weekDay in Fold(rows + [r])
    ensures Fold(rows + [r])[r.weekDay].None? <==> r.closed
  {
    assert (rows + [r])[..|rows|] == rows;
  }

  ghost predicate SameDayView(a: View, b: View, d: WeekDay) {
    && (d in a <==> d in b)
    && (d in a ==> (a[d].None? <==> b[d].None?) && (a[d].Some? ==> multiset(a[d].value) == multiset(b[d].value)))
  }

  lemma {:induction false} OpenRangesCount(rows: seq<Row>, d: WeekDay)
    ensures forall x :: multiset(OpenRanges(rows, d))[x] == multiset(rows)[Row(d, x, false)]
    decreases |rows|
  {
    if rows != [] {
      var n := |rows| - 1;
      OpenRangesCount(rows[..n], d);
      assert rows == rows[..n] + [rows[n]];
    }
  }

  lemma SameRowsSameKinds(p: seq<Row>, q: seq<Row>, d: WeekDay)
    requires multiset(p) == multiset(q)
    ensures HasClosed(p, d) ==> HasClosed(q, d)
    ensures HasOpen(p, d) ==> HasOpen(q, d)
  {
    if HasClosed(p, d) {
      var i :| 0 <= i < |p| && p[i].weekDay == d && p[i].closed;
      assert p[i] in multiset(q);
    }
    if HasOpen(p, d) {
      var i :| 0 <= i < |p| && p[i].weekDay == d && !p[i].closed;
      assert p[i] in multiset(q);
    }
  }

  lemma UnmixedOrderFree(p: seq<Row>, q: seq<Row>, d: WeekDay)
    requires multiset(p) == multiset(q) && !(HasClosed(p, d) && HasOpen(p, d))
    ensures SameDayView(Fold(p), Fold(q), d)
  {
    SameRowsSameKinds(p, q, d);
    SameRowsSameKinds(q, p, d);
    UnmixedDay(p, d);
    UnmixedDay(q, d);
    OpenRangesCount(p, d);
    OpenRangesCount(q, d);
    assert multiset(OpenRanges(p, d)) == multiset(OpenRanges(q, d));
  }

  lemma MoveToEnd(rows: seq<Row>, i: nat) returns (p: seq<Row>)
    requires i < |rows|
    ensures multiset(p + [rows[i]]) == multiset(rows)
  {
    p := rows[..i] + rows[i + 1..];
    assert rows == rows[..i] + [rows[i]] + rows[i + 1..];
  }

  /**
  The view of a day is independent of the order in which the store lists the rows exactly when the day does
  not mix closed and open rows.
  */
  lemma OrderFreeIffUnmixed(rows: seq<Row>, d: WeekDay)
    ensures (forall p, q :: multiset(p) == multiset(rows) && multiset(q) == multiset(rows) ==>
            SameDayView(Fold(p), Fold(q), d)) <==>
            !(HasClosed(rows, d) && HasOpen(rows, d))
  {
    if HasClosed(rows, d) && HasOpen(rows, d) {
      var i :| 0 <= i < |rows| && rows[i].weekDay == d && rows[i].closed;
      var j :| 0 <= j < |rows| && rows[j].weekDay == d && !rows[j].closed;
      var p := MoveToEnd(rows, i);
      var q := MoveToEnd(rows, j);
      LastRowDecides(p, rows[i]);
      LastRowDecides(q, rows[j]);
      assert !SameDayView(Fold(p + [rows[i]]), Fold(q + [rows[j]]), d);
    } else {
      forall p, q | multiset(p) == multiset(rows) && multiset(q) == multiset(rows)
          ensures SameDayView(Fold(p), Fold(q), d) {
        SameRowsSameKinds(p, rows, d);
        UnmixedOrderFree(p, q, d);
      }
    }
  }
}
