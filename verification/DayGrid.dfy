/**
The candidate start times of one day: points of a grid of whole minutes inside the free windows of the first
service's staff.
*/
module DayGrid {
  import opened Windows
  import opened Sorting

  /**
  The day in the zone of the workspace, from midnight to its last millisecond, with the minutes between grid
  points.
  */
  datatype Day = Day(start: int, end: int, step: int)

  predicate Proper(day: Day) {
    Aligned(day.start) && day.step > 0
  }

  /** Whole minutes since midnight. */
  function MinuteIn(day: Day, t: int): int {
    (t - day.start) / MINUTE
  }

  predicate OnGrid(day: Day, t: int)
    requires day.step > 0
  {
    Aligned(t) && MinuteIn(day, t) % day.step == 0
  }

  /** The next grid point, seconds dropped. */
  function AlignToGridCeil(t: int, day: Day): int
    requires day.step > 0
  {
    var diffMin := Max(0, (t - TruncMinute(day.start)) / MINUTE);
    var rem := diffMin % day.step;
    TruncMinute(t + (if rem == 0 then 0 else day.step - rem) * MINUTE)
  }

  lemma AtLeastOnce(x: int, step: int)
    requires step > 0 && x >= 1
    ensures x * step >= step
  {
  }

  /** Quotient and remainder are unique. */
  lemma DivisionUnique(a: int, q: int, r: int, step: int)
    requires step > 0 && 0 <= r < step && a == q * step + r
    ensures a / step == q && a % step == r
  {
    var d, m := a / step, a % step;
    assert a == d * step + m;
    assert (q - d) * step == m - r && (d - q) * step == r - m;
    if q > d {
      AtLeastOnce(q - d, step);
    } else if d > q {
      AtLeastOnce(d - q, step);
    }
  }

  lemma NextMultiple(a: int, step: int)
    requires step > 0
    ensures var up := if a % step == 0 then 0 else step - a % step; 0 <= up < step && (a + up) % step == 0
  {
    var q := a / step;
    assert a == q * step + a % step;
    if a % step != 0 {
      assert a + (step - a % step) == (q + 1) * step + 0;
      DivisionUnique(a + (step - a % step), q + 1, 0, step);
    }
  }

  lemma StepUp(a: int, step: int)
    requires step > 0 && a % step == 0
    ensures (a + step) % step == 0
  {
    var q := a / step;
    assert a + step == (q + 1) * step + 0;
    DivisionUnique(a + step, q + 1, 0, step);
  }

  /** Multiples less than a step apart are equal. */
  lemma NearMultiples(a: int, b: int, step: int)
    requires step > 0 && a % step == 0 && b % step == 0 && a <= b < a + step
    ensures a == b
  {
    var q := a / step;
    assert b == q * step + (b - a);
    DivisionUnique(b, q, b - a, step);
  }

  /** From a whole minute of the day on, the aligned time is the first grid point. */
  lemma CeilIsFirst(day: Day, t: int)
    requires Proper(day) && Aligned(t) && day.start <= t
    ensures var c := AlignToGridCeil(t, day);
            OnGrid(day, c) && t <= c && forall u :: OnGrid(day, u) && t <= u ==> c <= u
  {
    var a := MinuteIn(day, t);
    var up := if a % day.step == 0 then 0 else day.step - a % day.step;
    NextMultiple(a, day.step);
    var c := t + up * MINUTE;
    assert AlignToGridCeil(t, day) == c;
    forall u | OnGrid(day, u) && t <= u ensures c <= u {
      if MinuteIn(day, u) < MinuteIn(day, c) {
        NearMultiples(MinuteIn(day, u), MinuteIn(day, c), day.step);
      }
    }
  }

  lemma NextOnGrid(day: Day, c: int)
    requires Proper(day) && OnGrid(day, c)
    ensures OnGrid(day, c + day.step * MINUTE)
    ensures forall u :: OnGrid(day, u) && c <= u < c + day.step * MINUTE ==> u == c
  {
    var a := MinuteIn(day, c);
    StepUp(a, day.step);
    forall u | OnGrid(day, u) && c <= u < c + day.step * MINUTE ensures u == c {
      NearMultiples(a, MinuteIn(day, u), day.step);
    }
  }

  // ----- The points of one window, and of all

  function From(day: Day, w: Window): int {
    TruncMinute(Max(w.start, day.start))
  }

  function Until(w: Window, last: int): int {
    TruncMinute(Min(w.end, last))
  }

  /** A point that the window gives: a window that has no time before the last start gives none, not even that. */
  predicate Gives(day: Day, w: Window, last: int, t: int)
    requires day.step > 0
  {
    From(day, w) < Until(w, last) && OnGrid(day, t) && From(day, w) <= t <= Until(w, last)
  }

  ghost predicate Given(day: Day, wins: seq<Window>, last: int, t: int)
    requires day.step > 0
  {
    exists i :: 0 <= i < |wins| && Gives(day, wins[i], last, t)
  }

  ghost predicate Distinct(s: seq<int>) {
    forall i, j :: 0 <= i < j < |s| ==> s[i] != s[j]
  }

  method AddPoints(day: Day, w: Window, last: int, keys: seq<int>) returns (keys': seq<int>)
    requires Proper(day) && Distinct(keys)
    ensures Distinct(keys') && forall t :: t in keys' <==> t in keys || Gives(day, w, last, t)
  {
    keys' := keys;
    var s0, e0 := From(day, w), Until(w, last);
    if s0 >= e0 { return; }
    CeilIsFirst(day, s0);
    var cur := AlignToGridCeil(s0, day);
    while cur <= e0
      invariant OnGrid(day, cur) && s0 <= cur && Distinct(keys')
      invariant forall t :: t in keys' <==> t in keys || (OnGrid(day, t) && s0 <= t <= e0 && t < cur)
      decreases e0 - cur
    {
      NextOnGrid(day, cur);
      if cur !in keys' {
        keys' := keys' + [cur];
      }
      cur := cur + day.step * MINUTE;
    }
  }

  /** The distinct points of all windows, in the order in which they are first given. */
  method CollectPoints(day: Day, wins: seq<Window>, last: int) returns (keys: seq<int>)
    requires Proper(day)
    ensures Distinct(keys) && forall t :: t in keys <==> Given(day, wins, last, t)
  {
    keys := [];
    for i := 0 to |wins|
      invariant Distinct(keys) && forall t :: t in keys <==> Given(day, wins[..i], last, t)
    {
      keys := AddPoints(day, wins[i], last, keys);
      assert wins[..i + 1] == wins[..i] + [wins[i]];
      forall t ensures Given(day, wins[..i + 1], last, t) <==>
          Given(day, wins[..i], last, t) || Gives(day, wins[i], last, t) {
        GivenPush(day, wins[..i], wins[i], last, t);
      }
    }
    assert wins[..|wins|] == wins;
  }

  lemma GivenPush(day: Day, front: seq<Window>, w: Window, last: int, t: int)
    requires day.step > 0
    ensures Given(day, front + [w], last, t) <==> Given(day, front, last, t) || Gives(day, w, last, t)
  {
    var all := front + [w];
    if i :| 0 <= i < |front| && Gives(day, front[i], last, t) {
      assert all[i] == front[i];
    }
    assert all[|front|] == w;
  }

  ghost predicate Ascending(s: seq<int>) {
    forall i, j :: 0 <= i < j < |s| ==> s[i] < s[j]
  }

  function ByTime(): int -> int { (t: int) => t }

  lemma {:induction false} DistinctOnce(s: seq<int>)
    ensures Distinct(s) <==> forall t :: multiset(s)[t] <= 1
    decreases |s|
  {
    if s != [] {
      var n := |s| - 1;
      var front, last := s[..n], s[n];
      assert s == front + [last];
      DistinctOnce(front);
      if Distinct(s) {
        assert last !in front && multiset(front)[last] == 0;
      } else if i, j :| 0 <= i < j < |s| && s[i] == s[j] {
        if j == n {
          assert front[i] == last && last in multiset(front);
          assert multiset(s)[last] > 1;
        } else {
          assert front[i] == front[j];
          var t :| multiset(front)[t] > 1;
          assert multiset(s)[t] > 1;
        }
      }
    }
  }

  /** Sorted and distinct is ascending, and sorting loses and adds nothing. */
  method InOrder(keys: seq<int>) returns (starts: seq<int>)
    requires Distinct(keys)
    ensures Ascending(starts) && forall t :: t in starts <==> t in keys
  {
    starts := SortBy(keys, ByTime());
    SortByCorrect(keys, ByTime());
    SortByMembers(keys, ByTime());
    DistinctOnce(keys);
    DistinctOnce(starts);
    forall i, j | 0 <= i < j < |starts| ensures starts[i] < starts[j] {
      assert ByTime()(starts[i]) <= ByTime()(starts[j]);
    }
  }
}
