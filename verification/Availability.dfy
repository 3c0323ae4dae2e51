/**
The search for start times of a chain of services on one day: free windows of every user, a quick test
that ends hopeless searches, and the backtracking search for every candidate start.
*/
module Availability {
  import opened Wrappers
  import opened Windows
  import opened Assign
  import opened DayGrid

  /** The shifts and the busy events of each user; `now` is given when the day is today. */
  datatype Agenda = Agenda(shifts: map<UserId, seq<Window>>, busy: map<UserId, seq<Window>>, now: Option<int>)
  {
    function ShiftsOf(u: UserId): seq<Window> {
      if u in shifts then shifts[u] else []
    }

    function BusyOf(u: UserId): seq<Window> {
      if u in busy then busy[u] else []
    }

    ghost predicate MinuteAligned() {
      && (forall u :: u in shifts ==> AllAligned(shifts[u]))
      && (forall u :: u in busy ==> AllAligned(busy[u]))
      && (now.Some? ==> Aligned(now.value))
    }

    /** At work and not busy at every instant from `s` to `e`. */
    ghost predicate FreeThroughout(u: UserId, s: int, e: int) {
      forall t :: s <= t < e ==> InShift(ShiftsOf(u), now, t) && !Covers(BusyOf(u), t)
    }
  }

  datatype Request = Request(attendees: seq<Attendee>, eligibleUsersByService: map<string, seq<UserId>>,
      users: seq<UserId>)

  type FreeTime = map<UserId, seq<Window>>

  function ProblemAt(r: Request, free: FreeTime, start: int): Problem {
    Problem(start, r.attendees, r.eligibleUsersByService, free)
  }

  ghost predicate PositiveDurations(r: Request) {
    forall k :: 0 <= k < |r.attendees| ==> r.attendees[k].durationMin > 0
  }

  /** Service `k` of the chain that starts at `start` has an eligible user who is free for its whole segment. */
  ghost predicate Served(agenda: Agenda, r: Request, start: int, k: nat)
    requires k < |r.attendees|
  {
    var p := ProblemAt(r, map[], start);
    exists u :: u in p.Candidates(k) && u in r.users && agenda.FreeThroughout(u, p.SegStart(k), p.SegEnd(k))
  }

  /** What a start time is for: every service is served. */
  ghost predicate Works(agenda: Agenda, r: Request, start: int) {
    forall k :: 0 <= k < |r.attendees| ==> Served(agenda, r, start, k)
  }

  // ----- The same told from the request and the agenda, instant by instant

  /** Instant `x` is in a shift of the user, from now on, and in no busy event. */
  ghost predicate FreeInstant(agenda: Agenda, u: UserId, x: int) {
    && (agenda.now.Some? ==> agenda.now.value <= x)
    && u in agenda.shifts
    && (exists i :: 0 <= i < |agenda.shifts[u]| && agenda.shifts[u][i].start <= x < agenda.shifts[u][i].end)
    && (u in agenda.busy ==>
          forall i :: 0 <= i < |agenda.busy[u]| ==> !(agenda.busy[u][i].start <= x < agenda.busy[u][i].end))
  }

  predicate MayPerform(r: Request, k: nat, u: UserId)
    requires k < |r.attendees|
  {
    var s := r.attendees[k].serviceId;
    s in r.eligibleUsersByService && u in r.eligibleUsersByService[s]
  }

  /** The minutes that the services before the `k`-th take. */
  function MinutesBefore(r: Request, k: nat): int
    requires k <= |r.attendees|
  {
    if k == 0 then 0 else MinutesBefore(r, k - 1) + r.attendees[k - 1].durationMin
  }

  lemma FreeExact(agenda: Agenda, u: UserId, x: int)
    ensures FreeInstant(agenda, u, x) <==>
            InShift(agenda.ShiftsOf(u), agenda.now, x) && !Covers(agenda.BusyOf(u), x)
  {
    CoversExact(agenda.ShiftsOf(u), x);
    CoversExact(agenda.BusyOf(u), x);
  }

  lemma CoversExact(ws: seq<Window>, x: int)
    ensures Covers(ws, x) <==> exists i :: 0 <= i < |ws| && ws[i].start <= x < ws[i].end
  {
    if i :| 0 <= i < |ws| && ws[i].start <= x < ws[i].end {
      assert In(ws[i], x);
    }
  }

  lemma {:induction false} BeforeExact(r: Request, start: int, k: nat)
    requires k <= |r.attendees|
    ensures ProblemAt(r, map[], start).SegStart(k) == start + MinutesBefore(r, k) * MINUTE
  {
    var p := ProblemAt(r, map[], start);
    if k == 0 {
      assert r.attendees[..0] == [];
    } else {
      BeforeExact(r, start, k - 1);
      SegmentsConsecutive(p, k - 1);
    }
  }

  /**
  A service of a chain is served exactly if somebody who may perform it is at work and not busy at every
  instant of its time, which begins when the services before it are over.
  */
  lemma ServedExact(agenda: Agenda, r: Request, start: int, k: nat)
    requires k < |r.attendees|
    ensures var s := start + MinutesBefore(r, k) * MINUTE;
            var e := s + r.attendees[k].durationMin * MINUTE;
            Served(agenda, r, start, k) <==>
            exists u :: MayPerform(r, k, u) && u in r.users && forall x :: s <= x < e ==> FreeInstant(agenda, u, x)
  {
    var p := ProblemAt(r, map[], start);
    BeforeExact(r, start, k);
    SegmentsConsecutive(p, k);
    forall u, x ensures FreeInstant(agenda, u, x) <==>
        InShift(agenda.ShiftsOf(u), agenda.now, x) && !Covers(agenda.BusyOf(u), x) {
      FreeExact(agenda, u, x);
    }
    forall u ensures u in p.Candidates(k) <==> MayPerform(r, k, u) {
    }
  }

  ghost predicate IsFreeTimeOf(agenda: Agenda, users: seq<UserId>, free: FreeTime) {
    && (forall u :: u in free <==> u in users)
    && (forall u :: u in free ==> Canonical(free[u]))
    && (forall u, t :: u in free ==> (Covers(free[u], t) <==>
         InShift(agenda.ShiftsOf(u), agenda.now, t) && !Covers(agenda.BusyOf(u), t)))
  }

  method FreeWindowsByUser(agenda: Agenda, users: seq<UserId>) returns (free: FreeTime)
    ensures IsFreeTimeOf(agenda, users, free)
  {
    free := map[];
    for i := 0 to |users|
      invariant IsFreeTimeOf(agenda, users[..i], free)
    {
      var u := users[i];
      var windows := FreeWindows(agenda.ShiftsOf(u), agenda.BusyOf(u), agenda.now);
      free := free[u := windows];
      assert users[..i + 1] == users[..i] + [u];
    }
    assert users[..|users|] == users;
  }

  // ----- One start time

  lemma MinutesOn(t: int, n: int)
    requires Aligned(t)
    ensures Aligned(t + n * MINUTE)
  {
  }

  lemma SegmentAligned(p: Problem, k: nat)
    requires k < |p.attendees| && Aligned(p.start) && p.attendees[k].durationMin > 0
    ensures Aligned(p.SegStart(k)) && Aligned(p.SegEnd(k)) && p.SegStart(k) < p.SegEnd(k)
  {
    MinutesOn(p.start, SumDurations(p.attendees[..k]));
    MinutesOn(p.SegStart(k), p.attendees[k].durationMin);
  }

  /** On minute-aligned data a user fits a service exactly if the user is free throughout its segment. */
  lemma FitsIsFree(agenda: Agenda, r: Request, free: FreeTime, start: int, k: nat, u: UserId)
    requires agenda.MinuteAligned() && Aligned(start) && PositiveDurations(r) && k < |r.attendees|
             && IsFreeTimeOf(agenda, r.users, free)
    ensures var p := ProblemAt(r, free, start);
            p.Fits(k, u) <==> u in r.users && agenda.FreeThroughout(u, p.SegStart(k), p.SegEnd(k))
  {
    var p := ProblemAt(r, free, start);
    SegmentAligned(p, k);
    if u in r.users {
      assert u in free && p.WindowsOf(u) == free[u];
      SlotTestExact(free[u], agenda.ShiftsOf(u), agenda.BusyOf(u), agenda.now, p.SegStart(k), p.SegEnd(k));
    } else {
      assert u !in free && p.WindowsOf(u) == [];
    }
  }

  lemma FitIsServed(agenda: Agenda, r: Request, free: FreeTime, start: int, k: nat)
    requires agenda.MinuteAligned() && Aligned(start) && PositiveDurations(r) && k < |r.attendees|
             && IsFreeTimeOf(agenda, r.users, free)
    ensures HasFit(ProblemAt(r, free, start), k) <==> Served(agenda, r, start, k)
  {
    var p, q := ProblemAt(r, free, start), ProblemAt(r, map[], start);
    assert p.Candidates(k) == q.Candidates(k) && p.SegStart(k) == q.SegStart(k) && p.SegEnd(k) == q.SegEnd(k);
    forall u ensures p.Fits(k, u) <==> u in r.users && agenda.FreeThroughout(u, p.SegStart(k), p.SegEnd(k)) {
      FitsIsFree(agenda, r, free, start, k, u);
    }
  }

  /**
  The search for one start time succeeds exactly if every service is served: no clash and no choice of
  windows gets in the way.
  */
  lemma SearchExact(agenda: Agenda, r: Request, free: FreeTime, start: int)
    requires agenda.MinuteAligned() && Aligned(start) && PositiveDurations(r) && IsFreeTimeOf(agenda, r.users, free)
    ensures Satisfiable(ProblemAt(r, free, start), [], 0) <==> Works(agenda, r, start)
  {
    var p := ProblemAt(r, free, start);
    BacktrackingIsGreedy(p, [], 0, []);
    forall k: nat | k < |r.attendees| ensures HasFit(p, k) <==> Served(agenda, r, start, k) {
      FitIsServed(agenda, r, free, start, k);
    }
  }

  // ----- The quick test

  /** A window of at least the minutes asked for, counted in whole minutes. */
  predicate LongEnough(w: Window, minutes: int) {
    (w.end - w.start) / MINUTE >= minutes
  }

  ghost predicate HasLongWindow(r: Request, free: FreeTime, k: nat)
    requires k < |r.attendees|
  {
    var p := ProblemAt(r, free, 0);
    exists u, i :: u in p.Candidates(k) && 0 <= i < |p.WindowsOf(u)|
        && LongEnough(p.WindowsOf(u)[i], r.attendees[k].durationMin)
  }

  method FindLongWindow(r: Request, free: FreeTime, k: nat) returns (found: bool)
    requires k < |r.attendees|
    ensures found <==> HasLongWindow(r, free, k)
  {
    var p, minutes := ProblemAt(r, free, 0), r.attendees[k].durationMin;
    var candidates := p.Candidates(k);
    for n := 0 to |candidates|
      invariant forall m, i :: 0 <= m < n && 0 <= i < |p.WindowsOf(candidates[m])| ==>
                !LongEnough(p.WindowsOf(candidates[m])[i], minutes)
    {
      var wins := p.WindowsOf(candidates[n]);
      for i := 0 to |wins|
        invariant forall j :: 0 <= j < i ==> !LongEnough(wins[j], minutes)
      {
        if LongEnough(wins[i], minutes) {
          assert candidates[n] in p.Candidates(k) && LongEnough(p.WindowsOf(candidates[n])[i], minutes);
          return true;
        }
      }
    }
    return false;
  }

  /**
  A service that is served has a window the quick test looks for, so the test ends no search that would find
  a start.
  */
  lemma ServedHasWindow(agenda: Agenda, r: Request, free: FreeTime, start: int, k: nat)
    requires agenda.MinuteAligned() && Aligned(start) && PositiveDurations(r) && k < |r.attendees|
             && IsFreeTimeOf(agenda, r.users, free)
    requires Served(agenda, r, start, k)
    ensures HasLongWindow(r, free, k)
  {
    var p := ProblemAt(r, free, start);
    FitIsServed(agenda, r, free, start, k);
    var u :| u in p.Candidates(k) && p.Fits(k, u);
    var i :| 0 <= i < |p.WindowsOf(u)| && WindowContains(p.WindowsOf(u)[i], p.SegStart(k), p.SegEnd(k));
    var w := p.WindowsOf(u)[i];
    SegmentAligned(p, k);
    FreeWindowsAligned(free[u], agenda.ShiftsOf(u), agenda.BusyOf(u), agenda.now);
    assert w.end - w.start >= r.attendees[k].durationMin * MINUTE;
    assert LongEnough(ProblemAt(r, free, 0).WindowsOf(u)[i], r.attendees[k].durationMin);
  }

  // ----- All start times

  /** The candidates that work, in the order given. */
  ghost function Working(agenda: Agenda, r: Request, candidates: seq<int>): (starts: seq<int>)
    ensures forall s :: s in starts <==> s in candidates && Works(agenda, r, s)
  {
    if candidates == [] then []
    else
      var front, last := candidates[..|candidates| - 1], candidates[|candidates| - 1];
      assert candidates == front + [last];
      Working(agenda, r, front) + if Works(agenda, r, last) then [last] else []
  }

  /** The quick test: with several services, does one have no window that could hold it? */
  method Hopeless(r: Request, free: FreeTime) returns (hopeless: bool)
    ensures hopeless ==> exists k :: 0 <= k < |r.attendees| && !HasLongWindow(r, free, k)
  {
    if |r.attendees| > 1 {
      for k := 0 to |r.attendees| {
        var found := FindLongWindow(r, free, k);
        if !found { return true; }
      }
    }
    return false;
  }

  lemma HopelessWorksNot(agenda: Agenda, r: Request, free: FreeTime, start: int)
    requires agenda.MinuteAligned() && Aligned(start) && PositiveDurations(r) && IsFreeTimeOf(agenda, r.users, free)
    requires exists k :: 0 <= k < |r.attendees| && !HasLongWindow(r, free, k)
    ensures !Works(agenda, r, start)
  {
    var k :| 0 <= k < |r.attendees| && !HasLongWindow(r, free, k);
    if Works(agenda, r, start) {
      assert Served(agenda, r, start, k);
      ServedHasWindow(agenda, r, free, start, k);
    }
  }

  /** The candidates in turn, each searched with nothing used yet. */
  method SearchStarts(ghost agenda: Agenda, r: Request, free: FreeTime, candidates: seq<int>) returns (starts: seq<int>)
    requires agenda.MinuteAligned() && PositiveDurations(r) && IsFreeTimeOf(agenda, r.users, free)
    requires forall c :: c in candidates ==> Aligned(c)
    ensures starts == Working(agenda, r, candidates)
  {
    starts := [];
    for i := 0 to |candidates|
      invariant starts == Working(agenda, r, candidates[..i])
    {
      var ctx := new SearchState([]);
      var ok, choice := AssignSequentially(ProblemAt(r, free, candidates[i]), 0, ctx);
      SearchExact(agenda, r, free, candidates[i]);
      assert candidates[..i + 1][..i] == candidates[..i];
      if ok {
        starts := starts + [candidates[i]];
      }
    }
    assert candidates[..|candidates|] == candidates;
  }

  // ----- The candidates of a day

  /** The last minute at which the whole chain still ends before the day does. */
  function LastStart(day: Day, r: Request): int {
    TruncMinute(day.end - SumDurations(r.attendees) * MINUTE)
  }

  ghost predicate IsSeedWindow(r: Request, free: FreeTime, w: Window)
    requires r.attendees != []
  {
    exists u :: u in ProblemAt(r, free, 0).Candidates(0) && u in free && w in free[u]
  }

  /** The free windows of the users who may perform the first service. */
  method SeedWindows(r: Request, free: FreeTime) returns (wins: seq<Window>)
    requires r.attendees != []
    ensures forall w :: w in wins <==> IsSeedWindow(r, free, w)
  {
    var users := ProblemAt(r, free, 0).Candidates(0);
    wins := [];
    for i := 0 to |users|
      invariant forall w :: w in wins <==> exists j :: 0 <= j < i && users[j] in free && w in free[users[j]]
    {
      if users[i] in free {
        wins := wins + free[users[i]];
      }
    }
  }

  /** Some user who may perform the first service is free just before `t`. */
  ghost predicate FreeBefore(agenda: Agenda, r: Request, day: Day, t: int)
    requires r.attendees != []
  {
    day.start < t && exists u :: MayPerform(r, 0, u) && u in r.users && FreeInstant(agenda, u, t - 1)
  }

  /**
  What the day offers: the grid points of the day at which the whole chain fits, inside the booking window
  and with every service served. At the very last one someone for the first service must also have been
  free just before, because a window that only begins then is skipped.
  */
  ghost predicate Offered(agenda: Agenda, r: Request, day: Day, earliest: int, latest: int, t: int)
    requires r.attendees != [] && day.step > 0
  {
    && OnGrid(day, t) && day.start <= t <= LastStart(day, r) && earliest <= t <= latest && Works(agenda, r, t)
    && (t == LastStart(day, r) ==> FreeBefore(agenda, r, day, t))
  }

  lemma SeedAligned(agenda: Agenda, r: Request, free: FreeTime, w: Window)
    requires agenda.MinuteAligned() && IsFreeTimeOf(agenda, r.users, free) && r.attendees != []
             && IsSeedWindow(r, free, w)
    ensures Aligned(w.start) && Aligned(w.end)
  {
    var u :| u in ProblemAt(r, free, 0).Candidates(0) && u in free && w in free[u];
    FreeWindowsAligned(free[u], agenda.ShiftsOf(u), agenda.BusyOf(u), agenda.now);
  }

  /** The ends of a seed window as the layout of candidates takes them. */
  lemma SeedEnds(day: Day, r: Request, w: Window, last: int)
    requires Proper(day) && Aligned(w.start) && Aligned(w.end) && last == day.end - SumDurations(r.attendees) * MINUTE
    ensures From(day, w) == Max(w.start, day.start) && Until(w, last) == Min(w.end, LastStart(day, r))
  {
    if w.end <= last {
      TruncMonotone(w.end, last);
    } else {
      TruncMonotone(last, w.end);
    }
  }

  /** A start at which the first service is served lies in a seed window that holds the service. */
  lemma ServedInSeed(agenda: Agenda, r: Request, free: FreeTime, t: int) returns (w: Window)
    requires agenda.MinuteAligned() && Aligned(t) && PositiveDurations(r) && IsFreeTimeOf(agenda, r.users, free)
    requires r.attendees != [] && Served(agenda, r, t, 0)
    ensures IsSeedWindow(r, free, w) && w.start <= t < w.end
  {
    var p := ProblemAt(r, free, t);
    FitIsServed(agenda, r, free, t, 0);
    var u :| u in p.Candidates(0) && p.Fits(0, u);
    var i :| 0 <= i < |p.WindowsOf(u)| && WindowContains(p.WindowsOf(u)[i], p.SegStart(0), p.SegEnd(0));
    w := p.WindowsOf(u)[i];
    assert u in free && w in free[u];
    assert IsSeedWindow(r, free, w);
    SegmentAligned(p, 0);
    assert p.SegStart(0) == t;
    SeedAligned(agenda, r, free, w);
    WindowContainsExact(w, p.SegStart(0), p.SegEnd(0));
  }

  /** Free just before a whole minute means inside a seed window that reaches it. */
  lemma BeforeInSeed(agenda: Agenda, r: Request, day: Day, free: FreeTime, t: int)
    requires agenda.MinuteAligned() && Aligned(t) && IsFreeTimeOf(agenda, r.users, free) && r.attendees != []
    ensures FreeBefore(agenda, r, day, t) <==>
            day.start < t && exists w :: IsSeedWindow(r, free, w) && w.start < t <= w.end
  {
    if FreeBefore(agenda, r, day, t) {
      var u :| MayPerform(r, 0, u) && u in r.users && FreeInstant(agenda, u, t - 1);
      FreeExact(agenda, u, t - 1);
      assert Covers(free[u], t - 1);
      var i :| 0 <= i < |free[u]| && In(free[u][i], t - 1);
      assert u in ProblemAt(r, free, 0).Candidates(0) && free[u][i] in free[u];
      assert IsSeedWindow(r, free, free[u][i]) && free[u][i].start < t <= free[u][i].end;
    }
    if w :| IsSeedWindow(r, free, w) && w.start < t <= w.end {
      var u :| u in ProblemAt(r, free, 0).Candidates(0) && u in free && w in free[u];
      assert In(w, t - 1) && Covers(free[u], t - 1);
      FreeExact(agenda, u, t - 1);
      assert MayPerform(r, 0, u);
    }
  }

  /**
  Of the starts that work exactly those are candidates that lie on the grid up to the last start, but for
  the exception there.
  */
  lemma CandidatesExact(agenda: Agenda, r: Request, day: Day, free: FreeTime, wins: seq<Window>, last: int, t: int)
    requires agenda.MinuteAligned() && PositiveDurations(r) && IsFreeTimeOf(agenda, r.users, free)
             && r.attendees != [] && Proper(day)
    requires forall w :: w in wins <==> IsSeedWindow(r, free, w)
    requires last == day.end - SumDurations(r.attendees) * MINUTE
    requires Works(agenda, r, t)
    ensures Given(day, wins, last, t) <==>
            OnGrid(day, t) && day.start <= t <= LastStart(day, r)
                && (t == LastStart(day, r) ==> FreeBefore(agenda, r, day, t))
  {
    if Given(day, wins, last, t) {
      var i :| 0 <= i < |wins| && Gives(day, wins[i], last, t);
      var w := wins[i];
      assert IsSeedWindow(r, free, w);
      SeedAligned(agenda, r, free, w);
      SeedEnds(day, r, w, last);
      BeforeInSeed(agenda, r, day, free, t);
    }
    if OnGrid(day, t) && day.start <= t <= LastStart(day, r)
        && (t == LastStart(day, r) ==> FreeBefore(agenda, r, day, t)) {
      BeforeInSeed(agenda, r, day, free, t);
      assert Served(agenda, r, t, 0);
      var w := ServedInSeed(agenda, r, free, t);
      if t == LastStart(day, r) {
        w :| IsSeedWindow(r, free, w) && w.start < t <= w.end;
      }
      SeedAligned(agenda, r, free, w);
      SeedEnds(day, r, w, last);
      assert w in wins;
      var i :| 0 <= i < |wins| && wins[i] == w;
      assert Gives(day, wins[i], last, t);
    }
  }

  /** The starts inside the booking window. */
  method Bookable(candidates: seq<int>, earliest: int, latest: int) returns (kept: seq<int>)
    requires Ascending(candidates)
    ensures Ascending(kept) && forall t :: t in kept <==> t in candidates && earliest <= t <= latest
  {
    kept := [];
    for i := 0 to |candidates|
      invariant Ascending(kept) && forall t :: t in kept <==> t in candidates[..i] && earliest <= t <= latest
    {
      assert candidates[..i + 1] == candidates[..i] + [candidates[i]];
      if earliest <= candidates[i] <= latest {
        forall j | 0 <= j < |kept| ensures kept[j] < candidates[i] {
          assert kept[j] in kept && kept[j] in candidates[..i];
        }
        kept := kept + [candidates[i]];
      }
    }
    assert candidates[..|candidates|] == candidates;
  }

  lemma {:induction false} WorkingAscends(agenda: Agenda, r: Request, candidates: seq<int>)
    requires Ascending(candidates)
    ensures Ascending(Working(agenda, r, candidates))
  {
    if candidates != [] {
      var n := |candidates| - 1;
      var front := Working(agenda, r, candidates[..n]);
      WorkingAscends(agenda, r, candidates[..n]);
      forall j | 0 <= j < |front| ensures front[j] < candidates[n] {
        assert front[j] in front && front[j] in candidates[..n];
      }
    }
  }

  /**
  The start times of a day for a chain of services: on minute-aligned data exactly those offered, in
  ascending order, each once.
  */
  method ChainStarts(agenda: Agenda, r: Request, day: Day, earliest: int, latest: int, free: FreeTime)
      returns (starts: seq<int>)
    requires IsFreeTimeOf(agenda, r.users, free)
    requires agenda.MinuteAligned() && PositiveDurations(r) && r.attendees != [] && Proper(day)
    ensures Ascending(starts)
    ensures forall t :: t in starts <==> Offered(agenda, r, day, earliest, latest, t)
  {
    var hopeless := Hopeless(r, free);
    if hopeless {
      forall t ensures !Offered(agenda, r, day, earliest, latest, t) {
        if OnGrid(day, t) {
          HopelessWorksNot(agenda, r, free, t);
        }
      }
      return [];
    }
    var wins := SeedWindows(r, free);
    var last := day.end - SumDurations(r.attendees) * MINUTE;
    var points := CollectPoints(day, wins, last);
    var candidates := InOrder(points);
    candidates := Bookable(candidates, earliest, latest);
    starts := SearchStarts(agenda, r, free, candidates);
    WorkingAscends(agenda, r, candidates);
    forall t ensures t in starts <==> Offered(agenda, r, day, earliest, latest, t) {
      if Works(agenda, r, t) {
        CandidatesExact(agenda, r, day, free, wins, last, t);
      }
    }
  }

  const HOUR := 60 * MINUTE

  /**
  Two services of half an hour, a day of 24 hours with a grid of minutes, and a shift that begins at the
  last start: it works and is not offered.
  */
  lemma LastStartMissed()
    ensures var last := 23 * HOUR - MINUTE;
            var agenda := Agenda(map["u" := [Window(last, last + HOUR)]], map[], None);
            var r := Request([Attendee("s", 30), Attendee("s", 30)], map["s" := ["u"]], ["u"]);
            var day := Day(0, 24 * HOUR - 1, 1);
            && agenda.MinuteAligned() && PositiveDurations(r) && Proper(day)
            && LastStart(day, r) == last && OnGrid(day, last) && Works(agenda, r, last)
                 && !Offered(agenda, r, day, 0, last, last)
  {
    var last := 23 * HOUR - MINUTE;
    var shift := Window(last, last + HOUR);
    var agenda := Agenda(map["u" := [shift]], map[], None);
    var r := Request([Attendee("s", 30), Attendee("s", 30)], map["s" := ["u"]], ["u"]);
    var day := Day(0, 24 * HOUR - 1, 1);
    assert LastStart(day, r) == last;
    var p := ProblemAt(r, map[], last);
    assert p.SegStart(0) == last && p.SegEnd(0) == last + HOUR / 2;
    assert p.SegStart(1) == last + HOUR / 2 && p.SegEnd(1) == last + HOUR;
    forall t ensures Covers([shift], t) <==> In(shift, t) {
      assert In([shift][0], t) <==> In(shift, t);
    }
    assert "u" in p.Candidates(0) && "u" in p.Candidates(1);
    assert agenda.FreeThroughout("u", last, last + HOUR / 2);
    assert agenda.FreeThroughout("u", last + HOUR / 2, last + HOUR);
    assert Served(agenda, r, last, 0) && Served(agenda, r, last, 1);
    forall u | MayPerform(r, 0, u) ensures !FreeInstant(agenda, u, last - 1) {
      assert u == "u";
    }
  }

}
