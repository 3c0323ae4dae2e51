/**
The start times of one day that clients are offered: one service is laid out window by window, with its
group bookings where it is for several people; a chain of services is searched.
*/
module TimeSlots {
  import opened Wrappers
  import opened Windows
  import opened Assign
  import opened DayGrid
  import opened Availability

  /** A booking of the group service: the member of staff ("" for none), the time, and the clients booked. */
  datatype GroupEvent = GroupEvent(user: UserId, start: int, end: int, participants: nat, clients: set<string>)

  /** For how many people the service is, its bookings of the day, and the client who asks, if known. */
  datatype Group = Group(capacity: nat, events: seq<GroupEvent>, client: Option<string>)

  function SlotOf(ev: GroupEvent): Window {
    Window(TruncMinute(ev.start), TruncMinute(ev.end))
  }

  // ----- Room in a slot

  /** The booking that the indexes hold for the slot: the last one listed. */
  function Booked(events: seq<GroupEvent>, u: UserId, slot: Window): Option<GroupEvent> {
    if events == [] then None
    else
      var last := events[|events| - 1];
      if last.user == u && SlotOf(last) == slot then Some(last) else Booked(events[..|events| - 1], u, slot)
  }

  /** A service for one person always has room; a group has if a place is left and the client is not in it yet. */
  predicate Room(g: Group, u: UserId, slot: Window) {
    g.capacity > 1 ==>
      var booked := Booked(g.events, u, slot);
      booked.Some? ==>
        booked.value.participants < g.capacity &&
        !(g.client.Some? && g.client.value in booked.value.clients)
  }

  // ----- The windows of one user

  /** The time of a group booking of the user, from now on. */
  predicate GroupTime(ev: GroupEvent, now: Option<int>, u: UserId, t: int) {
    ev.user == u && u != "" && In(Window(ClampStart(SlotOf(ev), now), SlotOf(ev).end), t)
  }

  ghost predicate InGroup(g: Group, now: Option<int>, u: UserId, t: int) {
    g.capacity > 1 && exists i :: 0 <= i < |g.events| && GroupTime(g.events[i], now, u, t)
  }

  /** Free, or in a booking of the group service itself. */
  ghost predicate OpenAt(agenda: Agenda, r: Request, g: Group, u: UserId, t: int) {
    || (u in r.users && InShift(agenda.ShiftsOf(u), agenda.now, t) && !Covers(agenda.BusyOf(u), t))
    || InGroup(g, agenda.now, u, t)
  }

  ghost predicate NonEmptyAligned(ws: seq<Window>) {
    NonEmpty(ws) && AllAligned(ws)
  }

  method GroupWindows(events: seq<GroupEvent>, now: Option<int>, u: UserId) returns (added: seq<Window>)
    requires now.Some? ==> Aligned(now.value)
    ensures NonEmptyAligned(added)
    ensures forall t :: Covers(added, t) <==> exists i :: 0 <= i < |events| && GroupTime(events[i], now, u, t)
  {
    added := [];
    for i := 0 to |events|
      invariant NonEmptyAligned(added)
      invariant forall t :: Covers(added, t) <==> exists j :: 0 <= j < i && GroupTime(events[j], now, u, t)
    {
      var slot := SlotOf(events[i]);
      var from := ClampStart(slot, now);
      if events[i].user == u && u != "" && from < slot.end {
        forall t ensures Covers(added + [Window(from, slot.end)], t) <==>
            Covers(added, t) || GroupTime(events[i], now, u, t) {
          CoversAppend(added, Window(from, slot.end), t);
        }
        added := added + [Window(from, slot.end)];
      }
    }
  }

  /** The windows that the slots of one user are laid out in. */
  method OpenWindows(agenda: Agenda, r: Request, g: Group, free: FreeTime, u: UserId) returns (wins: seq<Window>)
    requires agenda.MinuteAligned() && IsFreeTimeOf(agenda, r.users, free)
    ensures Canonical(wins) && AllAligned(wins)
    ensures forall t :: Covers(wins, t) <==> OpenAt(agenda, r, g, u, t)
  {
    wins := if u in free then free[u] else [];
    if u in free {
      FreeWindowsAligned(free[u], agenda.ShiftsOf(u), agenda.BusyOf(u), agenda.now);
    }
    if g.capacity > 1 {
      var added := GroupWindows(g.events, agenda.now, u);
      assert forall t :: Covers(added, t) <==> InGroup(g, agenda.now, u, t);
      if added != [] {
        var base, both := wins, wins + added;
        forall t ensures Covers(both, t) <==> Covers(base, t) || Covers(added, t) {
          CoversConcat(base, added, t);
        }
        wins := MergeTouchingWindows(both);
        MergedAligned(both, wins);
      } else {
        assert forall t :: !Covers(added, t);
      }
    }
  }

  lemma MergedAligned(ws: seq<Window>, merged: seq<Window>)
    requires AllAligned(ws) && Canonical(merged) && forall t :: Covers(merged, t) <==> Covers(ws, t)
    ensures AllAligned(merged)
  {
    forall i | 0 <= i < |merged| ensures Aligned(merged[i].start) && Aligned(merged[i].end) {
      CanonicalEnds(merged, i);
    }
  }

  lemma CanonicalEnds(ws: seq<Window>, i: nat)
    requires Canonical(ws) && i < |ws|
    ensures Covers(ws, ws[i].start) && !Covers(ws, ws[i].start - 1)
    ensures Covers(ws, ws[i].end - 1) && !Covers(ws, ws[i].end)
  {
    assert In(ws[i], ws[i].start) && In(ws[i], ws[i].end - 1);
  }

  // ----- The slots of a window

  predicate SlotIn(day: Day, w: Window, g: Group, u: UserId, minutes: int, earliest: int, latest: int, t: int)
    requires day.step > 0
  {
    && OnGrid(day, t) && Max(w.start, day.start) <= t && t + minutes * MINUTE <= w.end
    && earliest <= t <= latest && Room(g, u, Window(t, t + minutes * MINUTE))
  }

  method AddSlots(
      day: Day, w: Window, g: Group, u: UserId, minutes: int, earliest: int, latest: int, keys: seq<int>)
      returns (keys': seq<int>)
    requires Proper(day) && Distinct(keys) && Aligned(w.start)
    ensures Distinct(keys')
    ensures forall t :: t in keys' <==> t in keys || SlotIn(day, w, g, u, minutes, earliest, latest, t)
  {
    keys' := keys;
    var s0, latestStart := Max(w.start, day.start), w.end - minutes * MINUTE;
    CeilIsFirst(day, s0);
    var cur := AlignToGridCeil(s0, day);
    while cur <= latestStart
      invariant OnGrid(day, cur) && s0 <= cur && Distinct(keys')
      invariant forall t :: OnGrid(day, t) && s0 <= t <= latestStart && !(t < cur) ==> cur <= t
      invariant forall t ::
        t in keys' <==> t in keys || (t < cur && SlotIn(day, w, g, u, minutes, earliest, latest, t))
      decreases latestStart - cur
    {
      NextOnGrid(day, cur);
      if earliest <= cur <= latest && Room(g, u, Window(cur, cur + minutes * MINUTE)) && cur !in keys' {
        keys' := keys' + [cur];
      }
      cur := cur + day.step * MINUTE;
    }
  }

  ghost predicate SlotOfUser(
      day: Day, wins: seq<Window>, g: Group, u: UserId, minutes: int, earliest: int, latest: int, t: int)
    requires day.step > 0
  {
    exists i :: 0 <= i < |wins| && SlotIn(day, wins[i], g, u, minutes, earliest, latest, t)
  }

  method AddSlotsOfUser(
      day: Day, wins: seq<Window>, g: Group, u: UserId, minutes: int, earliest: int, latest: int, keys: seq<int>)
      returns (keys': seq<int>)
    requires Proper(day) && Distinct(keys) && AllAligned(wins)
    ensures Distinct(keys')
    ensures forall t :: t in keys' <==> t in keys || SlotOfUser(day, wins, g, u, minutes, earliest, latest, t)
  {
    keys' := keys;
    for i := 0 to |wins|
      invariant Distinct(keys')
      invariant forall t :: t in keys' <==>
                t in keys || exists j :: 0 <= j < i && SlotIn(day, wins[j], g, u, minutes, earliest, latest, t)
    {
      keys' := AddSlots(day, wins[i], g, u, minutes, earliest, latest, keys');
    }
  }

  // ----- What one service is offered

  /** The times of a listed booking, cut to whole minutes, are `s` and `e`, and its user is `u`. */
  predicate HasSlot(ev: GroupEvent, u: UserId, s: int, e: int) {
    ev.user == u && TruncMinute(ev.start) == s && TruncMinute(ev.end) == e
  }

  /** Instant `x` is in a booking of the group service that the user holds, from now on. */
  ghost predicate GroupInstant(agenda: Agenda, g: Group, u: UserId, x: int) {
    && u != "" && (agenda.now.Some? ==> agenda.now.value <= x)
    && exists i :: 0 <= i < |g.events| && g.events[i].user == u
         && TruncMinute(g.events[i].start) <= x < TruncMinute(g.events[i].end)
  }

  ghost predicate OpenInstant(agenda: Agenda, r: Request, g: Group, u: UserId, x: int) {
    (u in r.users && FreeInstant(agenda, u, x)) || (g.capacity >= 2 && GroupInstant(agenda, g, u, x))
  }

  /** `i` is the last booking listed for the slot. */
  ghost predicate LastListed(g: Group, u: UserId, s: int, e: int, i: int) {
    && 0 <= i < |g.events| && HasSlot(g.events[i], u, s, e)
    && forall j :: i < j < |g.events| ==> !HasSlot(g.events[j], u, s, e)
  }

  /** Every place of the last booking listed for the slot is taken, or one is taken by the client. */
  ghost predicate Full(g: Group, u: UserId, s: int, e: int) {
    exists i :: LastListed(g, u, s, e, i) &&
      (g.events[i].participants >= g.capacity || (g.client.Some? && g.client.value in g.events[i].clients))
  }

  /** What the indexes hold for a slot is the last booking listed for it; `i` is its place, or -1. */
  lemma {:induction false} BookedIsLast(events: seq<GroupEvent>, u: UserId, slot: Window) returns (i: int)
    ensures -1 <= i < |events| && (Booked(events, u, slot).Some? <==> i >= 0)
    ensures i >= 0 ==> HasSlot(events[i], u, slot.start, slot.end) && Booked(events, u, slot) == Some(events[i])
    ensures forall j :: i < j < |events| ==> !HasSlot(events[j], u, slot.start, slot.end)
    decreases |events|
  {
    if events == [] {
      i := -1;
    } else {
      var n := |events| - 1;
      if HasSlot(events[n], u, slot.start, slot.end) {
        i := n;
      } else {
        assert SlotOf(events[n]) == slot ==> events[n].user != u;
        i := BookedIsLast(events[..n], u, slot);
      }
    }
  }

  /** A slot has room unless the service is for several people and its last booking there is full. */
  lemma RoomExact(g: Group, u: UserId, slot: Window)
    ensures Room(g, u, slot) <==> g.capacity <= 1 || !Full(g, u, slot.start, slot.end)
  {
    var i := BookedIsLast(g.events, u, slot);
    assert forall j :: LastListed(g, u, slot.start, slot.end, j) <==> j == i >= 0;
  }

  lemma OpenExact(agenda: Agenda, r: Request, g: Group, u: UserId, x: int)
    ensures OpenAt(agenda, r, g, u, x) <==> OpenInstant(agenda, r, g, u, x)
  {
    var now := agenda.now;
    forall i | 0 <= i < |g.events|
      ensures GroupTime(g.events[i], now, u, x) <==>
              && g.events[i].user == u && u != "" && (now.Some? ==> now.value <= x)
              && TruncMinute(g.events[i].start) <= x < TruncMinute(g.events[i].end) {
    }
    if g.capacity > 1 && GroupInstant(agenda, g, u, x) {
      var i :| 0 <= i < |g.events| && g.events[i].user == u
        && TruncMinute(g.events[i].start) <= x < TruncMinute(g.events[i].end);
      assert GroupTime(g.events[i], now, u, x);
    }
    FreeExact(agenda, u, x);
  }

  ghost predicate OpenThroughout(agenda: Agenda, r: Request, g: Group, u: UserId, s: int, e: int) {
    forall t :: s <= t < e ==> OpenAt(agenda, r, g, u, t)
  }

  /** The user may perform the service, is open for the whole slot, and the slot has room. */
  ghost predicate ServesSlot(agenda: Agenda, r: Request, g: Group, u: UserId, t: int)
    requires |r.attendees| == 1
  {
    var slot := Window(t, t + r.attendees[0].durationMin * MINUTE);
    && u in ProblemAt(r, map[], t).Candidates(0)
    && OpenThroughout(agenda, r, g, u, slot.start, slot.end) && Room(g, u, slot)
  }

  /**
  The user may perform the service and is open at every instant of it, and, where it is for several people,
  the last booking listed for that slot is not full.
  */
  ghost predicate Serves(agenda: Agenda, r: Request, g: Group, u: UserId, t: int)
    requires |r.attendees| == 1
  {
    var end := t + r.attendees[0].durationMin * MINUTE;
    && MayPerform(r, 0, u)
    && (forall x :: t <= x < end ==> OpenInstant(agenda, r, g, u, x))
    && (g.capacity <= 1 || !Full(g, u, t, end))
  }

  ghost predicate SingleOffered(
      agenda: Agenda, r: Request, g: Group, day: Day, earliest: int, latest: int, t: int)
    requires |r.attendees| == 1 && day.step > 0
  {
    OnGrid(day, t) && day.start <= t && earliest <= t <= latest && exists u :: Serves(agenda, r, g, u, t)
  }

  lemma ServesExact(agenda: Agenda, r: Request, g: Group, u: UserId, t: int)
    requires |r.attendees| == 1
    ensures ServesSlot(agenda, r, g, u, t) <==> Serves(agenda, r, g, u, t)
  {
    var end := t + r.attendees[0].durationMin * MINUTE;
    RoomExact(g, u, Window(t, end));
    forall x ensures OpenAt(agenda, r, g, u, x) <==> OpenInstant(agenda, r, g, u, x) {
      OpenExact(agenda, r, g, u, x);
    }
  }

  /** A start at which the slot of everybody who could take it is full is not offered. */
  lemma FullNotOffered(agenda: Agenda, r: Request, g: Group, day: Day, earliest: int, latest: int, t: int)
    requires |r.attendees| == 1 && day.step > 0 && g.capacity >= 2
    requires var end := t + r.attendees[0].durationMin * MINUTE;
             forall u :: MayPerform(r, 0, u) ==>
               (exists x :: t <= x < end && !OpenInstant(agenda, r, g, u, x)) || Full(g, u, t, end)
    ensures !SingleOffered(agenda, r, g, day, earliest, latest, t)
  {
  }

  /** The slots of the user's windows are those that the user is open for. */
  lemma UserSlotsExact(
      agenda: Agenda, r: Request, g: Group, day: Day, wins: seq<Window>, u: UserId, earliest: int, latest: int, t: int)
    requires |r.attendees| == 1 && r.attendees[0].durationMin > 0 && day.step > 0
    requires Canonical(wins) && forall x :: Covers(wins, x) <==> OpenAt(agenda, r, g, u, x)
    ensures var end := t + r.attendees[0].durationMin * MINUTE;
            SlotOfUser(day, wins, g, u, r.attendees[0].durationMin, earliest, latest, t) <==>
              && OnGrid(day, t) && day.start <= t && earliest <= t <= latest
              && OpenThroughout(agenda, r, g, u, t, end) && Room(g, u, Window(t, end))
  {
    var minutes := r.attendees[0].durationMin;
    var end := t + minutes * MINUTE;
    if i :| 0 <= i < |wins| && SlotIn(day, wins[i], g, u, minutes, earliest, latest, t) {
      forall x | t <= x < end ensures OpenAt(agenda, r, g, u, x) {
        assert In(wins[i], x);
        assert Covers(wins, x);
      }
    }
    if OpenThroughout(agenda, r, g, u, t, end) {
      var i := StretchInOneWindow(wins, t, end);
      assert SlotIn(day, wins[i], g, u, minutes, earliest, latest, t) <==>
          (OnGrid(day, t) && day.start <= t && earliest <= t <= latest && Room(g, u, Window(t, end)));
    }
  }

  method SingleStarts(agenda: Agenda, r: Request, g: Group, day: Day, earliest: int, latest: int, free: FreeTime)
      returns (starts: seq<int>)
    requires agenda.MinuteAligned() && PositiveDurations(r) && |r.attendees| == 1 && Proper(day)
    requires IsFreeTimeOf(agenda, r.users, free)
    ensures Ascending(starts)
    ensures forall t :: t in starts <==> SingleOffered(agenda, r, g, day, earliest, latest, t)
  {
    var users, minutes := ProblemAt(r, map[], 0).Candidates(0), r.attendees[0].durationMin;
    var keys: seq<int> := [];
    for n := 0 to |users|
      invariant Distinct(keys)
      invariant forall t :: t in keys <==>
                && OnGrid(day, t) && day.start <= t && earliest <= t <= latest
                && exists m :: 0 <= m < n && ServesSlot(agenda, r, g, users[m], t)
    {
      var wins := OpenWindows(agenda, r, g, free, users[n]);
      keys := AddSlotsOfUser(day, wins, g, users[n], minutes, earliest, latest, keys);
      forall t ensures SlotOfUser(day, wins, g, users[n], minutes, earliest, latest, t) <==>
          OnGrid(day, t) && day.start <= t && earliest <= t <= latest && ServesSlot(agenda, r, g, users[n], t) {
        UserSlotsExact(agenda, r, g, day, wins, users[n], earliest, latest, t);
        assert users[n] in ProblemAt(r, map[], t).Candidates(0);
      }
    }
    assert forall t :: t in keys <==>
        && OnGrid(day, t) && day.start <= t && earliest <= t <= latest
        && exists m :: 0 <= m < |users| && ServesSlot(agenda, r, g, users[m], t);
    starts := InOrder(keys);
    forall t ensures t in keys <==> SingleOffered(agenda, r, g, day, earliest, latest, t) {
      if u :| Serves(agenda, r, g, u, t) {
        ServesExact(agenda, r, g, u, t);
        assert u in users;
      }
      if m :| 0 <= m < |users| && ServesSlot(agenda, r, g, users[m], t) {
        ServesExact(agenda, r, g, users[m], t);
      }
    }
  }

  // ----- All requests

  /** What the day offers, for one service or for a chain. */
  ghost predicate StartOffered(
      agenda: Agenda, r: Request, g: Group, day: Day, earliest: int, latest: int, t: int)
    requires day.step > 0
  {
    && r.attendees != []
    && if |r.attendees| == 1 then SingleOffered(agenda, r, g, day, earliest, latest, t)
       else Offered(agenda, r, day, earliest, latest, t)
  }

  /** On minute-aligned data the start times are exactly those offered, in ascending order, each once. */
  method AvailableStarts(agenda: Agenda, r: Request, g: Group, day: Day, earliest: int, latest: int)
      returns (starts: seq<int>)
    requires agenda.MinuteAligned() && PositiveDurations(r) && Proper(day)
    ensures Ascending(starts)
    ensures forall t :: t in starts <==> StartOffered(agenda, r, g, day, earliest, latest, t)
  {
    if r.attendees == [] { return []; }
    var free := FreeWindowsByUser(agenda, r.users);
    if |r.attendees| == 1 {
      starts := SingleStarts(agenda, r, g, day, earliest, latest, free);
    } else {
      starts := ChainStarts(agenda, r, day, earliest, latest, free);
    }
  }

  // ----- What a group service is offered beside its own bookings

  /** A start at which the user is busy with a booking of the service that does not have this slot. */
  ghost predicate RunsAcross(agenda: Agenda, r: Request, g: Group, u: UserId, t: int)
    requires |r.attendees| == 1
  {
    var slot := Window(t, t + r.attendees[0].durationMin * MINUTE);
    && Booked(g.events, u, slot).None?
    && exists x :: slot.start <= x < slot.end && Covers(agenda.BusyOf(u), x)
  }

  /** A service for one person is never offered across busy time. */
  lemma SingleNeverAcross(agenda: Agenda, r: Request, g: Group, u: UserId, t: int)
    requires |r.attendees| == 1 && g.capacity <= 1 && ServesSlot(agenda, r, g, u, t)
    ensures agenda.FreeThroughout(u, t, t + r.attendees[0].durationMin * MINUTE) && !RunsAcross(agenda, r, g, u, t)
  {
    forall x | t <= x < t + r.attendees[0].durationMin * MINUTE
      ensures InShift(agenda.ShiftsOf(u), agenda.now, x) && !Covers(agenda.BusyOf(u), x) {
      assert OpenAt(agenda, r, g, u, x);
    }
  }

  /**
  An hour's group service from nine to twelve on a grid of half hours, booked at ten: half past nine, across
  the first half of that booking, is offered to others.
  */
  lemma OfferedAcross()
    ensures var agenda := Agenda(map["u" := [Window(9 * HOUR, 12 * HOUR)]],
                                 map["u" := [Window(10 * HOUR, 11 * HOUR)]], None);
            var r := Request([Attendee("s", 60)], map["s" := ["u"]], ["u"]);
            var g := Group(8, [GroupEvent("u", 10 * HOUR, 11 * HOUR, 1, {"c"})], Some("d"));
            var day, t := Day(0, 24 * HOUR - 1, 30), 9 * HOUR + HOUR / 2;
            && agenda.MinuteAligned() && PositiveDurations(r) && Proper(day)
            && SingleOffered(agenda, r, g, day, 0, 12 * HOUR, t) && RunsAcross(agenda, r, g, "u", t)
  {
    var shift, booked := Window(9 * HOUR, 12 * HOUR), Window(10 * HOUR, 11 * HOUR);
    var agenda := Agenda(map["u" := [shift]], map["u" := [booked]], None);
    var r := Request([Attendee("s", 60)], map["s" := ["u"]], ["u"]);
    var g := Group(8, [GroupEvent("u", 10 * HOUR, 11 * HOUR, 1, {"c"})], Some("d"));
    var day, t := Day(0, 24 * HOUR - 1, 30), 9 * HOUR + HOUR / 2;
    forall x ensures Covers([shift], x) <==> In(shift, x) {
      assert In([shift][0], x) <==> In(shift, x);
    }
    forall x ensures Covers([booked], x) <==> In(booked, x) {
      assert In([booked][0], x) <==> In(booked, x);
    }
    var slot := Window(t, t + HOUR);
    assert Booked(g.events, "u", slot) == None by {
      assert g.events[..0] == [];
    }
    forall x | slot.start <= x < slot.end ensures OpenAt(agenda, r, g, "u", x) {
      if x >= 10 * HOUR {
        assert GroupTime(g.events[0], None, "u", x);
      }
    }
    assert Covers(agenda.BusyOf("u"), 10 * HOUR);
    assert ServesSlot(agenda, r, g, "u", t);
    ServesExact(agenda, r, g, "u", t);
  }
}
