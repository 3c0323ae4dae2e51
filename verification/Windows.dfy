/**
Free-time windows of the availability engine: busy time is subtracted from a shift, the windows of
all shifts are merged, and a slot is held against single windows. Times are instants in
milliseconds; a window [start, end) holds the instants from `start` up to but not including `end`.
*/
module Windows {
  import opened Sorting
  import opened Wrappers

  datatype Window = Window(start: int, end: int)

  const MINUTE := 60_000

  predicate In(w: Window, t: int) {
    w.start <= t < w.end
  }

  ghost predicate Covers(ws: seq<Window>, t: int) {
    exists i :: 0 <= i < |ws| && In(ws[i], t)
  }

  /** Sorted by start, and every window ends strictly before the next one starts. */
  ghost predicate Separated(ws: seq<Window>) {
    forall i, j :: 0 <= i < j < |ws| ==> ws[i].start <= ws[j].start && ws[i].end < ws[j].start
  }

  ghost predicate NonEmpty(ws: seq<Window>) {
    forall i :: 0 <= i < |ws| ==> ws[i].start < ws[i].end
  }

  ghost predicate Canonical(ws: seq<Window>) {
    Separated(ws) && NonEmpty(ws)
  }

  ghost predicate AllValid(ws: seq<Window>) {
    forall i :: 0 <= i < |ws| ==> ws[i].start <= ws[i].end
  }

  function Max(a: int, b: int): int { if a < b then b else a }

  function Min(a: int, b: int): int { if b < a then b else a }

  function ByStart(): Window -> int { (w: Window) => w.start }

  // ----- Subtracting busy time from one shift

  /** The busy intervals cut to the shift, empty ones dropped, in the order they came. */
  function CutToShift(busy: seq<Window>, shiftStart: int, shiftEnd: int): seq<Window> {
    if busy == [] then []
    else
      var b := Window(Max(busy[0].start, shiftStart), Min(busy[0].end, shiftEnd));
      (if b.start < b.end then [b] else []) + CutToShift(busy[1..], shiftStart, shiftEnd)
  }

  lemma {:induction false} CutToShiftPoints(busy: seq<Window>, shiftStart: int, shiftEnd: int)
    ensures forall w :: w in CutToShift(busy, shiftStart, shiftEnd) ==> shiftStart <= w.start < w.end <= shiftEnd
    ensures forall t :: Covers(CutToShift(busy, shiftStart, shiftEnd), t) <==>
                        shiftStart <= t < shiftEnd && Covers(busy, t)
  {
    if busy == [] {
    } else {
      CutToShiftPoints(busy[1..], shiftStart, shiftEnd);
      var b := Window(Max(busy[0].start, shiftStart), Min(busy[0].end, shiftEnd));
      var head := if b.start < b.end then [b] else [];
      var tail := CutToShift(busy[1..], shiftStart, shiftEnd);
      forall t ensures Covers(head + tail, t) <==> shiftStart <= t < shiftEnd && Covers(busy, t) {
        CoversConcat(head, tail, t);
        CoversConcat([busy[0]], busy[1..], t);
        assert busy == [busy[0]] + busy[1..];
        assert Covers([busy[0]], t) <==> In(busy[0], t) by { assert [busy[0]][0] == busy[0]; }
        assert Covers(head, t) <==> In(b, t) by { assert |head| == 1 ==> head[0] == b; }
      }
    }
  }

  lemma CoversConcat(a: seq<Window>, b: seq<Window>, t: int)
    ensures Covers(a + b, t) <==> Covers(a, t) || Covers(b, t)
  {
    if Covers(a, t) {
      var i :| 0 <= i < |a| && In(a[i], t);
      assert In((a + b)[i], t);
    }
    if Covers(b, t) {
      var i :| 0 <= i < |b| && In(b[i], t);
      assert In((a + b)[|a| + i], t);
    }
  }

  lemma CoversAppend(a: seq<Window>, w: Window, t: int)
    ensures Covers(a + [w], t) <==> Covers(a, t) || In(w, t)
  {
    CoversConcat(a, [w], t);
    assert Covers([w], t) <==> In([w][0], t);
  }

  lemma CoversMembers(a: seq<Window>, b: seq<Window>)
    requires forall w :: w in a ==> w in b
    ensures forall t :: Covers(a, t) ==> Covers(b, t)
  {
    forall t | Covers(a, t) ensures Covers(b, t) {
      var i :| 0 <= i < |a| && In(a[i], t);
      assert a[i] in b;
    }
  }

  /**
  What is left of the shift [shiftStart, shiftEnd) once `busy` is taken out. Canonical sequences
  with the same points are equal (CanonicalUnique), so this contract has exactly one answer.
  */
  ghost predicate IsFreeTime(free: seq<Window>, shiftStart: int, shiftEnd: int, busy: seq<Window>) {
    && Canonical(free)
    && forall t :: Covers(free, t) <==> shiftStart <= t < shiftEnd && !Covers(busy, t)
  }

  /** The sweep after `i` busy intervals: `free` is the free time before `cur`, and everything swept ends by `cur`. */
  ghost predicate SweepInv(free: seq<Window>, evs: seq<Window>, i: nat, shiftStart: int, cur: int)
    requires i <= |evs|
  {
    && shiftStart <= cur && (i == 0 ==> free == [] && cur == shiftStart)
    && Canonical(free)
    && (forall k :: 0 <= k < |free| ==> shiftStart <= free[k].start && free[k].end < cur)
    && (forall k :: 0 <= k < i ==> evs[k].end <= cur)
    && (forall t :: shiftStart <= t < cur ==> (Covers(free, t) <==> !Covers(evs, t)))
  }

  function Grow(free: seq<Window>, cur: int, e: Window): seq<Window> {
    if cur < e.start then free + [Window(cur, e.start)] else free
  }

  /** One instant before the new end of the sweep: it is free up to the interval's start, and busy in the interval. */
  lemma SweepPoint(free: seq<Window>, evs: seq<Window>, i: nat, shiftStart: int, cur: int, t: int)
    requires i < |evs| && SweepInv(free, evs, i, shiftStart, cur)
    requires forall k :: i <= k < |evs| ==> evs[i].start <= evs[k].start
    requires shiftStart <= t < Max(cur, evs[i].end)
    ensures Covers(Grow(free, cur, evs[i]), t) <==> !Covers(evs, t)
  {
    CoversAppend(free, Window(cur, evs[i].start), t);
    if t >= cur {
      assert !Covers(free, t);
      if t >= evs[i].start {
        assert In(evs[i], t);
      } else {
        assert forall k :: 0 <= k < |evs| ==> !In(evs[k], t);
      }
    }
  }

  lemma SweepStep(free: seq<Window>, evs: seq<Window>, i: nat, shiftStart: int, cur: int)
    requires i < |evs| && SweepInv(free, evs, i, shiftStart, cur)
    requires forall k :: 0 <= k < |evs| ==> shiftStart <= evs[k].start < evs[k].end
    requires forall k :: i <= k < |evs| ==> evs[i].start <= evs[k].start
    ensures SweepInv(Grow(free, cur, evs[i]), evs, i + 1, shiftStart, Max(cur, evs[i].end))
  {
    forall t | shiftStart <= t < Max(cur, evs[i].end) ensures Covers(Grow(free, cur, evs[i]), t) <==> !Covers(evs, t) {
      SweepPoint(free, evs, i, shiftStart, cur, t);
    }
    GrowCanonical(free, shiftStart, cur, evs[i]);
  }

  lemma GrowCanonical(free: seq<Window>, shiftStart: int, cur: int, e: Window)
    requires Canonical(free) && shiftStart <= cur && e.start < e.end
    requires forall k :: 0 <= k < |free| ==> shiftStart <= free[k].start && free[k].end < cur
    ensures Canonical(Grow(free, cur, e))
    ensures forall k :: 0 <= k < |Grow(free, cur, e)| ==>
              shiftStart <= Grow(free, cur, e)[k].start && Grow(free, cur, e)[k].end < Max(cur, e.end)
  {
  }

  method SubtractBusyFromShift(shiftStart: int, shiftEnd: int, busy: seq<Window>) returns (free: seq<Window>)
    ensures IsFreeTime(free, shiftStart, shiftEnd, busy)
  {
    var cut := CutToShift(busy, shiftStart, shiftEnd);
    var evs := SortBy(cut, ByStart());
    SweepPrepared(busy, shiftStart, shiftEnd, evs);
    free := Sweep(shiftStart, shiftEnd, evs);
  }

  /** The sweep over sorted busy intervals inside the shift, which stops once they reach its end. */
  method Sweep(shiftStart: int, shiftEnd: int, evs: seq<Window>) returns (free: seq<Window>)
    requires forall k :: 0 <= k < |evs| ==> shiftStart <= evs[k].start < evs[k].end <= shiftEnd
    requires forall j, k :: 0 <= j <= k < |evs| ==> evs[j].start <= evs[k].start
    ensures Canonical(free)
    ensures forall t :: Covers(free, t) <==> shiftStart <= t < shiftEnd && !Covers(evs, t)
  {
    free := [];
    var cur := shiftStart;
    var i := 0;
    while i < |evs|
      invariant 0 <= i <= |evs|
      invariant shiftStart < shiftEnd ==> cur <= shiftEnd
      invariant SweepInv(free, evs, i, shiftStart, cur)
    {
      var e := evs[i];
      SweepStep(free, evs, i, shiftStart, cur);
      if cur < e.start {
        free := free + [Window(cur, e.start)];
      }
      cur := Max(cur, e.end);
      i := i + 1;
      if cur >= shiftEnd { break; }
    }
    SweepEnd(free, evs, i, shiftStart, cur, shiftEnd);
    if cur < shiftEnd {
      free := free + [Window(cur, shiftEnd)];
    }
  }

  /** Sorting by start keeps the windows, and so their points. */
  lemma SortedWindows(w: seq<Window>, s: seq<Window>)
    requires s == SortBy(w, ByStart())
    ensures forall j, k :: 0 <= j <= k < |s| ==> s[j].start <= s[k].start
    ensures forall k :: 0 <= k < |s| ==> s[k] in w
    ensures forall t :: Covers(s, t) <==> Covers(w, t)
  {
    SortByCorrect(w, ByStart());
    SortByMembers(w, ByStart());
    CoversMembers(w, s);
    CoversMembers(s, w);
    assert forall k :: 0 <= k < |s| ==> s[k] in s;
    forall j, k | 0 <= j <= k < |s| ensures s[j].start <= s[k].start {
      assert ByStart()(s[j]) <= ByStart()(s[k]);
    }
  }

  lemma SweepPrepared(busy: seq<Window>, shiftStart: int, shiftEnd: int, evs: seq<Window>)
    requires evs == SortBy(CutToShift(busy, shiftStart, shiftEnd), ByStart())
    ensures forall k :: 0 <= k < |evs| ==> shiftStart <= evs[k].start < evs[k].end <= shiftEnd
    ensures forall j, k :: 0 <= j <= k < |evs| ==> evs[j].start <= evs[k].start
    ensures forall t :: Covers(evs, t) <==> shiftStart <= t < shiftEnd && Covers(busy, t)
  {
    CutToShiftPoints(busy, shiftStart, shiftEnd);
    SortedWindows(CutToShift(busy, shiftStart, shiftEnd), evs);
  }

  lemma SweepEnd(free: seq<Window>, evs: seq<Window>, i: nat, shiftStart: int, cur: int, shiftEnd: int)
    requires i <= |evs| && SweepInv(free, evs, i, shiftStart, cur)
    requires i == |evs| || cur >= shiftEnd
    requires shiftStart < shiftEnd ==> cur <= shiftEnd
    requires forall k :: 0 <= k < |evs| ==> shiftStart <= evs[k].start < evs[k].end <= shiftEnd
    ensures Canonical(if cur < shiftEnd then free + [Window(cur, shiftEnd)] else free)
    ensures forall t :: Covers(if cur < shiftEnd then free + [Window(cur, shiftEnd)] else free, t) <==>
                        shiftStart <= t < shiftEnd && !Covers(evs, t)
  {
    assert evs != [] ==> shiftStart <= evs[0].start < evs[0].end <= shiftEnd;
    forall t ensures Covers(if cur < shiftEnd then free + [Window(cur, shiftEnd)] else free, t) <==>
                     shiftStart <= t < shiftEnd && !Covers(evs, t) {
      CoversAppend(free, Window(cur, shiftEnd), t);
    }
  }

  // ----- Canonical window lists are determined by their points

  lemma CanonicalHead(a: seq<Window>, b: seq<Window>)
    requires Canonical(a) && Canonical(b) && a != []
    requires forall t :: Covers(a, t) <==> Covers(b, t)
    ensures b != [] && a[0] == b[0]
  {
    assert In(a[0], a[0].start);
    assert Covers(a, a[0].start);
    assert In(b[0], b[0].start);
    assert Covers(b, b[0].start) && Covers(a, b[0].start);
    assert !Covers(a, a[0].end) && !Covers(b, b[0].end);
    assert !In(b[0], a[0].end) && !In(a[0], b[0].end);
  }

  /** Two canonical window lists with the same points are the same list. */
  lemma {:induction false} CanonicalUnique(a: seq<Window>, b: seq<Window>)
    requires Canonical(a) && Canonical(b)
    requires forall t :: Covers(a, t) <==> Covers(b, t)
    ensures a == b
    decreases |a|
  {
    if a == [] {
      if b != [] {
        assert In(b[0], b[0].start);
        assert Covers(b, b[0].start);
      }
    } else {
      CanonicalHead(a, b);
      forall t ensures Covers(a[1..], t) <==> Covers(b[1..], t) {
        TailPoints(a, t);
        TailPoints(b, t);
      }
      CanonicalUnique(a[1..], b[1..]);
      assert a == [a[0]] + a[1..] && b == [b[0]] + b[1..];
    }
  }

  lemma TailPoints(a: seq<Window>, t: int)
    requires Canonical(a) && a != []
    ensures Covers(a[1..], t) <==> Covers(a, t) && a[0].end <= t
  {
    CoversConcat([a[0]], a[1..], t);
    assert a == [a[0]] + a[1..];
    assert Covers([a[0]], t) <==> In([a[0]][0], t);
  }

  /**
  The result of the subtraction depends only on which instants of the shift are busy: not on order,
  duplicates, overlap or how busy time is cut.
  */
  lemma SubtractIgnoresPresentation(
      f1: seq<Window>, f2: seq<Window>, s: int, e: int, busy1: seq<Window>, busy2: seq<Window>)
    requires IsFreeTime(f1, s, e, busy1) && IsFreeTime(f2, s, e, busy2)
    requires forall t :: s <= t < e ==> (Covers(busy1, t) <==> Covers(busy2, t))
    ensures f1 == f2
  {
    CanonicalUnique(f1, f2);
  }

  // ----- Lengths

  function TotalLength(ws: seq<Window>): int {
    if ws == [] then 0 else ws[0].end - ws[0].start + TotalLength(ws[1..])
  }

  /** How many instants of [lo, hi) are covered. */
  ghost function Measure(ws: seq<Window>, lo: int, hi: int): nat
    decreases hi - lo
  {
    if hi <= lo then 0 else Measure(ws, lo, hi - 1) + if Covers(ws, hi - 1) then 1 else 0
  }

  lemma {:induction false} MeasureComplement(a: seq<Window>, b: seq<Window>, lo: int, hi: int)
    requires lo <= hi
    requires forall t :: lo <= t < hi ==> (Covers(a, t) <==> !Covers(b, t))
    ensures Measure(a, lo, hi) + Measure(b, lo, hi) == hi - lo
    decreases hi - lo
  {
    if lo < hi {
      MeasureComplement(a, b, lo, hi - 1);
    }
  }

  lemma {:induction false} MeasureSplit(ws: seq<Window>, lo: int, mid: int, hi: int)
    requires lo <= mid <= hi
    ensures Measure(ws, lo, hi) == Measure(ws, lo, mid) + Measure(ws, mid, hi)
    decreases hi - mid
  {
    if mid < hi {
      MeasureSplit(ws, lo, mid, hi - 1);
    }
  }

  lemma {:induction false} MeasureUniform(ws: seq<Window>, lo: int, hi: int, covered: bool)
    requires lo <= hi
    requires forall t :: lo <= t < hi ==> (Covers(ws, t) <==> covered)
    ensures Measure(ws, lo, hi) == if covered then hi - lo else 0
    decreases hi - lo
  {
    if lo < hi {
      MeasureUniform(ws, lo, hi - 1, covered);
    }
  }

  lemma {:induction false} MeasureSame(a: seq<Window>, b: seq<Window>, lo: int, hi: int)
    requires forall t :: lo <= t < hi ==> (Covers(a, t) <==> Covers(b, t))
    ensures Measure(a, lo, hi) == Measure(b, lo, hi)
    decreases hi - lo
  {
    if lo < hi {
      MeasureSame(a, b, lo, hi - 1);
    }
  }

  lemma {:induction false} CanonicalLength(ws: seq<Window>, lo: int, hi: int)
    requires Canonical(ws) && lo <= hi
    requires forall i :: 0 <= i < |ws| ==> lo <= ws[i].start && ws[i].end <= hi
    ensures TotalLength(ws) == Measure(ws, lo, hi)
    decreases |ws|
  {
    if ws == [] {
      MeasureUniform(ws, lo, hi, false);
    } else {
      var w := ws[0];
      CanonicalLength(ws[1..], w.end, hi);
      MeasureSplit(ws, lo, w.start, hi);
      MeasureSplit(ws, w.start, w.end, hi);
      MeasureUniform(ws, lo, w.start, false);
      forall t | w.start <= t < w.end ensures Covers(ws, t) {
        assert In(ws[0], t);
      }
      MeasureUniform(ws, w.start, w.end, true);
      forall t ensures Covers(ws[1..], t) <==> Covers(ws, t) && w.end <= t {
        TailPoints(ws, t);
      }
      MeasureSame(ws, ws[1..], w.end, hi);
    }
  }

  /** No time is lost or made: free length plus busy instants of the shift is the shift's length. */
  lemma FreePlusBusyIsShift(free: seq<Window>, shiftStart: int, shiftEnd: int, busy: seq<Window>)
    requires shiftStart <= shiftEnd
    requires IsFreeTime(free, shiftStart, shiftEnd, busy)
    ensures TotalLength(free) + Measure(busy, shiftStart, shiftEnd) == shiftEnd - shiftStart
  {
    forall i | 0 <= i < |free| ensures shiftStart <= free[i].start && free[i].end <= shiftEnd {
      assert In(free[i], free[i].start) && In(free[i], free[i].end - 1);
      assert Covers(free, free[i].start) && Covers(free, free[i].end - 1);
    }
    CanonicalLength(free, shiftStart, shiftEnd);
    MeasureComplement(free, busy, shiftStart, shiftEnd);
  }

  // ----- Merging windows that touch or overlap

  /**
  For every input the result is separated, and a separated input comes back unchanged, so merging
  twice is merging once. For windows that do not end before they start, no instant is gained or lost.
  */
  method MergeTouchingWindows(w: seq<Window>) returns (out: seq<Window>)
    ensures Separated(out)
    ensures Separated(w) ==> out == w
    ensures AllValid(w) ==> AllValid(out) && forall t :: Covers(out, t) <==> Covers(w, t)
    ensures NonEmpty(w) ==> Canonical(out)
  {
    if |w| <= 1 { return w; }
    var s := SortBy(w, ByStart());
    MergePrepared(w, s);
    out := [];
    var cur := s[0];
    MergeStart(s);
    for i := 1 to |s|
      invariant MergeInv(out, cur, s, i)
    {
      var x := s[i];
      if x.start <= cur.end {
        MergeExtend(out, cur, s, i);
        cur := cur.(end := Max(cur.end, x.end));
      } else {
        MergePush(out, cur, s, i);
        out := out + [cur];
        cur := x;
      }
    }
    MergeDone(out, cur, s, w);
    out := out + [cur];
  }

  lemma MergeStart(s: seq<Window>)
    requires s != []
    ensures MergeInv([], s[0], s, 1)
  {
    assert s[..1] == [s[0]] == [] + [s[0]];
  }

  lemma MergeDone(out: seq<Window>, cur: Window, s: seq<Window>, w: seq<Window>)
    requires MergeInv(out, cur, s, |s|)
    requires forall t :: Covers(s, t) <==> Covers(w, t)
    requires (AllValid(w) ==> AllValid(s)) && (NonEmpty(w) ==> NonEmpty(s)) && (Separated(w) ==> s == w)
    ensures Separated(out + [cur])
    ensures Separated(w) ==> out + [cur] == w
    ensures AllValid(w) ==> AllValid(out + [cur]) && forall t :: Covers(out + [cur], t) <==> Covers(w, t)
    ensures NonEmpty(w) ==> Canonical(out + [cur])
  {
    assert s[..|s|] == s;
  }

  lemma MergePrepared(w: seq<Window>, s: seq<Window>)
    requires s == SortBy(w, ByStart())
    ensures forall j, k :: 0 <= j <= k < |s| ==> s[j].start <= s[k].start
    ensures forall t :: Covers(s, t) <==> Covers(w, t)
    ensures AllValid(w) ==> AllValid(s)
    ensures NonEmpty(w) ==> NonEmpty(s)
    ensures Separated(w) ==> s == w
  {
    SortedWindows(w, s);
    if Separated(w) {
      SortByIdentity(w, ByStart());
    }
  }

  /** The merge after the first `i` windows: the pushed ones and the one being grown. */
  ghost predicate MergeInv(out: seq<Window>, cur: Window, s: seq<Window>, i: nat)
    requires i <= |s|
  {
    var all := out + [cur];
    && 1 <= i && cur.start <= s[i - 1].start
    && Separated(all)
    && (Separated(s) ==> all == s[..i])
    && (AllValid(s) ==> AllValid(all) && forall t :: Covers(all, t) <==> Covers(s[..i], t))
    && (NonEmpty(s) ==> NonEmpty(all))
  }

  lemma MergePush(out: seq<Window>, cur: Window, s: seq<Window>, i: nat)
    requires 0 < i < |s| && MergeInv(out, cur, s, i)
    requires forall j, k :: 0 <= j <= k < |s| ==> s[j].start <= s[k].start
    requires s[i].start > cur.end
    ensures MergeInv(out + [cur], s[i], s, i + 1)
  {
    var all := out + [cur];
    var x := s[i];
    assert s[..i + 1] == s[..i] + [x];
    assert all[|out|] == cur;
    forall t ensures (Covers(all + [x], t) <==> Covers(all, t) || In(x, t))
        && (Covers(s[..i + 1], t) <==> Covers(s[..i], t) || In(x, t)) {
      CoversAppend(all, x, t);
      CoversAppend(s[..i], x, t);
    }
    assert forall k :: 0 <= k < |out| ==> all[k].end < all[|out|].start && all[k].start <= all[|out|].start;
    assert s[i - 1].start <= x.start;
    forall j, k | 0 <= j < k < |all + [x]| ensures (all + [x])[j].start <= (all + [x])[k].start
        && (all + [x])[j].end < (all + [x])[k].start {
    }
  }

  lemma MergeExtend(out: seq<Window>, cur: Window, s: seq<Window>, i: nat)
    requires 0 < i < |s| && MergeInv(out, cur, s, i)
    requires forall j, k :: 0 <= j <= k < |s| ==> s[j].start <= s[k].start
    requires s[i].start <= cur.end
    ensures MergeInv(out, cur.(end := Max(cur.end, s[i].end)), s, i + 1)
  {
    var x := s[i];
    var cur' := cur.(end := Max(cur.end, x.end));
    var all, all' := out + [cur], out + [cur'];
    assert s[..i + 1] == s[..i] + [x];
    assert all[|out|] == cur && all'[|out|] == cur';
    assert forall k :: 0 <= k < |out| ==> all[k] == all'[k];
    assert s[..i][i - 1] == s[i - 1];
    assert s[i - 1].start <= x.start;
    if AllValid(s) {
      forall t ensures Covers(all', t) <==> Covers(s[..i + 1], t) {
        CoversAppend(out, cur, t);
        CoversAppend(out, cur', t);
        CoversAppend(s[..i], x, t);
      }
    }
  }

  // ----- A slot against one window

  /** The instant with seconds and milliseconds cleared. */
  function TruncMinute(t: int): int {
    t - t % MINUTE
  }

  predicate WindowContains(win: Window, t0: int, t1: int) {
    TruncMinute(t0) >= TruncMinute(win.start) && TruncMinute(t1) <= TruncMinute(win.end)
  }

  predicate Aligned(t: int) {
    t % MINUTE == 0
  }

  ghost predicate AllAligned(ws: seq<Window>) {
    forall i :: 0 <= i < |ws| ==> Aligned(ws[i].start) && Aligned(ws[i].end)
  }

  predicate SameMinute(s: int, t: int) {
    TruncMinute(s) == TruncMinute(t)
  }

  /** The slot ends outside the window, but in the minute in which the window begins or ends. */
  predicate OverrunsWithinMinute(w: Window, a: int, b: int) {
    && (a < w.start || w.end < b)
    && (w.start <= a || SameMinute(a, w.start)) && (b <= w.end || SameMinute(b, w.end))
  }

  /**
  Exactly which slots a window accepts: each end inside it, or outside in the same minute as the end
  it passes. So the test answers whether the slot fits exactly when no end overruns inside its minute.
  */
  lemma WindowContainsExact(w: Window, a: int, b: int)
    ensures WindowContains(w, a, b) <==>
            (w.start <= a || SameMinute(a, w.start)) && (b <= w.end || SameMinute(b, w.end))
    ensures (WindowContains(w, a, b) <==> w.start <= a && b <= w.end) <==> !OverrunsWithinMinute(w, a, b)
    ensures WindowContains(w, a, b) ==> w.start - MINUTE < a && b < w.end + MINUTE
  {
    if w.start <= a {
      TruncMonotone(w.start, a);
    } else {
      TruncMonotone(a, w.start);
    }
    if b <= w.end {
      TruncMonotone(b, w.end);
    } else {
      TruncMonotone(w.end, b);
    }
  }

  /** Such an overrun exists at the end of a window. */
  lemma AcceptedOverrun()
    ensures WindowContains(Window(0, 1), 0, MINUTE - 1) && OverrunsWithinMinute(Window(0, 1), 0, MINUTE - 1)
  {
    assert (MINUTE - 1) % MINUTE == MINUTE - 1;
  }

  lemma TruncMonotone(a: int, b: int)
    requires a <= b
    ensures TruncMinute(a) <= TruncMinute(b)
  {
    assert a == a / MINUTE * MINUTE + a % MINUTE;
    assert b == b / MINUTE * MINUTE + b % MINUTE;
    assert a / MINUTE <= b / MINUTE;
  }

  // ----- The pipeline for one user

  ghost predicate InShift(shifts: seq<Window>, now: Option<int>, t: int) {
    Covers(shifts, t) && (now.Some? ==> now.value <= t)
  }

  function ClampStart(sh: Window, now: Option<int>): int {
    if now.Some? then Max(sh.start, now.value) else sh.start
  }

  /**
  The free windows of one user: every shift minus the user's busy time (from now on, if the day is today),
  merged.
  */
  method FreeWindows(shifts: seq<Window>, busy: seq<Window>, now: Option<int>) returns (free: seq<Window>)
    ensures Canonical(free)
    ensures forall t :: Covers(free, t) <==> InShift(shifts, now, t) && !Covers(busy, t)
  {
    var all: seq<Window> := [];
    for i := 0 to |shifts|
      invariant forall k :: 0 <= k < |all| ==> all[k].start < all[k].end
      invariant forall t :: Covers(all, t) <==> InShift(shifts[..i], now, t) && !Covers(busy, t)
    {
      var sh := shifts[i];
      var startClamped := ClampStart(sh, now);
      var part: seq<Window> := [];
      if startClamped < sh.end {
        part := SubtractBusyFromShift(startClamped, sh.end, busy);
      }
      forall t ensures Covers(all + part, t) <==> InShift(shifts[..i + 1], now, t) && !Covers(busy, t) {
        CoversConcat(all, part, t);
        assert shifts[..i + 1] == shifts[..i] + [sh];
        CoversConcat(shifts[..i], [sh], t);
        assert Covers([sh], t) <==> In([sh][0], t);
      }
      all := all + part;
    }
    assert shifts[..|shifts|] == shifts;
    free := MergeTouchingWindows(all);
  }

  /** Coverage of minute-aligned windows does not change inside a minute. */
  lemma AlignedCoverage(ws: seq<Window>, t: int)
    requires AllAligned(ws) && !Aligned(t)
    ensures Covers(ws, t) <==> Covers(ws, t - 1)
  {
    if Covers(ws, t) {
      var i :| 0 <= i < |ws| && In(ws[i], t);
      assert In(ws[i], t - 1);
    }
    if Covers(ws, t - 1) {
      var i :| 0 <= i < |ws| && In(ws[i], t - 1);
      assert In(ws[i], t);
    }
  }

  /** Windows cut from minute-aligned shifts and busy time are minute-aligned themselves. */
  lemma FreeWindowsAligned(free: seq<Window>, shifts: seq<Window>, busy: seq<Window>, now: Option<int>)
    requires Canonical(free)
    requires forall t :: Covers(free, t) <==> InShift(shifts, now, t) && !Covers(busy, t)
    requires AllAligned(shifts) && AllAligned(busy) && (now.Some? ==> Aligned(now.value))
    ensures AllAligned(free)
  {
    forall i | 0 <= i < |free| ensures Aligned(free[i].start) && Aligned(free[i].end) {
      var w := free[i];
      assert In(w, w.start) && In(w, w.end - 1);
      assert Covers(free, w.start) && Covers(free, w.end - 1);
      assert !Covers(free, w.start - 1) && !Covers(free, w.end);
      if !Aligned(w.start) {
        AlignedCoverage(shifts, w.start);
        AlignedCoverage(busy, w.start);
      }
      if !Aligned(w.end) {
        AlignedCoverage(shifts, w.end);
        AlignedCoverage(busy, w.end);
      }
    }
  }

  /** An unbroken covered stretch lies inside one window of a canonical list. */
  lemma StretchInOneWindow(ws: seq<Window>, a: int, b: int) returns (i: nat)
    requires Canonical(ws) && a < b
    requires forall t :: a <= t < b ==> Covers(ws, t)
    ensures i < |ws| && ws[i].start <= a && b <= ws[i].end
  {
    assert Covers(ws, a);
    var k :| 0 <= k < |ws| && In(ws[k], a);
    i := k;
    assert !Covers(ws, ws[k].end);
  }

  /**
  Testing single merged windows is exact: for minute-aligned data a slot is accepted by some free
  window iff it lies wholly inside the union of the shifts (even across shifts that touch) and
  meets no busy interval.
  */
  lemma SlotTestExact(free: seq<Window>, shifts: seq<Window>, busy: seq<Window>, now: Option<int>, a: int, b: int)
    requires Canonical(free)
    requires forall t :: Covers(free, t) <==> InShift(shifts, now, t) && !Covers(busy, t)
    requires AllAligned(shifts) && AllAligned(busy) && (now.Some? ==> Aligned(now.value))
    requires Aligned(a) && Aligned(b) && a < b
    ensures (exists i :: 0 <= i < |free| && WindowContains(free[i], a, b)) <==>
            (forall t :: a <= t < b ==> InShift(shifts, now, t) && !Covers(busy, t))
  {
    FreeWindowsAligned(free, shifts, busy, now);
    if i :| 0 <= i < |free| && WindowContains(free[i], a, b) {
      forall t | a <= t < b ensures InShift(shifts, now, t) && !Covers(busy, t) {
        assert In(free[i], t);
        assert Covers(free, t);
      }
    }
    if forall t :: a <= t < b ==> InShift(shifts, now, t) && !Covers(busy, t) {
      var i := StretchInOneWindow(free, a, b);
      assert WindowContains(free[i], a, b);
    }
  }
}
