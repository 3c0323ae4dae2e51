/**
Splitting the events of a booking where time leaves a gap, and the window of one piece. The code
looks for a gap after the last event only, not after the largest end so far.
*/
module TimeSegments {
  import opened Sorting

  datatype MinimalEvent = MinimalEvent(id: nat, start: int, end: int)

  function EventStart(): MinimalEvent -> int { (e: MinimalEvent) => e.start }

  ghost predicate StartsAscend(s: seq<MinimalEvent>) {
    forall i, j :: 0 <= i <= j < |s| ==> s[i].start <= s[j].start
  }

  predicate GapAt(s: seq<MinimalEvent>, i: nat)
    requires 0 < i < |s|
  {
    s[i].start > s[i - 1].end
  }

  /** The pieces of a sequence sorted by start: the last event joins the last piece unless a gap precedes it. */
  function Segments(s: seq<MinimalEvent>): (r: seq<seq<MinimalEvent>>)
    ensures s == [] <==> r == []
    ensures NonEmptyPieces(r)
    decreases |s|
  {
    if s == [] then []
    else if |s| == 1 then [s]
    else
      var n := |s| - 1;
      var before := Segments(s[..n]);
      if GapAt(s, n) then before + [[s[n]]]
      else before[..|before| - 1] + [before[|before| - 1] + [s[n]]]
  }

  lemma StartOrder(events: seq<MinimalEvent>)
    ensures StartsAscend(SortBy(events, EventStart()))
  {
    SortByCorrect(events, EventStart());
    var s := SortBy(events, EventStart());
    forall i, j | 0 <= i <= j < |s| ensures s[i].start <= s[j].start {
      assert EventStart()(s[i]) <= EventStart()(s[j]);
    }
  }

  lemma AlreadySorted(s: seq<MinimalEvent>)
    requires StartsAscend(s)
    ensures SortBy(s, EventStart()) == s
  {
    SortByIdentity(s, EventStart());
  }

  ghost predicate DistinctIds(s: seq<MinimalEvent>) {
    forall i, j :: 0 <= i < j < |s| ==> s[i].id != s[j].id
  }

  lemma {:induction false} InsertDistinct(x: MinimalEvent, s: seq<MinimalEvent>)
    requires DistinctIds(s) && forall i :: 0 <= i < |s| ==> s[i].id != x.id
    ensures DistinctIds(Insert(x, s, EventStart()))
    ensures forall y :: y in Insert(x, s, EventStart()) <==> y == x || y in s
  {
    if s != [] && EventStart()(x) > EventStart()(s[0]) {
      InsertDistinct(x, s[1..]);
      var r := Insert(x, s[1..], EventStart());
      forall i | 0 <= i < |r| ensures r[i].id != s[0].id {
        assert r[i] in r;
      }
    }
  }

  lemma {:induction false} SortDistinct(s: seq<MinimalEvent>)
    requires DistinctIds(s)
    ensures DistinctIds(SortBy(s, EventStart()))
  {
    if s != [] {
      SortDistinct(s[1..]);
      SortByMembers(s[1..], EventStart());
      var r := SortBy(s[1..], EventStart());
      forall i | 0 <= i < |r| ensures r[i].id != s[0].id {
        assert r[i] in r;
      }
      InsertDistinct(s[0], r);
    }
  }

  method SplitByTimeContinuity(events: seq<MinimalEvent>) returns (segments: seq<seq<MinimalEvent>>)
    ensures segments == Segments(SortBy(events, EventStart()))
  {
    if |events| == 0 { return []; }
    var sorted := SortBy(events, EventStart());
    segments := [];
    var currentSegment := [sorted[0]];
    assert sorted[..1] == [sorted[0]];
    for i := 1 to |sorted|
      invariant currentSegment != [] && currentSegment[|currentSegment| - 1] == sorted[i - 1]
      invariant segments + [currentSegment] == Segments(sorted[..i])
    {
      var prev := currentSegment[|currentSegment| - 1];
      var next := sorted[i];
      assert sorted[..i + 1][..i] == sorted[..i];
      ghost var before := segments + [currentSegment];
      assert before[..|before| - 1] == segments;
      if next.start > prev.end {
        segments := segments + [currentSegment];
        currentSegment := [next];
      } else {
        currentSegment := currentSegment + [next];
      }
    }
    assert sorted[..|sorted|] == sorted;
    segments := segments + [currentSegment];
  }

  // ----- What the pieces are

  function Concat(segs: seq<seq<MinimalEvent>>): seq<MinimalEvent> {
    if segs == [] then [] else Concat(segs[..|segs| - 1]) + segs[|segs| - 1]
  }

  ghost predicate NonEmptyPieces(segs: seq<seq<MinimalEvent>>) {
    forall i :: 0 <= i < |segs| ==> segs[i] != []
  }

  /** No gap inside a piece: every event but the first starts by the end of an earlier one. */
  ghost predicate GapFree(seg: seq<MinimalEvent>) {
    forall k :: 0 < k < |seg| ==> InReach(seg, k)
  }

  ghost predicate InReach(seg: seq<MinimalEvent>, k: nat)
    requires k < |seg|
  {
    exists j :: 0 <= j < k && seg[k].start <= seg[j].end
  }

  /** Later pieces start strictly after everything in earlier pieces has ended. */
  ghost predicate Apart(segs: seq<seq<MinimalEvent>>) {
    forall i, j, a, b :: 0 <= i < j < |segs| && 0 <= a < |segs[i]| && 0 <= b < |segs[j]| ==>
      segs[i][a].end < segs[j][b].start
  }

  /** The maximal gap-free runs of `s`. At most one division of `s` has this property (ComponentsUnique). */
  ghost predicate IsComponents(segs: seq<seq<MinimalEvent>>, s: seq<MinimalEvent>) {
    && Concat(segs) == s && NonEmptyPieces(segs) && Apart(segs)
    && forall i :: 0 <= i < |segs| ==> GapFree(segs[i])
  }

  lemma {:induction false} ConcatHolds(segs: seq<seq<MinimalEvent>>, i: nat, a: nat) returns (k: nat)
    requires i < |segs| && a < |segs[i]|
    ensures k < |Concat(segs)| && Concat(segs)[k] == segs[i][a]
    ensures i == |segs| - 1 ==> k == |Concat(segs[..i])| + a
    ensures i < |segs| - 1 ==> k < |Concat(segs[..|segs| - 1])|
    decreases |segs|
  {
    if i == |segs| - 1 {
      k := |Concat(segs[..i])| + a;
    } else {
      k := ConcatHolds(segs[..|segs| - 1], i, a);
    }
  }

  lemma {:induction false} ConcatFrom(segs: seq<seq<MinimalEvent>>, k: nat) returns (i: nat, a: nat)
    requires k < |Concat(segs)|
    ensures i < |segs| && a < |segs[i]| && Concat(segs)[k] == segs[i][a]
    decreases |segs|
  {
    var front := segs[..|segs| - 1];
    if k < |Concat(front)| {
      i, a := ConcatFrom(front, k);
    } else {
      i, a := |segs| - 1, k - |Concat(front)|;
    }
  }

  lemma {:induction false} LastPieceEnds(s: seq<MinimalEvent>)
    requires s != []
    ensures NonEmptyPieces(Segments(s))
    ensures var l := Segments(s)[|Segments(s)| - 1]; l != [] && l[|l| - 1] == s[|s| - 1]
    decreases |s|
  {
    if |s| > 1 {
      LastPieceEnds(s[..|s| - 1]);
    }
  }

  lemma {:induction false} SegmentsConcat(s: seq<MinimalEvent>)
    ensures Concat(Segments(s)) == s
    decreases |s|
  {
    if s == [] {
    } else if |s| == 1 {
      assert [] + [s] == [s];
    } else {
      var n := |s| - 1;
      var before := Segments(s[..n]);
      SegmentsConcat(s[..n]);
      assert s == s[..n] + [s[n]];
      if !GapAt(s, n) {
        var front, last := before[..|before| - 1], before[|before| - 1];
        assert before == front + [last];
        assert Concat(front) + (last + [s[n]]) == Concat(front) + last + [s[n]];
      }
    }
  }

  lemma GapFreeGrow(last: seq<MinimalEvent>, x: MinimalEvent)
    requires last != [] && GapFree(last) && x.start <= last[|last| - 1].end
    ensures GapFree(last + [x])
  {
    var g := last + [x];
    forall k | 0 < k < |g| ensures InReach(g, k) {
      if k < |last| {
        assert InReach(last, k);
        var j :| 0 <= j < k && last[k].start <= last[j].end;
        assert g[k].start <= g[j].end;
      } else {
        assert g[k].start <= g[k - 1].end;
      }
    }
  }

  lemma {:induction false} PiecesGapFree(s: seq<MinimalEvent>)
    ensures forall i :: 0 <= i < |Segments(s)| ==> GapFree(Segments(s)[i])
    decreases |s|
  {
    if |s| > 1 {
      var n := |s| - 1;
      PiecesGapFree(s[..n]);
      LastPieceEnds(s[..n]);
      var before := Segments(s[..n]);
      if !GapAt(s, n) {
        GapFreeGrow(before[|before| - 1], s[n]);
      }
    }
  }

  /** Where piece `k` begins when the pieces are laid end to end. */
  function Offset(segs: seq<seq<MinimalEvent>>, k: nat): nat
    requires k <= |segs|
  {
    |Concat(segs[..k])|
  }

  lemma {:induction false} ConcatSlice(segs: seq<seq<MinimalEvent>>, k: nat)
    requires k < |segs|
    ensures Offset(segs, k) + |segs[k]| <= |Concat(segs)|
    ensures segs[k] == Concat(segs)[Offset(segs, k)..Offset(segs, k) + |segs[k]|]
    decreases |segs|
  {
    var n := |segs| - 1;
    if k < n {
      ConcatSlice(segs[..n], k);
      assert segs[..n][..k] == segs[..k];
    }
  }

  lemma {:induction false} OffsetsAscend(segs: seq<seq<MinimalEvent>>, k: nat, l: nat)
    requires k < l < |segs|
    ensures Offset(segs, k) + |segs[k]| <= Offset(segs, l)
    decreases l
  {
    assert segs[..l][..l - 1] == segs[..l - 1];
    if k < l - 1 {
      OffsetsAscend(segs, k, l - 1);
    }
  }

  /** Laid end to end the pieces are the sorted events; no piece is empty and none has an inner gap. */
  lemma SegmentsPartition(s: seq<MinimalEvent>)
    ensures Concat(Segments(s)) == s
    ensures NonEmptyPieces(Segments(s))
    ensures forall i :: 0 <= i < |Segments(s)| ==> GapFree(Segments(s)[i])
  {
    SegmentsConcat(s);
    PiecesGapFree(s);
    if s != [] {
      LastPieceEnds(s);
    }
  }

  /** At every gap after the previous event, all earlier events have ended too. */
  ghost predicate LastEndReaches(s: seq<MinimalEvent>) {
    forall i, k :: 0 < i < |s| && GapAt(s, i) && 0 <= k < i ==> s[k].end < s[i].start
  }

  lemma {:induction false} ApartExact(s: seq<MinimalEvent>)
    requires StartsAscend(s)
    ensures Apart(Segments(s)) <==> LastEndReaches(s)
    decreases |s|
  {
    if |s| >= 2 {
      var n := |s| - 1;
      ApartExact(s[..n]);
      ReachesPrefix(s);
      if GapAt(s, n) {
        ApartGap(s);
      } else {
        ApartNoGap(s);
      }
    } else {
      assert |Segments(s)| <= 1;
    }
  }

  ghost predicate AllEndBefore(s: seq<MinimalEvent>, t: int) {
    forall k :: 0 <= k < |s| ==> s[k].end < t
  }

  lemma AllEndBeforePrefix(s: seq<MinimalEvent>, n: nat, t: int)
    requires n <= |s|
    ensures AllEndBefore(s[..n], t) <==> forall k :: 0 <= k < n ==> s[k].end < t
  {
    if AllEndBefore(s[..n], t) {
      forall k | 0 <= k < n ensures s[k].end < t {
        assert s[..n][k].end < t;
      }
    }
  }

  lemma ApartGap(s: seq<MinimalEvent>)
    requires |s| >= 2 && GapAt(s, |s| - 1)
    ensures Apart(Segments(s)) <==>
            Apart(Segments(s[..|s| - 1])) && forall k :: 0 <= k < |s| - 1 ==> s[k].end < s[|s| - 1].start
  {
    var n := |s| - 1;
    var before := Segments(s[..n]);
    assert Segments(s) == before + [[s[n]]];
    SegmentsConcat(s[..n]);
    ApartPush(before, s[n], s[..n]);
    AllEndBeforePrefix(s, n, s[n].start);
  }

  lemma ApartNoGap(s: seq<MinimalEvent>)
    requires StartsAscend(s) && |s| >= 2 && !GapAt(s, |s| - 1)
    ensures Apart(Segments(s)) <==> Apart(Segments(s[..|s| - 1]))
  {
    var n := |s| - 1;
    var before := Segments(s[..n]);
    LastPieceEnds(s[..n]);
    ApartGrow(before, s[n]);
    assert Segments(s) == before[..|before| - 1] + [before[|before| - 1] + [s[n]]];
  }

  /** The pieces are the connected runs exactly when no event outlasts the one before a gap. */
  lemma SplitExact(s: seq<MinimalEvent>)
    requires StartsAscend(s)
    ensures IsComponents(Segments(s), s) <==> LastEndReaches(s)
  {
    SegmentsPartition(s);
    ApartExact(s);
  }

  lemma ReachesPrefix(s: seq<MinimalEvent>)
    requires |s| >= 2
    ensures var n := |s| - 1;
            LastEndReaches(s) <==>
                LastEndReaches(s[..n]) && (GapAt(s, n) ==> forall k :: 0 <= k < n ==> s[k].end < s[n].start)
  {
    var n := |s| - 1;
    forall i | 0 < i < n ensures GapAt(s, i) <==> GapAt(s[..n], i) {
    }
    if LastEndReaches(s) {
      forall i, k | 0 < i < n && GapAt(s[..n], i) && 0 <= k < i ensures s[..n][k].end < s[..n][i].start {
        assert GapAt(s, i);
      }
    }
    if LastEndReaches(s[..n]) && (GapAt(s, n) ==> forall k :: 0 <= k < n ==> s[k].end < s[n].start) {
      forall i, k | 0 < i < |s| && GapAt(s, i) && 0 <= k < i ensures s[k].end < s[i].start {
        if i < n {
          assert GapAt(s[..n], i);
          assert s[..n][k].end < s[..n][i].start;
        }
      }
    }
  }

  lemma ApartPush(before: seq<seq<MinimalEvent>>, x: MinimalEvent, s: seq<MinimalEvent>)
    requires Concat(before) == s
    ensures Apart(before + [[x]]) <==> Apart(before) && AllEndBefore(s, x.start)
  {
    var segs := before + [[x]];
    if Apart(segs) {
      assert forall i :: 0 <= i < |before| ==> segs[i] == before[i];
      forall k | 0 <= k < |s| ensures s[k].end < x.start {
        var i, a := ConcatFrom(before, k);
        assert segs[i][a].end < segs[|before|][0].start;
      }
    }
    if Apart(before) && AllEndBefore(s, x.start) {
      forall i, j, a, b | 0 <= i < j < |segs| && 0 <= a < |segs[i]| && 0 <= b < |segs[j]|
        ensures segs[i][a].end < segs[j][b].start
      {
        if j == |before| {
          var k := ConcatHolds(before, i, a);
        } else {
          assert before[i][a].end < before[j][b].start;
        }
      }
    }
  }

  lemma ApartGrow(before: seq<seq<MinimalEvent>>, x: MinimalEvent)
    requires before != [] && NonEmptyPieces(before)
    requires var last := before[|before| - 1]; last[|last| - 1].start <= x.start
    ensures var m := |before| - 1;
            Apart(before[..m] + [before[m] + [x]]) <==> Apart(before)
  {
    var m := |before| - 1;
    var grown := before[..m] + [before[m] + [x]];
    assert forall i :: 0 <= i < m ==> grown[i] == before[i];
    assert forall b :: 0 <= b < |before[m]| ==> grown[m][b] == before[m][b];
    if Apart(before) {
      forall i, j, a, b | 0 <= i < j < |grown| && 0 <= a < |grown[i]| && 0 <= b < |grown[j]|
        ensures grown[i][a].end < grown[j][b].start
      {
        if j == m && b == |before[m]| {
          assert before[i][a].end < before[m][b - 1].start;
        } else {
          assert before[i][a].end < before[j][b].start;
        }
      }
    }
    if Apart(grown) {
      forall i, j, a, b | 0 <= i < j < |before| && 0 <= a < |before[i]| && 0 <= b < |before[j]|
        ensures before[i][a].end < before[j][b].start
      {
        assert grown[i][a].end < grown[j][b].start;
      }
    }
  }

  /** When ends never decrease in start order the pieces are always the connected runs. */
  lemma EndsAscendSplit(s: seq<MinimalEvent>)
    requires StartsAscend(s)
    requires forall i, j :: 0 <= i <= j < |s| ==> s[i].end <= s[j].end
    ensures IsComponents(Segments(s), s)
  {
    SplitExact(s);
  }

  /** A long event over a short one: the gap after the short one splits what the long one joins. */
  lemma LongEventIsCut()
    ensures var s := [MinimalEvent(0, 0, 10), MinimalEvent(1, 1, 2), MinimalEvent(2, 5, 6)];
            StartsAscend(s) && Segments(s) == [s[..2], s[2..]] && !IsComponents(Segments(s), s)
  {
    var s := [MinimalEvent(0, 0, 10), MinimalEvent(1, 1, 2), MinimalEvent(2, 5, 6)];
    assert s[..2][..1] == s[..1] && |s[..2]| == 2 && |s[..1]| == 1;
    assert Segments(s[..1]) == [s[..1]];
    assert !GapAt(s[..2], 1) && GapAt(s, 2);
    assert [s[..1]][..0] == [];
    assert [s[..1]][0] + [s[1]] == s[..2];
    assert Segments(s[..2]) == [s[..2]];
    assert s[2..] == [s[2]];
    assert Segments(s)[0][0].end >= Segments(s)[1][0].start;
  }

  lemma EarlierEndsBefore(a: seq<seq<MinimalEvent>>, s: seq<MinimalEvent>, p: nat)
    requires IsComponents(a, s) && a != [] && p < |s| - |a[|a| - 1]|
    ensures s[p].end < a[|a| - 1][0].start
  {
    var i, c := ConcatFrom(a[..|a| - 1], p);
    assert a[i][c].end < a[|a| - 1][0].start;
  }

  lemma LastPieceNoShorter(a: seq<seq<MinimalEvent>>, b: seq<seq<MinimalEvent>>, s: seq<MinimalEvent>)
    requires IsComponents(a, s) && IsComponents(b, s) && a != [] && b != []
    ensures |a[|a| - 1]| >= |b[|b| - 1]|
  {
    var x, y := a[|a| - 1], b[|b| - 1];
    assert x == s[|s| - |x|..] && y == s[|s| - |y|..];
    if |x| < |y| {
      var k := |y| - |x|;
      assert InReach(y, k);
      var j :| 0 <= j < k && y[k].start <= y[j].end;
      EarlierEndsBefore(a, s, |s| - |y| + j);
      assert false;
    }
  }

  lemma FrontComponents(a: seq<seq<MinimalEvent>>, s: seq<MinimalEvent>)
    requires IsComponents(a, s) && a != []
    ensures IsComponents(a[..|a| - 1], s[..|s| - |a[|a| - 1]|])
    ensures s[|s| - |a[|a| - 1]|..] == a[|a| - 1]
  {
    var front := a[..|a| - 1];
    assert s == Concat(front) + a[|a| - 1];
    forall i, j, p, q | 0 <= i < j < |front| && 0 <= p < |front[i]| && 0 <= q < |front[j]|
      ensures front[i][p].end < front[j][q].start
    {
      assert a[i][p].end < a[j][q].start;
    }
  }

  /** At most one division of `s` consists of its connected runs. */
  lemma {:induction false} ComponentsUnique(a: seq<seq<MinimalEvent>>, b: seq<seq<MinimalEvent>>, s: seq<MinimalEvent>)
    requires IsComponents(a, s) && IsComponents(b, s)
    ensures a == b
    decreases |a|
  {
    if s == [] {
    } else {
      LastPieceNoShorter(a, b, s);
      LastPieceNoShorter(b, a, s);
      FrontComponents(a, s);
      FrontComponents(b, s);
      var m, n := |a| - 1, |b| - 1;
      ComponentsUnique(a[..m], b[..n], s[..|s| - |a[m]|]);
      assert a == a[..m] + [a[m]] && b == b[..n] + [b[n]];
    }
  }

  // ----- The window of one piece

  ghost predicate IsMaxEnd(seg: seq<MinimalEvent>, e: int) {
    (forall i :: 0 <= i < |seg| ==> seg[i].end <= e) && exists i :: 0 <= i < |seg| && seg[i].end == e
  }

  function MaxEnd(seg: seq<MinimalEvent>): (e: int)
    requires seg != []
    ensures IsMaxEnd(seg, e)
  {
    var n := |seg| - 1;
    if n == 0 then
      assert seg[0].end == seg[0].end;
      seg[0].end
    else
      var m := MaxEnd(seg[..n]);
      assert exists i :: 0 <= i < n && seg[..n][i].end == m;
      assert forall i :: 0 <= i < n ==> seg[..n][i] == seg[i];
      if seg[n].end > m then seg[n].end else m
  }

  method GetSegmentBounds(segment: seq<MinimalEvent>) returns (startDate: int, endDate: int)
    requires segment != []
    ensures startDate == segment[0].start && endDate == MaxEnd(segment)
  {
    startDate := segment[0].start;
    endDate := segment[0].end;
    assert segment[..1] == [segment[0]];
    for i := 1 to |segment|
      invariant endDate == MaxEnd(segment[..i])
    {
      assert segment[..i + 1][..i] == segment[..i];
      if segment[i].end > endDate {
        endDate := segment[i].end;
      }
    }
    assert segment[..|segment|] == segment;
  }
}
