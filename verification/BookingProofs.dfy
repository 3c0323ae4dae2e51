/** What the booking transactions keep, step by step and over whole runs. */
module BookingProofs {
  import opened Wrappers
  import opened TimeSegments
  import opened BookingModel

  // ----- People follow their events

  /** The rows whose person is `who`. */
  ghost function RowsSaying(people: seq<Person>, who: Person, rows: seq<Id>): set<Id>
    requires |rows| == |people|
  {
    set i | 0 <= i < |people| && people[i] == who :: rows[i]
  }

  lemma RowsPush(people: seq<Person>, last: Person, rows: seq<Id>, r: Id, who: Person)
    requires |rows| == |people|
    ensures RowsSaying(people + [last], who, rows + [r]) == RowsSaying(people, who, rows) + if last == who then {r}
            else {}
  {
    var a, b := RowsSaying(people + [last], who, rows + [r]), RowsSaying(people, who, rows);
    forall x | x in b ensures x in a {
      var i :| 0 <= i < |people| && people[i] == who && rows[i] == x;
      assert (people + [last])[i] == who && (rows + [r])[i] == x;
    }
    if last == who {
      assert (people + [last])[|people|] == who && (rows + [r])[|people|] == r;
    }
  }

  lemma CountPush(people: seq<Person>, last: Person, rows: seq<Id>, r: Id, who: Person)
    requires |rows| == |people| && r !in rows && |RowsSaying(people, who, rows)| == multiset(people)[who]
    ensures |RowsSaying(people + [last], who, rows + [r])| == multiset(people + [last])[who]
  {
    RowsPush(people, last, rows, r, who);
    assert r !in RowsSaying(people, who, rows);
    assert multiset(people + [last]) == multiset(people) + multiset{last};
  }

  lemma {:induction false} CountRows(people: seq<Person>, who: Person, rows: seq<Id>)
    requires |rows| == |people| && forall i, j :: 0 <= i < j < |rows| ==> rows[i] != rows[j]
    ensures |RowsSaying(people, who, rows)| == multiset(people)[who]
    decreases |people|
  {
    if people == [] {
      assert RowsSaying(people, who, rows) == {};
    } else {
      var n := |people| - 1;
      CountRows(people[..n], who, rows[..n]);
      CountPush(people[..n], people[n], rows[..n], rows[n], who);
      assert people == people[..n] + [people[n]] && rows == rows[..n] + [rows[n]];
    }
  }

  lemma ListingCounts(db: Db, g: Id, rows: seq<Id>, people: seq<Person>, who: Person)
    requires IsLiveListing(db, g, rows, people)
    ensures HeadCount(db, g, who) == multiset(people)[who]
  {
    CountRows(people, who, rows);
    var a := set p | p in db.participants && Live(db, p, g) && db.participants[p].person == who;
    forall p ensures p in a <==> p in RowsSaying(people, who, rows) {
      if p in a {
        assert p in rows;
        var i :| 0 <= i < |rows| && rows[i] == p;
        assert people[i] == who;
      }
    }
    assert a == RowsSaying(people, who, rows);
  }

  lemma CloneCountsNew(db: Db, details: GroupDetails, people: seq<Person>, start: int, end: int, who: Person)
    requires Refs(db)
    ensures HeadCount(Clone(db, details, people, start, end), db.nextId, who) == multiset(people)[who]
  {
    var g := db.nextId;
    var db' := Clone(db, details, people, start, end);
    var rows := seq(|people|, i => g + 1 + i);
    CountRows(people, who, rows);
    forall p: Id ensures p in db'.participants && Live(db', p, g) && db'.participants[p].person == who <==>
        p in RowsSaying(people, who, rows) {
      if g < p <= g + |people| {
        assert rows[p - g - 1] == p;
      }
    }
    assert (set p | p in db'.participants && Live(db', p, g) && db'.participants[p].person == who) ==
        RowsSaying(people, who, rows);
  }

  /** A clone holds exactly the people listed; every other group keeps its people. */
  lemma CloneCounts(db: Db, details: GroupDetails, people: seq<Person>, start: int, end: int, h: Id, who: Person)
    requires Refs(db)
    ensures HeadCount(Clone(db, details, people, start, end), h, who) ==
            if h == db.nextId then multiset(people)[who] else HeadCount(db, h, who)
  {
    if h == db.nextId {
      CloneCountsNew(db, details, people, start, end, who);
    } else {
      var db' := Clone(db, details, people, start, end);
      assert forall p :: Live(db', p, h) <==> Live(db, p, h);
      assert (set p | p in db'.participants && Live(db', p, h) && db'.participants[p].person == who)
          == (set p | p in db.participants && Live(db, p, h) && db.participants[p].person == who);
    }
  }

  // ----- One more piece

  ghost predicate Describes(db: Db, g: Id, seg: seq<MinimalEvent>) {
    forall i :: 0 <= i < |seg| ==>
      && Active(db, seg[i].id, g)
      && seg[i].start == db.events[seg[i].id].start && seg[i].end == db.events[seg[i].id].end
  }

  /**
  A piece listed by start has its first start and its largest end as window, once its events are a group of
  their own.
  */
  lemma PieceWindow(db: Db, g: Id, seg: seq<MinimalEvent>)
    requires seg != [] && StartsAscend(seg) && Describes(db, g, seg)
    requires forall e :: Active(db, e, g) ==> e in Ids(seg)
    ensures IsWindow(db, g, seg[0].start, MaxEnd(seg))
  {
    forall e | Active(db, e, g) ensures seg[0].start <= db.events[e].start && db.events[e].end <= MaxEnd(seg) {
      var i :| 0 <= i < |seg| && seg[i].id == e;
    }
    assert Active(db, seg[0].id, g);
    var i :| 0 <= i < |seg| && seg[i].end == MaxEnd(seg);
    assert Active(db, seg[i].id, g);
  }

  /** Old groups and participants are as they were; new groups are clones with their exact window. */
  ghost predicate GroupsGrown(db: Db, db': Db, details: GroupDetails) {
    && Refs(db') && db.nextId <= db'.nextId && db'.rules == db.rules
    && (forall h :: h in db.groups ==> h in db'.groups && db'.groups[h] == db.groups[h])
    && (forall p :: p in db.participants ==> p in db'.participants && db'.participants[p] == db.participants[p])
    && (forall h :: h in db'.groups && h !in db.groups ==>
          h >= db.nextId && db'.groups[h].details == CloneDetails(details)
          && IsWindow(db', h, db'.groups[h].start, db'.groups[h].end))
  }

  lemma AddSegmentWindow(db: Db, details: GroupDetails, people: seq<Person>, oldGroup: Id, seg: seq<MinimalEvent>)
    requires Refs(db) && oldGroup in db.groups
    requires seg != [] && StartsAscend(seg) && Describes(db, oldGroup, seg)
    ensures IsWindow(AddSegment(db, details, people, seg), db.nextId, seg[0].start, MaxEnd(seg))
  {
    var db' := AddSegment(db, details, people, seg);
    var g := db.nextId;
    assert forall e :: e in db'.events && db'.events[e].group == g ==> e in Ids(seg);
    assert Describes(db', g, seg) by {
      forall i | 0 <= i < |seg| ensures Active(db', seg[i].id, g) {
        assert Active(db, seg[i].id, oldGroup);
        assert seg[i].id in Ids(seg);
      }
    }
    PieceWindow(db', g, seg);
  }

  lemma AddSegmentFacts(db: Db, details: GroupDetails, people: seq<Person>, oldGroup: Id, seg: seq<MinimalEvent>)
    requires Refs(db) && oldGroup in db.groups
    requires seg != [] && StartsAscend(seg) && Describes(db, oldGroup, seg)
    ensures GroupsGrown(db, AddSegment(db, details, people, seg), details)
    ensures AddSegment(db, details, people, seg).groups.Keys == db.groups.Keys + {db.nextId}
  {
    AddSegmentWindow(db, details, people, oldGroup, seg);
    var db' := AddSegment(db, details, people, seg);
    assert db'.groups == db.groups[db.nextId := Group(seg[0].start, MaxEnd(seg), CloneDetails(details))];
    assert Refs(db') by {
      forall e | e in db'.events ensures db'.events[e].group in db'.groups
        && (db'.events[e].rule.Some? ==> db'.events[e].rule.value in db'.rules) {
        assert db.events[e].group in db.groups;
      }
    }
  }

  // ----- All further pieces

  ghost predicate InPieces(segs: seq<seq<MinimalEvent>>, e: Id) {
    exists k, i :: 0 <= k < |segs| && 0 <= i < |segs[k]| && segs[k][i].id == e
  }

  /** The pieces name active events of `g`, no event twice across pieces. */
  ghost predicate PiecesOf(db: Db, g: Id, segs: seq<seq<MinimalEvent>>) {
    && NonEmptyPieces(segs)
    && (forall k :: 0 <= k < |segs| ==> StartsAscend(segs[k]) && Describes(db, g, segs[k]))
    && (forall k, l, i, j :: 0 <= k < l < |segs| && 0 <= i < |segs[k]| && 0 <= j < |segs[l]| ==>
         segs[k][i].id != segs[l][j].id)
  }

  ghost predicate PeopleCopied(db: Db, db': Db, people: seq<Person>) {
    forall h, who :: h in db'.groups ==>
      HeadCount(db', h, who) == if h in db.groups then HeadCount(db, h, who) else multiset(people)[who]
  }

  /** The group that piece `k` ended up in. */
  ghost function PieceGroup(db': Db, segs: seq<seq<MinimalEvent>>, k: nat): Id
    requires k < |segs| && segs[k] != [] && segs[k][0].id in db'.events
  {
    db'.events[segs[k][0].id].group
  }

  ghost predicate OthersUntouched(db: Db, db': Db, segs: seq<seq<MinimalEvent>>) {
    && db'.events.Keys == db.events.Keys
    && (forall e :: e in db.events && !InPieces(segs, e) ==> db'.events[e] == db.events[e])
  }

  ghost predicate PiecesTogether(db: Db, db': Db, segs: seq<seq<MinimalEvent>>)
    requires NonEmptyPieces(segs)
  {
    forall k, i :: 0 <= k < |segs| && 0 <= i < |segs[k]| ==>
      && segs[k][i].id in db.events && segs[k][i].id in db'.events && segs[k][0].id in db'.events
      && db'.events[segs[k][i].id] == db.events[segs[k][i].id].(group := PieceGroup(db', segs, k))
  }

  ghost predicate OwnGroups(db: Db, db': Db, segs: seq<seq<MinimalEvent>>)
    requires NonEmptyPieces(segs)
  {
    && (forall k :: 0 <= k < |segs| ==>
         && segs[k][0].id in db'.events
         && PieceGroup(db', segs, k) in db'.groups && PieceGroup(db', segs, k) !in db.groups)
    && (forall k, l :: 0 <= k < l < |segs| ==> PieceGroup(db', segs, k) != PieceGroup(db', segs, l))
    && (forall h :: h in db'.groups && h !in db.groups ==> exists k :: 0 <= k < |segs| && PieceGroup(db', segs, k) == h)
  }

  /** Each piece is together in a new group of its own, each new group holds a piece, and no other event changed. */
  ghost predicate EventsPlaced(db: Db, db': Db, segs: seq<seq<MinimalEvent>>)
    requires NonEmptyPieces(segs)
  {
    OthersUntouched(db, db', segs) && PiecesTogether(db, db', segs) && OwnGroups(db, db', segs)
  }

  lemma {:induction false} AddSegmentsFacts(
      db: Db, details: GroupDetails, people: seq<Person>, oldGroup: Id, segs: seq<seq<MinimalEvent>>)
    requires Refs(db) && oldGroup in db.groups && PiecesOf(db, oldGroup, segs)
    ensures var db' := AddSegments(db, details, people, segs);
            GroupsGrown(db, db', details) && PeopleCopied(db, db', people) && EventsPlaced(db, db', segs)
    decreases |segs|
  {
    if segs == [] {
    } else {
      var db1 := AddSegment(db, details, people, segs[0]);
      var rest := segs[1..];
      AddSegmentFacts(db, details, people, oldGroup, segs[0]);
      PiecesRest(db, details, people, oldGroup, segs);
      AddSegmentsFacts(db1, details, people, oldGroup, rest);
      var db' := AddSegments(db1, details, people, rest);
      PlacedTogether(db, db1, db', details, people, oldGroup, segs);
      forall h, who | h in db'.groups ensures
          HeadCount(db', h, who) == if h in db.groups then HeadCount(db, h, who) else multiset(people)[who] {
        CloneCounts(db, details, people, segs[0][0].start, MaxEnd(segs[0]), h, who);
        var cloned := Clone(db, details, people, segs[0][0].start, MaxEnd(segs[0]));
        SameRows(cloned, db1, h, who);
      }
    }
  }

  lemma SameRows(a: Db, b: Db, h: Id, who: Person)
    requires a.participants == b.participants
    ensures HeadCount(a, h, who) == HeadCount(b, h, who)
  {
    assert (set p | p in a.participants && Live(a, p, h) && a.participants[p].person == who)
        == (set p | p in b.participants && Live(b, p, h) && b.participants[p].person == who);
  }

  lemma PiecesRest(db: Db, details: GroupDetails, people: seq<Person>, oldGroup: Id, segs: seq<seq<MinimalEvent>>)
    requires Refs(db) && oldGroup in db.groups && PiecesOf(db, oldGroup, segs) && segs != []
    ensures PiecesOf(AddSegment(db, details, people, segs[0]), oldGroup, segs[1..])
  {
    var db1 := AddSegment(db, details, people, segs[0]);
    var rest := segs[1..];
    forall k | 0 <= k < |rest| ensures StartsAscend(rest[k]) && Describes(db1, oldGroup, rest[k]) {
      assert rest[k] == segs[k + 1];
      forall i | 0 <= i < |rest[k]| ensures db1.events[rest[k][i].id] == db.events[rest[k][i].id] {
        assert Active(db, segs[k + 1][i].id, oldGroup);
        assert rest[k][i].id !in Ids(segs[0]);
      }
    }
  }

  /** First piece placed by db1, the others by db': all are placed by db'. */
  lemma PlacedTogether(
      db: Db, db1: Db, db': Db, details: GroupDetails, people: seq<Person>, oldGroup: Id,
      segs: seq<seq<MinimalEvent>>)
    requires Refs(db) && oldGroup in db.groups && PiecesOf(db, oldGroup, segs) && segs != []
    requires db1 == AddSegment(db, details, people, segs[0])
    requires db1.groups.Keys == db.groups.Keys + {db.nextId}
    requires GroupsGrown(db, db1, details)
    requires GroupsGrown(db1, db', details) && EventsPlaced(db1, db', segs[1..])
    ensures GroupsGrown(db, db', details) && EventsPlaced(db, db', segs)
  {
    FirstPieceStays(db, db1, db', details, people, oldGroup, segs);
    GrownCompose(db, db1, db', details);
    FirstPiecePlaced(db, db1, db', details, people, oldGroup, segs);
    RestPiecesPlaced(db, db1, db', details, people, oldGroup, segs);
    UntouchedTogether(db, db1, db', details, people, segs);
    NewGroupsHoldPieces(db, db1, db', segs);
  }

  lemma UntouchedTogether(
      db: Db, db1: Db, db': Db, details: GroupDetails, people: seq<Person>, segs: seq<seq<MinimalEvent>>)
    requires segs != [] && NonEmptyPieces(segs)
    requires db1 == AddSegment(db, details, people, segs[0])
    requires OthersUntouched(db1, db', segs[1..])
    ensures OthersUntouched(db, db', segs)
  {
    forall e | e in db.events && !InPieces(segs, e) ensures db'.events[e] == db.events[e] {
      PiecesSplit(segs, e);
    }
  }

  lemma GrownCompose(db: Db, db1: Db, db': Db, details: GroupDetails)
    requires GroupsGrown(db, db1, details) && GroupsGrown(db1, db', details)
    requires forall h :: h in db1.groups && h !in db.groups ==> IsWindow(db', h, db1.groups[h].start, db1.groups[h].end)
    ensures GroupsGrown(db, db', details)
  {
  }

  lemma FirstPieceStays(
      db: Db, db1: Db, db': Db, details: GroupDetails, people: seq<Person>, oldGroup: Id,
      segs: seq<seq<MinimalEvent>>)
    requires Refs(db) && oldGroup in db.groups && PiecesOf(db, oldGroup, segs) && segs != []
    requires db1 == AddSegment(db, details, people, segs[0])
    requires EventsPlaced(db1, db', segs[1..])
    ensures forall start, end :: IsWindow(db1, db.nextId, start, end) ==> IsWindow(db', db.nextId, start, end)
  {
    var rest: seq<seq<MinimalEvent>> := segs[1..];
    forall k, i | 0 <= k < |rest| && 0 <= i < |rest[k]| && rest[k][i].id in db1.events
      ensures db1.events[rest[k][i].id].group != db.nextId {
      assert rest[k] == segs[k + 1];
      assert Active(db, segs[k + 1][i].id, oldGroup);
      assert segs[k + 1][i].id !in Ids(segs[0]);
    }
    WindowKept(db1, db', db.nextId, rest);
  }

  lemma FirstPiecePlaced(
      db: Db, db1: Db, db': Db, details: GroupDetails, people: seq<Person>, oldGroup: Id,
      segs: seq<seq<MinimalEvent>>)
    requires Refs(db) && PiecesOf(db, oldGroup, segs) && segs != []
    requires db1 == AddSegment(db, details, people, segs[0])
    requires OthersUntouched(db1, db', segs[1..])
    ensures forall i :: 0 <= i < |segs[0]| ==>
              segs[0][i].id in db.events && segs[0][i].id in db'.events
              && db'.events[segs[0][i].id] == db.events[segs[0][i].id].(group := db.nextId)
  {
    forall i | 0 <= i < |segs[0]| ensures
        segs[0][i].id in db.events && segs[0][i].id in db'.events
        && db'.events[segs[0][i].id] == db.events[segs[0][i].id].(group := db.nextId) {
      assert Active(db, segs[0][i].id, oldGroup);
      assert segs[0][i].id in Ids(segs[0]);
      assert forall k :: 0 <= k < |segs[1..]| ==> segs[1..][k] == segs[k + 1];
      assert !InPieces(segs[1..], segs[0][i].id);
    }
  }

  lemma RestPiecesPlaced(
      db: Db, db1: Db, db': Db, details: GroupDetails, people: seq<Person>, oldGroup: Id,
      segs: seq<seq<MinimalEvent>>)
    requires Refs(db) && PiecesOf(db, oldGroup, segs) && segs != []
    requires db1 == AddSegment(db, details, people, segs[0])
    requires PiecesTogether(db1, db', segs[1..])
    ensures forall k, i :: 0 < k < |segs| && 0 <= i < |segs[k]| ==>
              && segs[k][i].id in db.events && segs[k][i].id in db'.events && segs[k][0].id in db'.events
              && db'.events[segs[k][i].id] == db.events[segs[k][i].id].(group := PieceGroup(db', segs, k))
  {
    forall k, i | 0 < k < |segs| && 0 <= i < |segs[k]| ensures
        && segs[k][i].id in db.events && segs[k][i].id in db'.events && segs[k][0].id in db'.events
        && db'.events[segs[k][i].id] == db.events[segs[k][i].id].(group := PieceGroup(db', segs, k)) {
      RestEventPlaced(db, db1, db', details, people, oldGroup, segs, k, i);
    }
  }

  lemma RestEventPlaced(
      db: Db, db1: Db, db': Db, details: GroupDetails, people: seq<Person>, oldGroup: Id,
      segs: seq<seq<MinimalEvent>>, k: nat, i: nat)
    requires Refs(db) && PiecesOf(db, oldGroup, segs) && 0 < k < |segs| && i < |segs[k]|
    requires db1 == AddSegment(db, details, people, segs[0])
    requires PiecesTogether(db1, db', segs[1..])
    ensures segs[k][i].id in db.events && segs[k][i].id in db'.events && segs[k][0].id in db'.events
    ensures db'.events[segs[k][i].id] == db.events[segs[k][i].id].(group := PieceGroup(db', segs, k))
  {
    assert Active(db, segs[k][i].id, oldGroup);
    assert segs[k][i].id !in Ids(segs[0]);
    PlacedInRest(db1, db', segs, k, i);
  }

  lemma PlacedInRest(db1: Db, db': Db, segs: seq<seq<MinimalEvent>>, k: nat, i: nat)
    requires NonEmptyPieces(segs) && 0 < k < |segs| && i < |segs[k]|
    requires PiecesTogether(db1, db', segs[1..]) && segs[k][i].id in db1.events
    ensures segs[k][i].id in db'.events && segs[k][0].id in db'.events
    ensures db'.events[segs[k][i].id] == db1.events[segs[k][i].id].(group := PieceGroup(db', segs, k))
  {
    var rest: seq<seq<MinimalEvent>> := segs[1..];
    assert segs[k] == rest[k - 1];
    assert db'.events[rest[k - 1][i].id] == db1.events[rest[k - 1][i].id].(group := PieceGroup(db', rest, k - 1));
  }

  lemma NewGroupsHoldPieces(db: Db, db1: Db, db': Db, segs: seq<seq<MinimalEvent>>)
    requires Refs(db) && segs != [] && NonEmptyPieces(segs)
    requires db1.groups.Keys == db.groups.Keys + {db.nextId}
    requires db.nextId in db'.groups && OwnGroups(db1, db', segs[1..])
    requires segs[0][0].id in db'.events && PieceGroup(db', segs, 0) == db.nextId
    requires forall k :: 0 < k < |segs| ==>
             segs[k][0].id in db'.events && PieceGroup(db', segs, k) == PieceGroup(db', segs[1..], k - 1)
    ensures OwnGroups(db, db', segs)
  {
    var rest := segs[1..];
    forall h | h in db'.groups && h !in db.groups ensures exists k :: 0 <= k < |segs| && PieceGroup(db', segs, k) == h {
      if h != db.nextId {
        var k :| 0 <= k < |rest| && PieceGroup(db', rest, k) == h;
        assert PieceGroup(db', segs, k + 1) == h;
      }
    }
  }

  lemma PiecesSplit(segs: seq<seq<MinimalEvent>>, e: Id)
    requires segs != []
    ensures InPieces(segs, e) <==> e in Ids(segs[0]) || InPieces(segs[1..], e)
  {
    if InPieces(segs, e) {
      var k, i :| 0 <= k < |segs| && 0 <= i < |segs[k]| && segs[k][i].id == e;
      if k > 0 {
        assert segs[1..][k - 1][i].id == e;
      }
    }
    if InPieces(segs[1..], e) {
      var k, i :| 0 <= k < |segs[1..]| && 0 <= i < |segs[1..][k]| && segs[1..][k][i].id == e;
      assert segs[k + 1][i].id == e;
    }
  }

  /** A window stays exact when the pieces placed later come from another group and go to new ones. */
  lemma WindowKept(db: Db, db': Db, g: Id, segs: seq<seq<MinimalEvent>>)
    requires g in db.groups && NonEmptyPieces(segs) && EventsPlaced(db, db', segs)
    requires forall k, i :: 0 <= k < |segs| && 0 <= i < |segs[k]| && segs[k][i].id in db.events ==>
             db.events[segs[k][i].id].group != g
    ensures forall e :: Active(db', e, g) <==> Active(db, e, g)
    ensures forall e :: Active(db, e, g) ==> db'.events[e] == db.events[e]
    ensures forall start, end :: IsWindow(db, g, start, end) ==> IsWindow(db', g, start, end)
  {
    forall e ensures Active(db', e, g) <==> Active(db, e, g)
      ensures Active(db, e, g) ==> db'.events[e] == db.events[e]
    {
      if InPieces(segs, e) {
        var k, i :| 0 <= k < |segs| && 0 <= i < |segs[k]| && segs[k][i].id == e;
        assert PieceGroup(db', segs, k) !in db.groups;
      }
    }
    forall start, end | IsWindow(db, g, start, end) ensures IsWindow(db', g, start, end) {
      var a :| Active(db, a, g) && db.events[a].start == start;
      var b :| Active(db, b, g) && db.events[b].end == end;
      assert Active(db', a, g) && Active(db', b, g);
    }
  }

  // ----- Moving an event out of its booking

  lemma PieceAt(list: seq<MinimalEvent>, k: nat, i: nat) returns (x: nat)
    requires k < |Segments(list)| && i < |Segments(list)[k]|
    ensures x < |list| && x == Offset(Segments(list), k) + i && Segments(list)[k][i] == list[x]
  {
    SegmentsConcat(list);
    ConcatSlice(Segments(list), k);
    x := Offset(Segments(list), k) + i;
  }

  lemma PieceDescribes(db: Db, g: Id, list: seq<MinimalEvent>, k: nat)
    requires IsActiveListing(db, g, list) && k < |Segments(list)|
    ensures StartsAscend(Segments(list)[k]) && Describes(db, g, Segments(list)[k])
  {
    var seg := Segments(list)[k];
    forall i | 0 <= i < |seg| ensures Active(db, seg[i].id, g) && seg[i].start == db.events[seg[i].id].start
        && seg[i].end == db.events[seg[i].id].end {
      var x := PieceAt(list, k, i);
    }
    forall i, j | 0 <= i <= j < |seg| ensures seg[i].start <= seg[j].start {
      var x := PieceAt(list, k, i);
      var y := PieceAt(list, k, j);
    }
  }

  lemma PiecesShareNothing(db: Db, g: Id, list: seq<MinimalEvent>, k: nat, l: nat, i: nat, j: nat)
    requires IsActiveListing(db, g, list)
    requires k < l < |Segments(list)| && i < |Segments(list)[k]| && j < |Segments(list)[l]|
    ensures Segments(list)[k][i].id != Segments(list)[l][j].id
  {
    var x := PieceAt(list, k, i);
    var y := PieceAt(list, l, j);
    OffsetsAscend(Segments(list), k, l);
  }

  lemma PiecesCover(list: seq<MinimalEvent>, e: Id)
    ensures InPieces(Segments(list), e) <==> e in Ids(list)
  {
    var segs: seq<seq<MinimalEvent>> := Segments(list);
    if InPieces(segs, e) {
      var k, i :| 0 <= k < |segs| && 0 <= i < |segs[k]| && segs[k][i].id == e;
      var x := PieceAt(list, k, i);
    }
    if e in Ids(list) {
      var x :| 0 <= x < |list| && list[x].id == e;
      SegmentsConcat(list);
      var k, i := ConcatFrom(segs, x);
      assert segs[k][i].id == e;
    }
  }

  /** The pieces of a listing are listings in turn, and share no event. */
  lemma PiecesOfListing(db: Db, g: Id, list: seq<MinimalEvent>)
    requires IsActiveListing(db, g, list)
    ensures PiecesOf(db, g, Segments(list))
    ensures forall e :: InPieces(Segments(list), e) <==> e in Ids(list)
  {
    var segs: seq<seq<MinimalEvent>> := Segments(list);
    forall k | 0 <= k < |segs| ensures StartsAscend(segs[k]) && Describes(db, g, segs[k]) {
      PieceDescribes(db, g, list, k);
    }
    forall k, l, i, j | 0 <= k < l < |segs| && 0 <= i < |segs[k]| && 0 <= j < |segs[l]|
        ensures segs[k][i].id != segs[l][j].id {
      PiecesShareNothing(db, g, list, k, l, i, j);
    }
    forall e ensures InPieces(segs, e) <==> e in Ids(list) {
      PiecesCover(list, e);
    }
  }

  lemma MoveOutFacts(db: Db, id: Id, input: UpdateInput, people: seq<Person>)
    requires Refs(db) && Validate(db, input, true) == Ok(id)
    ensures GroupsGrown(db, MoveOut(db, id, input, people), db.groups[db.events[id].group].details)
    ensures PeopleCopied(db, MoveOut(db, id, input, people), people)
  {
    var ev := db.events[id];
    var details := db.groups[ev.group].details;
    var start, end := input.start.value.ms, input.end.value.ms;
    var db1 := MoveOut(db, id, input, people);
    var g := db.nextId;
    assert db1.groups == db.groups[g := Group(start, end, CloneDetails(details))];
    assert forall e :: e in db.events ==> db.events[e].group in db.groups;
    assert Active(db1, id, g);
    assert forall e :: Active(db1, e, g) ==> e == id;
    assert IsWindow(db1, g, start, end);
    forall h, who | h in db1.groups ensures
        HeadCount(db1, h, who) == if h in db.groups then HeadCount(db, h, who) else multiset(people)[who] {
      CloneCounts(db, details, people, start, end, h, who);
      SameRows(Clone(db, details, people, start, end), db1, h, who);
    }
  }

  /** `list` names what a move of `id` leaves behind, by start; rows with equal starts may come in any order. */
  ghost predicate ListsRemaining(db: Db, id: Id, list: seq<MinimalEvent>)
    requires id in db.events
  {
    && StartsAscend(list)
    && (forall i, j :: 0 <= i < j < |list| ==> list[i].id != list[j].id)
    && Describes(db, db.events[id].group, list)
    && (forall e :: e in Ids(list) <==> Active(db, e, db.events[id].group) && e != id)
  }

  /**
  Events: none lost, none made; the target gets its new fields in a new group; others change at most their
  group, and only if they shared the target's.
  */
  ghost predicate MoveEvents(db: Db, id: Id, input: UpdateInput, db': Db)
    requires id in db.events
  {
    && db'.events.Keys == db.events.Keys
    && db'.events[id] == Apply(db.events[id], input).(group := db.nextId)
    && (forall e :: e in db.events && e != id ==>
          && db'.events[e] == db.events[e].(group := db'.events[e].group)
          && (!Active(db, e, db.events[id].group) ==> db'.events[e] == db.events[e]))
  }

  /** What stays behind: the first piece keeps the old group, each further piece is alone in a new one. */
  ghost predicate MovePieces(db: Db, id: Id, db': Db, segs: seq<seq<MinimalEvent>>)
    requires id in db.events && NonEmptyPieces(segs)
  {
    && (forall e :: InPieces(segs, e) <==> Active(db, e, db.events[id].group) && e != id)
    && (forall k, i :: 0 <= k < |segs| && 0 <= i < |segs[k]| ==>
          && segs[k][i].id in db'.events && segs[k][0].id in db'.events
          && db'.events[segs[k][i].id].group == PieceGroup(db', segs, k))
    && (segs != [] ==> PieceGroup(db', segs, 0) == db.events[id].group)
    && (forall k :: 0 < k < |segs| ==> PieceGroup(db', segs, k) !in db.groups && PieceGroup(db', segs, k) != db.nextId)
    && (forall k, l :: 0 < k < l < |segs| ==> PieceGroup(db', segs, k) != PieceGroup(db', segs, l))
  }

  /**
  Groups and participants: old ones as they were, but for the window of the old group; new ones are clones
  with exact windows.
  */
  ghost predicate MoveGroups(db: Db, id: Id, db': Db)
    requires id in db.events && db.events[id].group in db.groups
  {
    var oldGroup := db.events[id].group;
    && Refs(db') && db'.rules == db.rules
    && (forall h :: h in db.groups ==> h in db'.groups && (h != oldGroup ==> db'.groups[h] == db.groups[h]))
    && db'.groups[oldGroup].details == db.groups[oldGroup].details
    && (forall h :: h in db'.groups && h !in db.groups ==>
          IsCopy(db.groups[oldGroup].details, db'.groups[h].details)
          && IsWindow(db', h, db'.groups[h].start, db'.groups[h].end))
    && (if exists e :: Active(db', e, oldGroup)
         then IsWindow(db', oldGroup, db'.groups[oldGroup].start, db'.groups[oldGroup].end)
        else db'.groups[oldGroup] == db.groups[oldGroup])
    && (forall p :: p in db.participants ==> p in db'.participants && db'.participants[p] == db.participants[p])
  }

  /** People: every group keeps its live participants, and every new group has exactly those of the old one. */
  ghost predicate MovePeople(db: Db, id: Id, db': Db)
    requires id in db.events
  {
    forall h, who :: h in db'.groups ==>
      HeadCount(db', h, who) == HeadCount(db, if h in db.groups then h else db.events[id].group, who)
  }

  /** The store between taking the target out and giving further pieces their groups. */
  function Trimmed(db: Db, id: Id, input: UpdateInput, people: seq<Person>, remaining: seq<MinimalEvent>): Db
    requires Refs(db) && Validate(db, input, true) == Ok(id)
  {
    var db1 := MoveOut(db, id, input, people);
    if remaining == [] then db1
    else
      var first := Segments(remaining)[0];
      SetWindow(db1, db.events[id].group, first[0].start, MaxEnd(first))
  }

  function FurtherPieces(remaining: seq<MinimalEvent>): (r: seq<seq<MinimalEvent>>)
    ensures NonEmptyPieces(r)
  {
    if remaining == [] then [] else Segments(remaining)[1..]
  }

  lemma MoveViaTrimmed(db: Db, id: Id, input: UpdateInput, people: seq<Person>, remaining: seq<MinimalEvent>)
    requires Refs(db) && Validate(db, input, true) == Ok(id)
    ensures Move(db, id, input, people, remaining)
         == AddSegments(Trimmed(db, id, input, people, remaining), db.groups[db.events[id].group].details, people,
             FurtherPieces(remaining))
  {
  }

  lemma SetWindowFacts(db: Db, g: Id, start: int, end: int)
    requires Refs(db) && g in db.groups
    ensures Refs(SetWindow(db, g, start, end))
  {
  }

  lemma FurtherPiecesOf(db1: Db, db2: Db, g: Id, list: seq<MinimalEvent>)
    requires db1.events == db2.events && IsActiveListing(db1, g, list)
    ensures PiecesOf(db2, g, FurtherPieces(list))
    ensures forall e :: InPieces(FurtherPieces(list), e) ==> Active(db1, e, g)
    ensures list != [] ==> forall e :: InPieces(FurtherPieces(list), e) <==>
            Active(db1, e, g) && e !in Ids(Segments(list)[0])
  {
    var segs: seq<seq<MinimalEvent>> := Segments(list);
    var rest: seq<seq<MinimalEvent>> := FurtherPieces(list);
    PiecesOfListing(db1, g, list);
    assert forall k :: 0 <= k < |rest| ==> rest[k] == segs[k + 1];
    forall e | InPieces(rest, e) ensures Active(db1, e, g) && e !in Ids(segs[0]) {
      var k, i :| 0 <= k < |rest| && 0 <= i < |rest[k]| && rest[k][i].id == e;
      assert segs[k + 1][i].id == e && Describes(db1, g, segs[k + 1]);
    }
    if list != [] {
      forall e | Active(db1, e, g) && e !in Ids(segs[0]) ensures InPieces(rest, e) {
        PiecesSplit(segs, e);
      }
    }
  }

  lemma TrimmedRefs(db: Db, id: Id, input: UpdateInput, people: seq<Person>, remaining: seq<MinimalEvent>)
    requires Refs(db) && Validate(db, input, true) == Ok(id)
    ensures Refs(Trimmed(db, id, input, people, remaining))
  {
    var db1 := MoveOut(db, id, input, people);
    MoveOutFacts(db, id, input, people);
    if remaining != [] {
      var first := Segments(remaining)[0];
      SetWindowFacts(db1, db.events[id].group, first[0].start, MaxEnd(first));
    }
  }

  lemma TrimmedFacts(db: Db, id: Id, input: UpdateInput, people: seq<Person>, remaining: seq<MinimalEvent>)
    requires Refs(db) && Validate(db, input, true) == Ok(id)
    requires IsActiveListing(MoveOut(db, id, input, people), db.events[id].group, remaining)
    ensures Refs(Trimmed(db, id, input, people, remaining))
    ensures PiecesOf(Trimmed(db, id, input, people, remaining), db.events[id].group, FurtherPieces(remaining))
  {
    TrimmedRefs(db, id, input, people, remaining);
    FurtherPiecesOf(MoveOut(db, id, input, people), Trimmed(db, id, input, people, remaining), db.events[id].group,
        remaining);
  }

  lemma MoveEventsCorrect(db: Db, id: Id, input: UpdateInput, db1: Db, db2: Db, rest: seq<seq<MinimalEvent>>, db': Db)
    requires id in db.events && db1.events == db2.events ==
             db.events[id := Apply(db.events[id], input).(group := db.nextId)]
    requires Refs(db)
    requires forall e :: InPieces(rest, e) ==> Active(db1, e, db.events[id].group)
    requires NonEmptyPieces(rest) && EventsPlaced(db2, db', rest)
    ensures MoveEvents(db, id, input, db')
  {
    assert db.events[id].group in db.groups;
    forall e | e in db.events && InPieces(rest, e)
      ensures e != id && Active(db, e, db.events[id].group) && db'.events[e] ==
              db.events[e].(group := db'.events[e].group) {
      var k, i :| 0 <= k < |rest| && 0 <= i < |rest[k]| && rest[k][i].id == e;
      assert Active(db1, e, db.events[id].group);
    }
  }

  lemma FirstPieceUnmoved(db1: Db, db2: Db, g: Id, list: seq<MinimalEvent>, db': Db)
    requires db1.events == db2.events && g in db2.groups && list != []
    requires IsActiveListing(db1, g, list)
    requires EventsPlaced(db2, db', FurtherPieces(list))
    ensures Describes(db', g, Segments(list)[0])
    ensures forall e :: Active(db', e, g) ==> e in Ids(Segments(list)[0])
  {
    var first := Segments(list)[0];
    var rest: seq<seq<MinimalEvent>> := FurtherPieces(list);
    PiecesOfListing(db1, g, list);
    FurtherPiecesOf(db1, db2, g, list);
    assert Describes(db1, g, first);
    forall i | 0 <= i < |first| ensures Active(db', first[i].id, g)
        && db'.events[first[i].id] == db1.events[first[i].id] {
      assert first[i].id in Ids(first);
    }
    forall e | InPieces(rest, e) ensures !Active(db', e, g) {
      var k, i :| 0 <= k < |rest| && 0 <= i < |rest[k]| && rest[k][i].id == e;
      assert PieceGroup(db', rest, k) !in db2.groups;
    }
  }

  lemma PiecesKeepGroups(db2: Db, g: Id, list: seq<MinimalEvent>, db': Db)
    requires list != [] && g in db2.groups
    requires Describes(db', g, Segments(list)[0])
    requires EventsPlaced(db2, db', FurtherPieces(list))
    ensures var segs := Segments(list);
            && (forall k, i :: 0 <= k < |segs| && 0 <= i < |segs[k]| ==>
                  && segs[k][i].id in db'.events && segs[k][0].id in db'.events
                  && db'.events[segs[k][i].id].group == PieceGroup(db', segs, k))
            && PieceGroup(db', segs, 0) == g
            && (forall k :: 0 < k < |segs| ==> PieceGroup(db', segs, k) !in db2.groups)
            && (forall k, l :: 0 < k < l < |segs| ==> PieceGroup(db', segs, k) != PieceGroup(db', segs, l))
  {
    var segs: seq<seq<MinimalEvent>> := Segments(list);
    assert Active(db', segs[0][0].id, g);
    assert forall i :: 0 <= i < |segs[0]| ==> Active(db', segs[0][i].id, g);
    forall k | 0 < k < |segs| ensures PieceGroup(db', segs, k) !in db2.groups {
    }
    forall k, i | 0 <= k < |segs| && 0 <= i < |segs[k]| ensures
        && segs[k][i].id in db'.events && segs[k][0].id in db'.events
        && db'.events[segs[k][i].id].group == PieceGroup(db', segs, k) {
    }
    forall k, l | 0 < k < l < |segs| ensures PieceGroup(db', segs, k) != PieceGroup(db', segs, l) {
    }
  }

  lemma MovePiecesCorrect(db: Db, id: Id, db1: Db, db2: Db, list: seq<MinimalEvent>, db': Db)
    requires id in db.events && db.events[id].group in db2.groups && db.nextId in db2.groups
    requires forall h :: h in db.groups ==> h in db2.groups
    requires db1.events == db2.events
    requires forall e :: Active(db1, e, db.events[id].group) <==> Active(db, e, db.events[id].group) && e != id
    requires IsActiveListing(db1, db.events[id].group, list)
    requires EventsPlaced(db2, db', FurtherPieces(list))
    ensures MovePieces(db, id, db', Segments(list))
  {
    var g := db.events[id].group;
    PiecesOfListing(db1, g, list);
    forall e ensures e in Ids(list) <==> Active(db1, e, g) {
      if e in Ids(list) {
        var i :| 0 <= i < |list| && list[i].id == e;
      }
    }
    if list != [] {
      FirstPieceUnmoved(db1, db2, g, list, db');
      PiecesKeepGroups(db2, g, list, db');
    }
  }

  lemma NewWindowsKept(db: Db, g: Id, db1: Db, db2: Db, list: seq<MinimalEvent>, db': Db, details: GroupDetails)
    requires g in db.groups && db1.events == db2.events && db1.groups.Keys == db2.groups.Keys
    requires forall h :: h in db1.groups && h != g ==> db1.groups[h] == db2.groups[h]
    requires IsActiveListing(db1, g, list)
    requires GroupsGrown(db, db1, details) && GroupsGrown(db2, db', details)
    requires EventsPlaced(db2, db', FurtherPieces(list))
    ensures forall h :: h in db1.groups && h !in db.groups ==> IsWindow(db', h, db'.groups[h].start, db'.groups[h].end)
  {
    FurtherPiecesOf(db1, db2, g, list);
    forall h | h in db1.groups && h !in db.groups ensures IsWindow(db', h, db'.groups[h].start, db'.groups[h].end) {
      SameEventsWindow(db1, db2, h);
      forall k, i | 0 <= k < |FurtherPieces(list)| && 0 <= i < |FurtherPieces(list)[k]|
          && FurtherPieces(list)[k][i].id in db2.events
        ensures db2.events[FurtherPieces(list)[k][i].id].group != h {
        assert InPieces(FurtherPieces(list), FurtherPieces(list)[k][i].id);
      }
      WindowKept(db2, db', h, FurtherPieces(list));
    }
  }

  lemma OldRowsKept(db: Db, g: Id, db1: Db, db2: Db, db': Db, details: GroupDetails)
    requires g in db.groups
    requires GroupsGrown(db, db1, details) && GroupsGrown(db2, db', details)
    requires db2.groups.Keys == db1.groups.Keys
             && (forall h :: h in db1.groups && h != g ==> db2.groups[h] == db1.groups[h])
    requires g in db2.groups && db2.groups[g].details == db1.groups[g].details
    requires db2.participants == db1.participants && db2.rules == db1.rules
    ensures Refs(db') && db'.rules == db.rules
    ensures forall h :: h in db.groups ==> h in db'.groups && (h != g ==> db'.groups[h] == db.groups[h])
    ensures db'.groups[g] == db2.groups[g] && db'.groups[g].details == db.groups[g].details
    ensures forall p :: p in db.participants ==> p in db'.participants && db'.participants[p] == db.participants[p]
    ensures forall h :: h in db'.groups && h !in db.groups ==> IsCopy(details, db'.groups[h].details)
    ensures forall h :: h in db'.groups && h !in db1.groups ==> IsWindow(db', h, db'.groups[h].start, db'.groups[h].end)
  {
    forall h | h in db.groups ensures h in db'.groups && (h != g ==> db'.groups[h] == db.groups[h]) {
      assert h in db1.groups && h in db2.groups;
    }
    CloneIsCopy(details);
    forall h | h in db'.groups && h !in db.groups ensures IsCopy(details, db'.groups[h].details) {
      if h in db2.groups {
        assert h in db1.groups;
      }
    }
  }

  lemma MoveGroupsCorrect(db: Db, id: Id, input: UpdateInput, people: seq<Person>, list: seq<MinimalEvent>)
    requires Refs(db) && Validate(db, input, true) == Ok(id)
    requires IsActiveListing(MoveOut(db, id, input, people), db.events[id].group, list)
    ensures MoveGroups(db, id, Move(db, id, input, people, list))
  {
    var g := db.events[id].group;
    var details := db.groups[g].details;
    var db1 := MoveOut(db, id, input, people);
    var db2 := Trimmed(db, id, input, people, list);
    var db' := Move(db, id, input, people, list);
    var rest := FurtherPieces(list);
    assert GroupsGrown(db, db1, details) by { MoveOutFacts(db, id, input, people); }
    TrimmedShape(db, id, input, people, list);
    assert GroupsGrown(db2, db', details) && EventsPlaced(db2, db', rest) by {
      TrimmedFacts(db, id, input, people, list);
      MoveViaTrimmed(db, id, input, people, list);
      AddSegmentsFacts(db2, details, people, g, rest);
    }
    OldRowsKept(db, g, db1, db2, db', details);
    NewWindowsKept(db, g, db1, db2, list, db', details);
    OldGroupWindow(db1, db2, g, list, db');
  }

  lemma OldGroupWindow(db1: Db, db2: Db, g: Id, list: seq<MinimalEvent>, db': Db)
    requires db1.events == db2.events && g in db2.groups && g in db'.groups && db'.groups[g] == db2.groups[g]
    requires IsActiveListing(db1, g, list)
    requires EventsPlaced(db2, db', FurtherPieces(list))
    requires list != [] ==>
             db2.groups[g].start == Segments(list)[0][0].start && db2.groups[g].end == MaxEnd(Segments(list)[0])
    ensures (exists e :: Active(db', e, g)) <==> list != []
    ensures list != [] ==> IsWindow(db', g, db'.groups[g].start, db'.groups[g].end)
  {
    if list == [] {
      assert forall e :: e !in Ids(list);
      assert forall e :: Active(db2, e, g) <==> Active(db1, e, g);
      OldGroupEmpty(db2, db', g);
    } else {
      FirstPieceUnmoved(db1, db2, g, list, db');
      PiecesOfListing(db1, g, list);
      PieceWindow(db', g, Segments(list)[0]);
    }
  }

  lemma SameEventsWindow(a: Db, b: Db, h: Id)
    requires a.events == b.events
    ensures forall start, end :: IsWindow(a, h, start, end) ==> IsWindow(b, h, start, end)
  {
    assert forall e :: Active(a, e, h) <==> Active(b, e, h);
  }

  lemma OldGroupEmpty(db: Db, db': Db, g: Id)
    requires EventsPlaced(db, db', []) && forall e :: !Active(db, e, g)
    ensures forall e :: !Active(db', e, g)
  {
    forall e ensures !Active(db', e, g) {
      assert !InPieces([], e);
      assert !Active(db, e, g);
    }
  }

  lemma PeopleCompose(db: Db, g: Id, people: seq<Person>, db1: Db, db2: Db, db': Db)
    requires forall who :: HeadCount(db, g, who) == multiset(people)[who]
    requires PeopleCopied(db, db1, people) && PeopleCopied(db2, db', people)
    requires db1.participants == db2.participants && forall h :: h in db1.groups <==> h in db2.groups
    requires forall h :: h in db.groups ==> h in db1.groups
    ensures forall h, who :: h in db'.groups ==>
            HeadCount(db', h, who) == HeadCount(db, if h in db.groups then h else g, who)
  {
    forall h, who | h in db'.groups ensures HeadCount(db', h, who) ==
        HeadCount(db, if h in db.groups then h else g, who) {
      SameRows(db1, db2, h, who);
    }
  }

  lemma MovePeopleCorrect(
      db: Db, id: Id, input: UpdateInput, rows: seq<Id>, people: seq<Person>, list: seq<MinimalEvent>)
    requires Refs(db) && Validate(db, input, true) == Ok(id)
    requires IsLiveListing(db, db.events[id].group, rows, people)
    requires IsActiveListing(MoveOut(db, id, input, people), db.events[id].group, list)
    ensures MovePeople(db, id, Move(db, id, input, people, list))
  {
    var g := db.events[id].group;
    var db1 := MoveOut(db, id, input, people);
    var db2 := Trimmed(db, id, input, people, list);
    var db' := Move(db, id, input, people, list);
    assert PeopleCopied(db, db1, people) by { MoveOutFacts(db, id, input, people); }
    assert PeopleCopied(db2, db', people) by {
      TrimmedFacts(db, id, input, people, list);
      MoveViaTrimmed(db, id, input, people, list);
      TrimmedShape(db, id, input, people, list);
      AddSegmentsFacts(db2, db.groups[g].details, people, g, FurtherPieces(list));
    }
    forall who ensures HeadCount(db, g, who) == multiset(people)[who] {
      ListingCounts(db, g, rows, people, who);
    }
    TrimmedShape(db, id, input, people, list);
    MoveOutShape(db, id, input, people);
    PeopleCompose(db, g, people, db1, db2, db');
  }

  lemma MoveOutShape(db: Db, id: Id, input: UpdateInput, people: seq<Person>)
    requires Refs(db) && Validate(db, input, true) == Ok(id)
    ensures var db1 := MoveOut(db, id, input, people);
            && db1.events == db.events[id := Apply(db.events[id], input).(group := db.nextId)]
            && db1.groups.Keys == db.groups.Keys + {db.nextId}
            && (forall e :: Active(db1, e, db.events[id].group) <==> Active(db, e, db.events[id].group) && e != id)
  {
    assert db.events[id].group in db.groups;
  }

  lemma TrimmedShape(db: Db, id: Id, input: UpdateInput, people: seq<Person>, list: seq<MinimalEvent>)
    requires Refs(db) && Validate(db, input, true) == Ok(id)
    ensures var db1 := MoveOut(db, id, input, people);
            var db2 := Trimmed(db, id, input, people, list);
            var g := db.events[id].group;
            && g in db1.groups && g in db2.groups
            && (forall h :: h in db1.groups && h != g ==> db2.groups[h] == db1.groups[h])
            && db2.groups[g].details == db1.groups[g].details
            && (list != [] ==>
                 db2.groups[g].start == Segments(list)[0][0].start && db2.groups[g].end == MaxEnd(Segments(list)[0]))
            && db2.events == db1.events && db2.participants == db1.participants && db2.rules == db1.rules
            && db2.groups.Keys == db1.groups.Keys
  {
  }

  /**
  A move of one event, whatever order the store lists equal rows in: no event is lost or changed
  beyond its group, what stays behind is divided by its time gaps, every group involved has its
  exact window, and the same people attend.
  */
  lemma MoveCorrect(
      db: Db, id: Id, input: UpdateInput, rows: seq<Id>, people: seq<Person>, remaining: seq<MinimalEvent>)
    requires Refs(db) && Validate(db, input, true) == Ok(id)
    requires IsLiveListing(db, db.events[id].group, rows, people)
    requires IsActiveListing(MoveOut(db, id, input, people), db.events[id].group, remaining)
    ensures MoveEvents(db, id, input, Move(db, id, input, people, remaining))
    ensures MovePieces(db, id, Move(db, id, input, people, remaining), Segments(remaining))
    ensures MoveGroups(db, id, Move(db, id, input, people, remaining))
    ensures MovePeople(db, id, Move(db, id, input, people, remaining))
    ensures ListsRemaining(db, id, remaining)
  {
    RemainingListed(db, id, input, people, remaining);
    MoveEventsAndPieces(db, id, input, people, remaining);
    MoveGroupsCorrect(db, id, input, people, remaining);
    MovePeopleCorrect(db, id, input, rows, people, remaining);
  }

  lemma RemainingListed(db: Db, id: Id, input: UpdateInput, people: seq<Person>, list: seq<MinimalEvent>)
    requires Refs(db) && Validate(db, input, true) == Ok(id)
    requires IsActiveListing(MoveOut(db, id, input, people), db.events[id].group, list)
    ensures ListsRemaining(db, id, list)
  {
    MoveOutShape(db, id, input, people);
    var db1 := MoveOut(db, id, input, people);
    forall e ensures e in Ids(list) <==> Active(db, e, db.events[id].group) && e != id {
      if e in Ids(list) {
        var i :| 0 <= i < |list| && list[i].id == e;
        assert Active(db1, list[i].id, db.events[id].group);
      }
    }
    forall i | 0 <= i < |list| ensures Active(db, list[i].id, db.events[id].group)
      && list[i].start == db.events[list[i].id].start && list[i].end == db.events[list[i].id].end {
      assert Active(db1, list[i].id, db.events[id].group);
    }
  }

  lemma MoveEventsAndPieces(db: Db, id: Id, input: UpdateInput, people: seq<Person>, list: seq<MinimalEvent>)
    requires Refs(db) && Validate(db, input, true) == Ok(id)
    requires IsActiveListing(MoveOut(db, id, input, people), db.events[id].group, list)
    ensures MoveEvents(db, id, input, Move(db, id, input, people, list))
    ensures MovePieces(db, id, Move(db, id, input, people, list), Segments(list))
  {
    var g := db.events[id].group;
    var db1 := MoveOut(db, id, input, people);
    var db2 := Trimmed(db, id, input, people, list);
    var db' := Move(db, id, input, people, list);
    var rest := FurtherPieces(list);
    assert EventsPlaced(db2, db', rest) by {
      TrimmedFacts(db, id, input, people, list);
      MoveViaTrimmed(db, id, input, people, list);
      TrimmedShape(db, id, input, people, list);
      AddSegmentsFacts(db2, db.groups[g].details, people, g, rest);
    }
    MoveOutShape(db, id, input, people);
    TrimmedShape(db, id, input, people, list);
    FurtherPiecesOf(db1, db2, g, list);
    MoveEventsCorrect(db, id, input, db1, db2, rest, db');
    MovePiecesCorrect(db, id, db1, db2, list, db');
  }
}
