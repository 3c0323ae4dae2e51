/** A client's bookings: events put together by group, ordered by start, and cut into pages. */
module ClientBookings {
  import opened Wrappers
  import opened Sorting

  /** What a booking takes from its group, and what a service line takes from its event. */
  datatype Info = Info(status: string, comment: Option<string>, timeZone: string)
  datatype Snapshot = Snapshot(serviceName: string, durationMin: Option<int>, price: Option<int>, staff: Option<string>)

  datatype Event = Event(id: string, idGroup: Option<string>, start: int, end: int, info: Info, snapshot: Snapshot)

  datatype Item = Item(idEvent: string, snapshot: Snapshot)

  datatype Booking = Booking(bookingId: string, primaryEventId: string, start: int, end: int, info: Info,
      services: seq<Item>)

  function KeyOf(e: Event): string {
    if e.idGroup.Some? then e.idGroup.value else e.id
  }

  function ItemOf(e: Event): Item {
    Item(e.id, e.snapshot)
  }

  function Items(es: seq<Event>): seq<Item> {
    seq(|es|, i requires 0 <= i < |es| => ItemOf(es[i]))
  }

  // ----- Grouping

  /** The events of one booking, in the order listed. */
  function Members(es: seq<Event>, key: string): (ms: seq<Event>)
    ensures forall m :: m in ms ==> KeyOf(m) == key
  {
    if es == [] then []
    else Members(es[..|es| - 1], key) + if KeyOf(es[|es| - 1]) == key then [es[|es| - 1]] else []
  }

  /** The booking keys in the order of their first event. */
  function Keys(es: seq<Event>): seq<string> {
    if es == [] then []
    else
      var before, k := Keys(es[..|es| - 1]), KeyOf(es[|es| - 1]);
      if k in before then before else before + [k]
  }

  function Open(e: Event): Booking {
    Booking(KeyOf(e), e.id, e.start, e.end, e.info, [ItemOf(e)])
  }

  function Extend(b: Booking, e: Event): Booking {
    b.(primaryEventId := if e.start < b.start then e.id else b.primaryEventId,
       start := if e.start < b.start then e.start else b.start,
       end := if e.end > b.end then e.end else b.end,
       services := b.services + [ItemOf(e)])
  }

  function Gather(ms: seq<Event>): Booking
    requires ms != []
  {
    if |ms| == 1 then Open(ms[0]) else Extend(Gather(ms[..|ms| - 1]), ms[|ms| - 1])
  }

  lemma {:induction false} KeysExact(es: seq<Event>)
    ensures forall k :: k in Keys(es) <==> Members(es, k) != []
    ensures forall i, j :: 0 <= i < j < |Keys(es)| ==> Keys(es)[i] != Keys(es)[j]
    decreases |es|
  {
    if es != [] {
      KeysExact(es[..|es| - 1]);
    }
  }

  function AllBookings(es: seq<Event>): seq<Booking> {
    KeysExact(es);
    assert forall i :: 0 <= i < |Keys(es)| ==> Keys(es)[i] in Keys(es);
    seq(|Keys(es)|, i requires 0 <= i < |Keys(es)| => Gather(Members(es, Keys(es)[i])))
  }

  datatype Scope = Upcoming | Past

  function SortKey(scope: Scope): Booking -> int {
    if scope == Upcoming then (b: Booking) => b.start else (b: Booking) => -b.start
  }

  function Ordered(scope: Scope, bs: seq<Booking>): seq<Booking> {
    SortBy(bs, SortKey(scope))
  }

  // ----- Paging

  /** A number from a request; a finite one may have a fraction. */
  datatype Num = Missing | NotFinite | Finite(value: real)

  function Trunc(x: real): int {
    if x >= 0.0 then x.Floor else -(-x).Floor
  }

  function Clamp(n: Num, fallback: int, max: int): int {
    match n
    case Missing => if fallback > max then max else if fallback < 1 then 1 else fallback
    case NotFinite => fallback
    case Finite(x) => if Trunc(x) > max then max else if Trunc(x) < 1 then 1 else Trunc(x)
  }

  const MAX_PAGE := 999
  const MAX_ITEMS := 100

  function PerPage(scope: Scope, n: Num): (per: int)
    ensures 1 <= per <= MAX_ITEMS
  {
    Clamp(n, if scope == Upcoming then 25 else 30, MAX_ITEMS)
  }

  function TotalPages(total: nat, per: int): int
    requires per >= 1
  {
    var pages := (total + per - 1) / per;
    if pages < 1 then 1 else pages
  }

  /** JavaScript's slice: bounds past the end are cut off. */
  function Slice<T>(s: seq<T>, from: nat, until: nat): seq<T>
    requires from <= until
  {
    if from >= |s| then [] else if until >= |s| then s[from..] else s[from..until]
  }

  function SkipOf(page: int, per: int): nat
    requires page >= 1 && per >= 1
  {
    assert (page - 1) * per >= 0;
    (page - 1) * per
  }

  datatype Page = Page(rows: seq<Booking>, total: nat, page: int, itemsPerPage: int, totalPages: int)

  function CurrentPage(scope: Scope, total: nat, page: Num, per: int): (p: int)
    requires per >= 1
    ensures 1 <= p <= MAX_PAGE && p <= TotalPages(total, per)
  {
    var raw, last := Clamp(page, 1, MAX_PAGE), TotalPages(total, per);
    if scope == Upcoming then 1 else if raw > last then last else raw
  }

  function PageOf(scope: Scope, all: seq<Booking>, page: Num, itemsPerPage: Num): Page {
    var per := PerPage(scope, itemsPerPage);
    var p := CurrentPage(scope, |all|, page, per);
    Page(Slice(all, SkipOf(p, per), SkipOf(p, per) + per), |all|, p, per, TotalPages(|all|, per))
  }

  // ----- The operation

  method BuildClientBookings(scope: Scope, events: seq<Event>, page: Num, itemsPerPage: Num) returns (result: Page)
    ensures result == PageOf(scope, Ordered(scope, AllBookings(events)), page, itemsPerPage)
  {
    var values := GroupEvents(events);
    var allBookings := SortBy(values, SortKey(scope));
    result := Paginate(scope, allBookings, page, itemsPerPage);
  }

  method Paginate(scope: Scope, allBookings: seq<Booking>, page: Num, itemsPerPage: Num) returns (result: Page)
    ensures result == PageOf(scope, allBookings, page, itemsPerPage)
  {
    var effectiveItemsPerPage := PerPage(scope, itemsPerPage);
    var total := |allBookings|;
    var totalPages := TotalPages(total, effectiveItemsPerPage);
    var currentPage := Clamp(page, 1, MAX_PAGE);
    if scope == Upcoming {
      currentPage := 1;
    } else if currentPage > totalPages {
      currentPage := totalPages;
    }
    var skip: nat := if scope == Upcoming then 0 else SkipOf(currentPage, effectiveItemsPerPage);
    var rows := if scope == Upcoming then Slice(allBookings, 0, effectiveItemsPerPage)
    else Slice(allBookings, skip, skip + effectiveItemsPerPage);
    return Page(rows, total, currentPage, effectiveItemsPerPage, totalPages);
  }

  /** The map of bookings keeps the order in which its keys were first set. */
  method GroupEvents(events: seq<Event>) returns (values: seq<Booking>)
    ensures values == AllBookings(events)
  {
    var order: seq<string> := [];
    var bookings: map<string, Booking> := map[];
    for i := 0 to |events|
      invariant order == Keys(events[..i])
      invariant Grouped(bookings, events[..i])
    {
      var e := events[i];
      var bookingId := KeyOf(e);
      assert events[..i + 1] == events[..i] + [e];
      GroupedStep(bookings, events[..i], e);
      var found := if bookingId in bookings then Some(bookings[bookingId]) else None;
      if found.None? {
        order := order + [bookingId];
      }
      var booking := TakeEvent(found, e);
      bookings := bookings[bookingId := booking];
    }
    assert events[..|events|] == events;
    ValuesExact(order, bookings, events);
    values := Values(order, bookings);
  }

  /** The values of the map in the order of its keys. */
  function Values(order: seq<string>, bookings: map<string, Booking>): seq<Booking>
    requires forall k :: k in order ==> k in bookings
  {
    seq(|order|, i requires 0 <= i < |order| => (assert order[i] in order; bookings[order[i]]))
  }

  ghost predicate Grouped(bookings: map<string, Booking>, es: seq<Event>) {
    forall k :: GroupedAt(bookings, es, k)
  }

  ghost predicate GroupedAt(bookings: map<string, Booking>, es: seq<Event>, k: string) {
    (k in bookings <==> Members(es, k) != []) && (k in bookings ==> bookings[k] == Gather(Members(es, k)))
  }

  method TakeEvent(found: Option<Booking>, e: Event) returns (booking: Booking)
    ensures booking == if found.None? then Open(e) else Extend(found.value, e)
  {
    if found.None? {
      booking := Booking(KeyOf(e), e.id, e.start, e.end, e.info, []);
    } else {
      booking := found.value;
      if e.start < booking.start {
        booking := booking.(start := e.start, primaryEventId := e.id);
      }
      if e.end > booking.end {
        booking := booking.(end := e.end);
      }
    }
    booking := booking.(services := booking.services + [ItemOf(e)]);
  }

  lemma GroupedStep(bookings: map<string, Booking>, front: seq<Event>, e: Event)
    requires Grouped(bookings, front)
    ensures var k := KeyOf(e);
            && Grouped(bookings[k := if k in bookings then Extend(bookings[k], e) else Open(e)], front + [e])
            && Keys(front + [e]) == if k in bookings then Keys(front) else Keys(front) + [k]
  {
    var key, all := KeyOf(e), front + [e];
    assert GroupedAt(bookings, front, key);
    KeysPush(front, e);
    KeysExact(front);
    GatherPush(Members(front, key), e);
    var after := bookings[key := if key in bookings then Extend(bookings[key], e) else Open(e)];
    forall k ensures GroupedAt(after, all, k) {
      assert GroupedAt(bookings, front, k);
      MembersPush(front, e, k);
    }
  }

  lemma ValuesExact(order: seq<string>, bookings: map<string, Booking>, es: seq<Event>)
    requires order == Keys(es) && Grouped(bookings, es)
    ensures forall k :: k in order ==> k in bookings
    ensures Values(order, bookings) == AllBookings(es)
  {
    KeysExact(es);
    forall k | k in order ensures k in bookings && bookings[k] == Gather(Members(es, k)) {
      assert GroupedAt(bookings, es, k);
    }
    assert forall i :: 0 <= i < |order| ==> order[i] in order;
  }

  function Taken(ms: seq<Event>, e: Event): Booking {
    if ms == [] then Open(e) else Extend(Gather(ms), e)
  }

  lemma GatherPush(ms: seq<Event>, e: Event)
    ensures Gather(ms + [e]) == Taken(ms, e)
  {
    assert (ms + [e])[..|ms|] == ms;
  }

  lemma KeysPush(front: seq<Event>, e: Event)
    ensures Keys(front + [e]) == if KeyOf(e) in Keys(front) then Keys(front) else Keys(front) + [KeyOf(e)]
  {
    assert (front + [e])[..|front|] == front;
  }

  lemma MembersPush(front: seq<Event>, e: Event, k: string)
    ensures KeyOf(e) == k ==> Members(front + [e], k) == Members(front, k) + [e]
    ensures KeyOf(e) != k ==> Members(front + [e], k) == Members(front, k)
  {
    assert (front + [e])[..|front|] == front;
  }

  // ----- What a booking says

  /** A booking spans its events, and its primary event is the first of those that start it. */
  ghost predicate Spans(b: Booking, ms: seq<Event>) {
    && b.services == Items(ms)
    && (forall i :: 0 <= i < |ms| ==> b.start <= ms[i].start && ms[i].end <= b.end)
    && (exists i :: 0 <= i < |ms| && ms[i].end == b.end)
    && (exists i :: 0 <= i < |ms| && ms[i].start == b.start && ms[i].id == b.primaryEventId
         && forall j :: 0 <= j < i ==> b.start < ms[j].start)
  }

  lemma {:induction false} GatherSpans(ms: seq<Event>)
    requires ms != []
    ensures Spans(Gather(ms), ms)
    ensures Gather(ms).bookingId == KeyOf(ms[0]) && Gather(ms).info == ms[0].info
    decreases |ms|
  {
    if |ms| > 1 {
      var n := |ms| - 1;
      var front, e, b := ms[..n], ms[n], Gather(ms[..n]);
      GatherSpans(front);
      assert Items(ms) == Items(front) + [ItemOf(e)];
      var p :| 0 <= p < n && front[p].start == b.start && front[p].id == b.primaryEventId
          && forall j :: 0 <= j < p ==> b.start < front[j].start;
      var q :| 0 <= q < n && front[q].end == b.end;
      var p', q' := if e.start < b.start then n else p, if e.end > b.end then n else q;
      assert ms[q'].end == Gather(ms).end;
      assert ms[p'].start == Gather(ms).start && ms[p'].id == Gather(ms).primaryEventId;
      forall j | 0 <= j < p' ensures Gather(ms).start < ms[j].start {
        assert ms[j] == front[j];
      }
    }
  }

  /** The bookings are those of the keys that occur, one each, and each spans exactly the events of its key. */
  lemma BookingsExact(es: seq<Event>)
    ensures |AllBookings(es)| == |Keys(es)|
    ensures forall k :: 0 <= k < |Keys(es)| ==>
              AllBookings(es)[k].bookingId == Keys(es)[k] && Spans(AllBookings(es)[k], Members(es, Keys(es)[k]))
    ensures forall i, j :: 0 <= i < j < |AllBookings(es)| ==>
            AllBookings(es)[i].bookingId != AllBookings(es)[j].bookingId
    ensures forall e :: e in es ==> KeyOf(e) in Keys(es) && e in Members(es, KeyOf(e))
  {
    KeysExact(es);
    forall k | 0 <= k < |Keys(es)|
      ensures AllBookings(es)[k].bookingId == Keys(es)[k] && Spans(AllBookings(es)[k], Members(es, Keys(es)[k]))
    {
      assert Keys(es)[k] in Keys(es);
      var ms := Members(es, Keys(es)[k]);
      GatherSpans(ms);
      assert ms[0] in ms;
    }
    forall e | e in es ensures e in Members(es, KeyOf(e)) {
      IsMember(es, e);
    }
  }

  lemma {:induction false} IsMember(es: seq<Event>, e: Event)
    requires e in es
    ensures e in Members(es, KeyOf(e))
    decreases |es|
  {
    var n := |es| - 1;
    if es[n] != e {
      assert e in es[..n];
      IsMember(es[..n], e);
    }
  }

  // ----- Conservation

  function Flat(bs: seq<Booking>): seq<Item> {
    if bs == [] then [] else bs[0].services + Flat(bs[1..])
  }

  function FlatOver(es: seq<Event>, keys: seq<string>): seq<Item> {
    if keys == [] then [] else Items(Members(es, keys[0])) + FlatOver(es, keys[1..])
  }

  lemma ItemsStep(front: seq<Event>, e: Event, k: string)
    ensures multiset(Items(Members(front + [e], k))) ==
            multiset(Items(Members(front, k))) + if KeyOf(e) == k then multiset{ItemOf(e)} else multiset{}
  {
    MembersPush(front, e, k);
    if KeyOf(e) == k {
      ItemsPush(Members(front, k), e);
    }
  }

  lemma FlatOverFirst(es: seq<Event>, keys: seq<string>)
    requires keys != []
    ensures multiset(FlatOver(es, keys)) == multiset(Items(Members(es, keys[0]))) + multiset(FlatOver(es, keys[1..]))
  {
  }

  /** The line of an event is counted under one of distinct keys. */
  function LineUnder(e: Event, keys: seq<string>): multiset<Item> {
    if KeyOf(e) in keys then multiset{ItemOf(e)} else multiset{}
  }

  lemma LineUnderFirst(e: Event, keys: seq<string>)
    requires keys != [] && keys[0] !in keys[1..]
    ensures LineUnder(e, keys) == (if KeyOf(e) == keys[0] then multiset{ItemOf(e)} else multiset{})
            + LineUnder(e, keys[1..])
  {
    assert KeyOf(e) in keys <==> KeyOf(e) == keys[0] || KeyOf(e) in keys[1..];
  }

  /** One more event adds its line under its own key, once. */
  lemma {:induction false} FlatOverPush(front: seq<Event>, e: Event, keys: seq<string>)
    requires forall a, b :: 0 <= a < b < |keys| ==> keys[a] != keys[b]
    ensures multiset(FlatOver(front + [e], keys)) == multiset(FlatOver(front, keys)) + LineUnder(e, keys)
    decreases |keys|
  {
    if keys != [] {
      FlatOverFirst(front + [e], keys);
      FlatOverFirst(front, keys);
      ItemsStep(front, e, keys[0]);
      FlatOverPush(front, e, keys[1..]);
      LineUnderFirst(e, keys);
    }
  }

  lemma {:induction false} FlatOverAppend(es: seq<Event>, keys: seq<string>, k: string)
    ensures FlatOver(es, keys + [k]) == FlatOver(es, keys) + Items(Members(es, k))
    decreases |keys|
  {
    var all := keys + [k];
    if keys == [] {
      assert all[1..] == [];
    } else {
      assert all[1..] == keys[1..] + [k];
      FlatOverAppend(es, keys[1..], k);
    }
  }

  ghost predicate Conserved(es: seq<Event>) {
    multiset(FlatOver(es, Keys(es))) == multiset(Items(es))
  }

  lemma OnlyMember(front: seq<Event>, e: Event)
    requires Members(front, KeyOf(e)) == []
    ensures Items(Members(front + [e], KeyOf(e))) == [ItemOf(e)]
  {
    MembersPush(front, e, KeyOf(e));
    assert Members(front + [e], KeyOf(e)) == [e];
    OneItem([e], e);
  }

  lemma OneItem(es: seq<Event>, e: Event)
    requires es == [e]
    ensures Items(es) == [ItemOf(e)]
  {
    assert es[0] == e;
  }

  /** The first event of a new key is its only line. */
  lemma NewKeyLine(front: seq<Event>, e: Event, keys: seq<string>)
    requires KeyOf(e) !in keys && Members(front, KeyOf(e)) == []
    ensures FlatOver(front + [e], keys + [KeyOf(e)]) == FlatOver(front + [e], keys) + [ItemOf(e)]
  {
    FlatOverAppend(front + [e], keys, KeyOf(e));
    OnlyMember(front, e);
  }

  lemma ConservedStep(front: seq<Event>, e: Event)
    requires Conserved(front)
    ensures Conserved(front + [e])
  {
    var keys := Keys(front);
    KeysPush(front, e);
    KeysExact(front);
    FlatOverPush(front, e, keys);
    ItemsPush(front, e);
    if KeyOf(e) !in keys {
      NewKeyLine(front, e, keys);
    }
  }

  lemma {:induction false} FlatOverAll(es: seq<Event>)
    ensures Conserved(es)
    decreases |es|
  {
    if es == [] {
      assert Keys(es) == [] && Items(es) == [];
    } else {
      var n := |es| - 1;
      FlatOverAll(es[..n]);
      ConservedStep(es[..n], es[n]);
      assert es[..n] + [es[n]] == es;
    }
  }

  lemma ItemsPush(es: seq<Event>, e: Event)
    ensures multiset(Items(es + [e])) == multiset(Items(es)) + multiset{ItemOf(e)}
  {
    assert Items(es + [e]) == Items(es) + [ItemOf(e)];
  }

  lemma {:induction false} FlatIsFlatOver(es: seq<Event>, keys: seq<string>, bs: seq<Booking>)
    requires |bs| == |keys| && forall k :: 0 <= k < |keys| ==> bs[k].services == Items(Members(es, keys[k]))
    ensures Flat(bs) == FlatOver(es, keys)
    decreases |keys|
  {
    if keys != [] {
      FlatIsFlatOver(es, keys[1..], bs[1..]);
    }
  }

  lemma {:induction false} FlatInsert(b: Booking, bs: seq<Booking>, key: Booking -> int)
    ensures multiset(Flat(Insert(b, bs, key))) == multiset(b.services) + multiset(Flat(bs))
  {
    if bs == [] || key(b) <= key(bs[0]) {
      assert ([b] + bs)[1..] == bs;
    } else {
      FlatInsert(b, bs[1..], key);
      assert ([bs[0]] + Insert(b, bs[1..], key))[1..] == Insert(b, bs[1..], key);
    }
  }

  lemma {:induction false} FlatSort(bs: seq<Booking>, key: Booking -> int)
    ensures multiset(Flat(SortBy(bs, key))) == multiset(Flat(bs))
  {
    if bs != [] {
      FlatSort(bs[1..], key);
      FlatInsert(bs[0], SortBy(bs[1..], key), key);
    }
  }

  /** The ordered bookings list the line of every event exactly once, and come by start, upwards or downwards. */
  lemma BookingsConserve(scope: Scope, es: seq<Event>)
    ensures multiset(Flat(Ordered(scope, AllBookings(es)))) == multiset(Items(es))
    ensures multiset(Ordered(scope, AllBookings(es))) == multiset(AllBookings(es))
    ensures forall i, j :: 0 <= i < j < |Keys(es)| ==>
              var bs := Ordered(scope, AllBookings(es));
              if scope == Upcoming then bs[i].start <= bs[j].start else bs[j].start <= bs[i].start
  {
    BookingsExact(es);
    FlatIsFlatOver(es, Keys(es), AllBookings(es));
    FlatOverAll(es);
    FlatSort(AllBookings(es), SortKey(scope));
    SortByCorrect(AllBookings(es), SortKey(scope));
    var bs, key := Ordered(scope, AllBookings(es)), SortKey(scope);
    forall i, j | 0 <= i < j < |Keys(es)|
      ensures if scope == Upcoming then bs[i].start <= bs[j].start else bs[j].start <= bs[i].start
    {
      assert key(bs[i]) <= key(bs[j]);
    }
  }

  // ----- Pages end to end

  /** Pages 1 to n, one after the other. */
  function EndToEnd<T>(pages: nat -> seq<T>, n: nat): seq<T> {
    if n == 0 then [] else EndToEnd(pages, n - 1) + pages(n)
  }

  /** The rows of the page asked for by each number. */
  function PageRows(scope: Scope, all: seq<Booking>, itemsPerPage: Num): nat -> seq<Booking> {
    n => PageOf(scope, all, Finite(n as real), itemsPerPage).rows
  }

  function FirstPages(scope: Scope, all: seq<Booking>, itemsPerPage: Num, n: nat): seq<Booking> {
    EndToEnd(PageRows(scope, all, itemsPerPage), n)
  }

  lemma WholePages(total: nat, per: int, n: int)
    requires per >= 1 && n >= 0
    ensures n < TotalPages(total, per) ==> SkipOf(n + 1, per) <= total
    ensures n >= TotalPages(total, per) ==> SkipOf(n + 1, per) >= total
    ensures TotalPages(total, per) >= 1
  {
    var pages := (total + per - 1) / per;
    assert pages * per + (total + per - 1) % per == total + per - 1;
    if n < TotalPages(total, per) {
      if n > 0 {
        MultipleOrder(n, pages - 1, per);
        assert (pages - 1) * per == pages * per - per;
      }
    } else {
      MultipleOrder(pages, n, per);
    }
  }

  lemma MultipleOrder(a: int, b: int, per: int)
    requires a <= b && per >= 1
    ensures a * per <= b * per
  {
  }

  lemma RowsOfPage(all: seq<Booking>, itemsPerPage: Num, n: nat)
    requires 1 <= n <= MAX_PAGE && n <= TotalPages(|all|, PerPage(Past, itemsPerPage))
    ensures var per := PerPage(Past, itemsPerPage);
            PageRows(Past, all, itemsPerPage)(n) == Slice(all, SkipOf(n, per), SkipOf(n, per) + per)
  {
    assert Trunc(n as real) == n;
  }

  lemma {:induction false} SlicesEndToEnd<T>(all: seq<T>, pages: nat -> seq<T>, per: int, n: nat)
    requires per >= 1
    requires forall m :: 1 <= m <= n ==>
             SkipOf(m, per) <= |all| && pages(m) == Slice(all, SkipOf(m, per), SkipOf(m, per) + per)
    ensures var reach := SkipOf(n + 1, per); EndToEnd(pages, n) == if reach <= |all| then all[..reach] else all
    decreases n
  {
    SkipStep(n, per);
    if n > 0 {
      SlicesEndToEnd(all, pages, per, n - 1);
      SliceExtends(all, SkipOf(n, per), SkipOf(n + 1, per));
    }
  }

  /** The first pages of past bookings are the bookings in order, as far as they reach. */
  lemma PagesAreAPrefix(all: seq<Booking>, itemsPerPage: Num, n: nat)
    requires n <= MAX_PAGE && n <= TotalPages(|all|, PerPage(Past, itemsPerPage))
    ensures var reach := SkipOf(n + 1, PerPage(Past, itemsPerPage));
            FirstPages(Past, all, itemsPerPage, n) == if reach <= |all| then all[..reach] else all
  {
    var per, pages := PerPage(Past, itemsPerPage), PageRows(Past, all, itemsPerPage);
    forall m: nat | 1 <= m <= n
      ensures SkipOf(m, per) <= |all| && pages(m) == Slice(all, SkipOf(m, per), SkipOf(m, per) + per)
    {
      WholePages(|all|, per, m - 1);
      RowsOfPage(all, itemsPerPage, m);
    }
    SlicesEndToEnd(all, pages, per, n);
  }

  lemma SkipStep(n: nat, per: int)
    requires per >= 1
    ensures SkipOf(n + 1, per) == if n == 0 then 0 else SkipOf(n, per) + per
  {
    assert n * per == (n - 1) * per + per;
  }

  lemma SliceExtends<T>(s: seq<T>, from: nat, until: nat)
    requires from <= until && from <= |s|
    ensures s[..from] + Slice(s, from, until) == if until <= |s| then s[..until] else s
  {
  }

  /**
  All past bookings can be reached page by page, each once and in order, exactly when there are at most 999
  pages.
  */
  lemma PastPagesExact(all: seq<Booking>, itemsPerPage: Num)
    ensures var pages := TotalPages(|all|, PerPage(Past, itemsPerPage));
            var reachable := if pages <= MAX_PAGE then pages else MAX_PAGE;
            && reachable >= 1
            && (FirstPages(Past, all, itemsPerPage, reachable) == all <==> pages <= MAX_PAGE)
            && FirstPages(Past, all, itemsPerPage, reachable) <= all
  {
    var per := PerPage(Past, itemsPerPage);
    var pages := TotalPages(|all|, per);
    WholePages(|all|, per, pages);
    if pages <= MAX_PAGE {
      PagesAreAPrefix(all, itemsPerPage, pages);
      if SkipOf(pages + 1, per) == |all| {
        assert all[..|all|] == all;
      }
    } else {
      PagesAreAPrefix(all, itemsPerPage, MAX_PAGE);
      Unreached(|all|, per);
    }
  }

  lemma Unreached(total: nat, per: int)
    requires per >= 1 && TotalPages(total, per) > MAX_PAGE
    ensures SkipOf(MAX_PAGE + 1, per) < total
  {
    var pages := (total + per - 1) / per;
    assert pages * per + (total + per - 1) % per == total + per - 1;
    MultipleOrder(MAX_PAGE + 1, pages, per);
  }

  /**
  A page holds at most a hundred rows, no number leads past the last page, and upcoming bookings have one
  page only.
  */
  lemma PageBounds(scope: Scope, all: seq<Booking>, page: Num, itemsPerPage: Num)
    ensures var r := PageOf(scope, all, page, itemsPerPage);
            && |r.rows| <= r.itemsPerPage <= MAX_ITEMS
            && (all != [] ==> r.rows != [])
            && (scope == Upcoming ==> r.rows == PageOf(scope, all, Missing, itemsPerPage).rows)
  {
    var per := PerPage(scope, itemsPerPage);
    var p := CurrentPage(scope, |all|, page, per);
    SliceBounds(all, SkipOf(p, per), SkipOf(p, per) + per);
    if all != [] {
      StartsInside(|all|, per, p);
    }
  }

  lemma SliceBounds<T>(s: seq<T>, from: nat, until: nat)
    requires from <= until
    ensures |Slice(s, from, until)| <= until - from
    ensures from < |s| && from < until ==> Slice(s, from, until) != []
  {
  }

  lemma StartsInside(total: nat, per: int, p: int)
    requires total >= 1 && per >= 1 && 1 <= p <= TotalPages(total, per)
    ensures SkipOf(p, per) < total
  {
    var pages := (total + per - 1) / per;
    assert pages * per + (total + per - 1) % per == total + per - 1;
    if pages >= 1 {
      MultipleOrder(p - 1, pages - 1, per);
      assert (pages - 1) * per == pages * per - per;
    }
  }

  // ----- Bookings and pages, told from the events and the request

  /** An event belongs to the booking of its group, or to one of its own. */
  function BookingId(e: Event): string {
    match e.idGroup
    case Some(g) => g
    case None => e.id
  }

  /** `b` is the booking of the events with its id: it lists just their lines and lies just over their times. */
  ghost predicate Tells(b: Booking, es: seq<Event>) {
    && (forall e :: e in es && BookingId(e) == b.bookingId ==>
          Item(e.id, e.snapshot) in b.services && b.start <= e.start && e.end <= b.end)
    && (forall s :: s in b.services ==>
         exists e :: e in es && BookingId(e) == b.bookingId && s == Item(e.id, e.snapshot))
    && (exists e :: e in es && BookingId(e) == b.bookingId && e.id == b.primaryEventId && e.start == b.start)
    && (exists e :: e in es && BookingId(e) == b.bookingId && e.end == b.end)
    && (exists e :: e in es && BookingId(e) == b.bookingId && e.info == b.info)
  }

  lemma {:induction false} MembersAre(es: seq<Event>, k: string)
    ensures forall e :: e in Members(es, k) <==> e in es && BookingId(e) == k
    decreases |es|
  {
    if es != [] {
      var n := |es| - 1;
      MembersAre(es[..n], k);
      assert es == es[..n] + [es[n]];
    }
  }

  lemma LineOf(ms: seq<Event>, e: Event)
    requires e in ms
    ensures Item(e.id, e.snapshot) in Items(ms)
  {
    var i :| 0 <= i < |ms| && ms[i] == e;
    assert Items(ms)[i] == Item(e.id, e.snapshot);
  }

  lemma EventOf(ms: seq<Event>, s: Item) returns (e: Event)
    requires s in Items(ms)
    ensures e in ms && s == Item(e.id, e.snapshot)
  {
    var i :| 0 <= i < |ms| && Items(ms)[i] == s;
    e := ms[i];
  }

  lemma MembersTell(b: Booking, ms: seq<Event>, es: seq<Event>)
    requires ms != [] && Spans(b, ms) && b.info == ms[0].info
    requires forall e :: e in ms <==> e in es && BookingId(e) == b.bookingId
    ensures Tells(b, es)
  {
    forall e | e in es && BookingId(e) == b.bookingId
      ensures Item(e.id, e.snapshot) in b.services && b.start <= e.start && e.end <= b.end {
      LineOf(ms, e);
    }
    forall s | s in b.services
      ensures exists e :: e in es && BookingId(e) == b.bookingId && s == Item(e.id, e.snapshot)
    {
      var e := EventOf(ms, s);
    }
    var p :| 0 <= p < |ms| && ms[p].start == b.start && ms[p].id == b.primaryEventId;
    var q :| 0 <= q < |ms| && ms[q].end == b.end;
    assert ms[p] in ms && ms[q] in ms && ms[0] in ms;
  }

  /** Every event is in the one booking with its id, and every booking tells of its events and no others. */
  lemma BookingsTold(es: seq<Event>)
    ensures forall b :: b in AllBookings(es) ==> Tells(b, es)
    ensures forall e :: e in es ==> exists b :: b in AllBookings(es) && b.bookingId == BookingId(e)
    ensures forall i, j :: 0 <= i < j < |AllBookings(es)| ==>
            AllBookings(es)[i].bookingId != AllBookings(es)[j].bookingId
  {
    BookingsExact(es);
    KeysExact(es);
    forall b | b in AllBookings(es) ensures Tells(b, es) {
      var k :| 0 <= k < |Keys(es)| && AllBookings(es)[k] == b;
      var ms := Members(es, Keys(es)[k]);
      assert Keys(es)[k] in Keys(es) && b == Gather(ms);
      GatherSpans(ms);
      MembersAre(es, Keys(es)[k]);
      MembersTell(b, ms, es);
    }
    forall e | e in es ensures exists b :: b in AllBookings(es) && b.bookingId == BookingId(e) {
      var k :| 0 <= k < |Keys(es)| && Keys(es)[k] == KeyOf(e);
      assert AllBookings(es)[k] in AllBookings(es);
    }
  }

  /** What a number asks for between 1 and `max`: its whole part, or the nearest of the two ends. */
  predicate Asks(n: Num, fallback: int, max: int, got: int) {
    match n
    case Missing => got == fallback
    case NotFinite => got == fallback
    case Finite(x) =>
      && 1 <= got <= max && (x < 2.0 ==> got == 1) && (x >= max as real ==> got == max)
      && (1.0 <= x < max as real ==> got as real <= x < got as real + 1.0)
  }

  lemma ClampExact(n: Num, fallback: int, max: int)
    requires 1 <= fallback <= max && max >= 2
    ensures Asks(n, fallback, max, Clamp(n, fallback, max))
  {
  }

  /** `pages` is the least number of pages, and at least one, that holds all the rows. */
  lemma TotalExact(total: nat, per: int)
    requires per >= 1
    ensures var pages := TotalPages(total, per);
            pages >= 1 && total <= pages * per && (pages > 1 ==> (pages - 1) * per < total)
  {
    var pages := (total + per - 1) / per;
    assert pages * per + (total + per - 1) % per == total + per - 1;
    assert (pages - 1) * per == pages * per - per;
    if pages < 1 {
      MultipleOrder(pages, 0, per);
    }
  }

  /**
  A page says how many rows there are in all and on a page, which page of how many it is, and holds the rows
  from its first place on. Upcoming bookings have 25 to a page and only the first; past ones have 30 and
  the page asked for, or the last there is.
  */
  lemma PageExact(scope: Scope, all: seq<Booking>, page: Num, itemsPerPage: Num)
    ensures var r := PageOf(scope, all, page, itemsPerPage);
            && r.total == |all| && 1 <= r.itemsPerPage && 1 <= r.page <= r.totalPages
            && Asks(itemsPerPage, if scope == Upcoming then 25 else 30, 100, r.itemsPerPage)
            && r.total <= r.totalPages * r.itemsPerPage
            && (r.totalPages > 1 ==> (r.totalPages - 1) * r.itemsPerPage < r.total)
            && (scope == Upcoming ==> r.page == 1)
            && (scope == Past ==>
                 exists asked: int ::
                   Asks(page, 1, 999, asked) && r.page == if asked <= r.totalPages then asked else r.totalPages)
            && var first := (r.page - 1) * r.itemsPerPage;
               && (forall i :: 0 <= i < |r.rows| ==> 0 <= first + i < |all| && r.rows[i] == all[first + i])
               && |r.rows| == (if |all| - first <= r.itemsPerPage then Max(0, |all| - first) else r.itemsPerPage)
  {
    var per := PerPage(scope, itemsPerPage);
    ClampExact(itemsPerPage, if scope == Upcoming then 25 else 30, 100);
    ClampExact(page, 1, 999);
    TotalExact(|all|, per);
    SliceExact(all, SkipOf(CurrentPage(scope, |all|, page, per), per), per);
  }

  function Max(a: int, b: int): int { if a < b then b else a }

  lemma SliceExact<T>(s: seq<T>, from: nat, per: nat)
    ensures var rows := Slice(s, from, from + per);
            && (forall i :: 0 <= i < |rows| ==> from + i < |s| && rows[i] == s[from + i])
            && |rows| == if |s| - from <= per then Max(0, |s| - from) else per
  {
  }
}
