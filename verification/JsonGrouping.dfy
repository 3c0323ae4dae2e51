/**
Exactly when the grouping of JSON conditions by path text means what the request means, over the rows that
documents make.
*/
module JsonGrouping {
  import opened Wrappers
  import opened JsonFilters
  import F = Filters

  /** A JSON document: objects whose leaves are scalars or whole arrays. */
  type Document = F.Tree

  /** A row has a document in each column. */
  type Row = string -> Document

  predicate Meets(row: Row, c: Condition) {
    F.At(row(c.column), c.path) == Some(c.equals)
  }

  ghost function TestOf(row: Row): Test {
    c => Meets(row, c)
  }

  // ----- Documents

  /** No value stands behind another. */
  lemma {:induction false} AtPrefix(t: Document, p: seq<string>, q: seq<string>)
    requires F.At(t, p).Some? && F.At(t, q).Some? && p <= q
    ensures p == q
    decreases |p|
  {
    if p == [] {
      assert q == [];
    } else {
      assert p == [p[0]] + p[1..] && q == [q[0]] + q[1..];
      AtPrefix(t.kids[p[0]], p[1..], q[1..]);
    }
  }

  /** No object inside the document is empty. */
  predicate Solid(t: Document)
    decreases t
  {
    t.Leaf? || forall k :: k in t.kids ==> t.kids[k] != F.EMPTY && Solid(t.kids[k])
  }

  lemma {:induction false} SomeLeaf(t: Document) returns (p: seq<string>)
    requires Solid(t) && t != F.EMPTY
    ensures F.At(t, p).Some?
    decreases t
  {
    if t.Leaf? {
      p := [];
    } else {
      assert t.kids != map[];
      var k: string :| k in t.kids;
      var q := SomeLeaf(t.kids[k]);
      p := [k] + q;
      assert p[1..] == q;
    }
  }

  predicate Related(p: seq<string>, q: seq<string>) {
    p <= q || q <= p
  }

  /** A value can be set at a path that neither leads to nor comes from the path of a value. */
  lemma {:induction false} RoomFor(t: Document, p: seq<string>)
    requires Solid(t) && forall q :: F.At(t, q).Some? ==> !Related(p, q)
    ensures F.Fits(t, p)
    decreases |p|
  {
    if p == [] {
      if t != F.EMPTY {
        var q := SomeLeaf(t);
        assert Related(p, q);
      }
    } else {
      assert F.At(t, []).Some? ==> !Related(p, []);
      if p[0] in t.kids {
        forall q | F.At(t.kids[p[0]], q).Some? ensures !Related(p[1..], q) {
          var r := [p[0]] + q;
          assert r[1..] == q && F.At(t, r).Some? && p == [p[0]] + p[1..];
          assert !Related(p, r);
        }
        RoomFor(t.kids[p[0]], p[1..]);
      }
    }
  }

  lemma {:induction false} SetSolid(t: Document, p: seq<string>, v: Value)
    requires Solid(t) && F.Fits(t, p)
    ensures Solid(F.SetPath(t, p, v)) && F.SetPath(t, p, v) != F.EMPTY
    decreases |p|
  {
    if p != [] {
      var kid := if p[0] in t.kids then t.kids[p[0]] else F.EMPTY;
      SetSolid(kid, p[1..], v);
      assert p[0] in F.SetPath(t, p, v).kids;
    }
  }

  // ----- One condition for each text

  type Pick = string -> Condition

  /** One condition for every path text named, from those listed for it. */
  ghost predicate Picks(entries: seq<Entry>, pick: Pick) {
    forall t :: Names(entries, t) ==> Lists(entries, pick(t)) && Join(pick(t).path) == t
  }

  /** In one column the path of neither leads to the other. */
  predicate Apart(c: Condition, d: Condition) {
    c.column == d.column ==> !Related(c.path, d.path)
  }

  ghost predicate Compatible(entries: seq<Entry>, pick: Pick) {
    forall t, u :: Names(entries, t) && Names(entries, u) && t != u ==> Apart(pick(t), pick(u))
  }

  /** One condition can be picked for every text so that no document would need a value behind another. */
  ghost predicate Choosable(entries: seq<Entry>) {
    exists pick :: Picks(entries, pick) && Compatible(entries, pick)
  }

  ghost function PickFrom(entries: seq<Entry>, holds: Test, t: string): Condition {
    if SomeListed(entries, t, holds) then
      var c :| Lists(entries, c) && Join(c.path) == t && holds(c);
      c
    else Condition("", [], F.Null)
  }

  /** A row that passes the clauses picks conditions that go together. */
  lemma PassedIsChoosable(entries: seq<Entry>, row: Row)
    requires Wanted(entries, TestOf(row))
    ensures Choosable(entries)
  {
    var holds := TestOf(row);
    var pick: Pick := t => PickFrom(entries, holds, t);
    forall t | Names(entries, t) ensures Lists(entries, pick(t)) && Join(pick(t).path) == t && holds(pick(t)) {
      assert SomeListed(entries, t, holds);
    }
    forall t, u | Names(entries, t) && Names(entries, u) && t != u ensures Apart(pick(t), pick(u)) {
      PickedApart(row, pick(t), pick(u));
    }
    assert Picks(entries, pick) && Compatible(entries, pick);
  }

  lemma PickedApart(row: Row, c: Condition, d: Condition)
    requires Meets(row, c) && Meets(row, d) && Join(c.path) != Join(d.path)
    ensures Apart(c, d)
  {
    if c.column == d.column && c.path <= d.path {
      AtPrefix(row(c.column), c.path, d.path);
    }
    if c.column == d.column && d.path <= c.path {
      AtPrefix(row(c.column), d.path, c.path);
    }
  }

  // ----- The document that meets exactly the conditions picked

  ghost predicate HoldsExactly(doc: Document, column: string, texts: set<string>, pick: Pick) {
    && (forall t :: t in texts && pick(t).column == column ==> F.At(doc, pick(t).path) == Some(pick(t).equals))
    && (forall q :: F.At(doc, q).Some? ==> exists t :: t in texts && pick(t).column == column && pick(t).path == q)
  }

  lemma BuildDocument(column: string, texts: set<string>, pick: Pick) returns (doc: Document)
    requires forall t, u :: t in texts && u in texts && t != u ==> Apart(pick(t), pick(u))
    ensures HoldsExactly(doc, column, texts, pick)
  {
    doc := F.EMPTY;
    var todo, done: set<string> := texts, {};
    while todo != {}
      invariant todo !! done && todo + done == texts
      invariant Solid(doc) && HoldsExactly(doc, column, done, pick)
      decreases |todo|
    {
      var t :| t in todo;
      if pick(t).column == column {
        doc := AddCondition(doc, column, done, pick, t);
      }
      todo, done := todo - {t}, done + {t};
    }
  }

  lemma AddCondition(doc: Document, column: string, done: set<string>, pick: Pick, t: string) returns (doc': Document)
    requires Solid(doc) && HoldsExactly(doc, column, done, pick) && t !in done && pick(t).column == column
    requires forall u :: u in done ==> Apart(pick(t), pick(u))
    ensures Solid(doc') && HoldsExactly(doc', column, done + {t}, pick)
  {
    var p, v := pick(t).path, pick(t).equals;
    forall q | F.At(doc, q).Some? ensures !Related(p, q) {
      var u :| u in done && pick(u).column == column && pick(u).path == q;
    }
    RoomFor(doc, p);
    SetSolid(doc, p, v);
    doc' := F.SetPath(doc, p, v);
    forall q ensures F.At(doc', q) == if q == p then Some(v) else F.At(doc, q) {
      F.AtSet(doc, p, v, q);
    }
    forall u | u in done && pick(u).column == column ensures F.At(doc', pick(u).path) == Some(pick(u).equals) {
      assert pick(u).path != p;
    }
  }

  ghost function TextsOf(entries: seq<Entry>): set<string> {
    set i, j | 0 <= i < |entries| && 0 <= j < |entries[i].filters| :: Join(entries[i].filters[j].path)
  }

  lemma TextsNamed(entries: seq<Entry>, t: string)
    ensures t in TextsOf(entries) <==> Names(entries, t)
  {
    if Names(entries, t) {
      var i :| 0 <= i < |entries| && NamesIn(entries[i].filters, t);
      var j :| 0 <= j < |entries[i].filters| && Join(entries[i].filters[j].path) == t;
    }
  }

  ghost function DocumentFor(column: string, texts: set<string>, pick: Pick): Document {
    if exists doc :: HoldsExactly(doc, column, texts, pick) then
      var doc :| HoldsExactly(doc, column, texts, pick);
      doc
    else F.EMPTY
  }

  /** A row that meets, of all listed conditions, only the ones picked. */
  lemma RowOf(entries: seq<Entry>, pick: Pick) returns (row: Row)
    requires Picks(entries, pick) && Compatible(entries, pick)
    ensures forall column :: HoldsExactly(row(column), column, TextsOf(entries), pick)
  {
    var texts := TextsOf(entries);
    row := column => DocumentFor(column, texts, pick);
    forall column ensures HoldsExactly(row(column), column, texts, pick) {
      forall t, u | t in texts && u in texts && t != u ensures Apart(pick(t), pick(u)) {
        TextsNamed(entries, t);
        TextsNamed(entries, u);
      }
      var doc := BuildDocument(column, texts, pick);
    }
  }

  // ----- The main result

  lemma MeaningIsStronger(entries: seq<Entry>, holds: Test)
    requires WantedByPath(entries, holds)
    ensures Wanted(entries, holds)
  {
    forall t | Names(entries, t) ensures SomeListed(entries, t, holds) {
      NamesByPath(entries, t);
      var k, p :| NamesPath(entries, k, p) && Join(p) == t;
      assert SomeListedFor(entries, k, p, holds);
    }
  }

  /** Two paths of one text and a pick that goes together: some row passes the clauses and misses one of the paths. */
  lemma SharedTextMisses(
      entries: seq<Entry>, pick: Pick, k: string, p: seq<string>, l: string, q: seq<string>) returns (row: Row)
    requires Picks(entries, pick) && Compatible(entries, pick)
    requires NamesPath(entries, k, p) && NamesPath(entries, l, q) && Join(p) == Join(q) && !(k == l && p == q)
    ensures Wanted(entries, TestOf(row)) && !WantedByPath(entries, TestOf(row))
  {
    row := RowOf(entries, pick);
    var texts := TextsOf(entries);
    forall t | Names(entries, t) ensures SomeListed(entries, t, TestOf(row)) {
      TextsNamed(entries, t);
      assert HoldsExactly(row(pick(t).column), pick(t).column, texts, pick);
      assert TestOf(row)(pick(t));
    }
    var picked := pick(Join(p));
    if picked.column == k && picked.path == p {
      MissesPath(entries, pick, row, l, q);
    } else {
      MissesPath(entries, pick, row, k, p);
    }
  }

  lemma MissesPath(entries: seq<Entry>, pick: Pick, row: Row, k: string, p: seq<string>)
    requires Picks(entries, pick) && HoldsExactly(row(k), k, TextsOf(entries), pick)
    requires !(pick(Join(p)).column == k && pick(Join(p)).path == p)
    ensures !SomeListedFor(entries, k, p, TestOf(row))
  {
    if F.At(row(k), p).Some? {
      var t :| t in TextsOf(entries) && pick(t).column == k && pick(t).path == p;
      TextsNamed(entries, t);
    }
  }

  /**
  Over all rows, whatever documents their columns hold: the clauses pass exactly the rows that the request
  means if and only if no two paths named, in one column or in two, have one text, or no condition can be
  picked for every text without one of them needing a value behind another, so that no row passes at all.
  */
  lemma GroupingExact(entries: seq<Entry>)
    ensures (forall row: Row :: Wanted(entries, TestOf(row)) <==> WantedByPath(entries, TestOf(row))) <==>
            TextsDiffer(entries) || !Choosable(entries)
  {
    if TextsDiffer(entries) {
      forall row: Row ensures Wanted(entries, TestOf(row)) <==> WantedByPath(entries, TestOf(row)) {
        GroupedRight(entries, TestOf(row));
      }
    } else if Choosable(entries) {
      var pick :| Picks(entries, pick) && Compatible(entries, pick);
      var k, p, l, q :| NamesPath(entries, k, p) && NamesPath(entries, l, q) && Join(p) == Join(q)
          && !(k == l && p == q);
      var row := SharedTextMisses(entries, pick, k, p, l, q);
    } else {
      forall row: Row ensures !Wanted(entries, TestOf(row)) && !WantedByPath(entries, TestOf(row)) {
        if Wanted(entries, TestOf(row)) {
          PassedIsChoosable(entries, row);
        }
        if WantedByPath(entries, TestOf(row)) {
          MeaningIsStronger(entries, TestOf(row));
        }
      }
    }
  }
}
