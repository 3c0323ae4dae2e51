/**
Filters on JSON columns: the conditions listed for one path text, in whatever columns, are alternatives, and
every text must be met.
*/
module JsonFilters {
  import F = Filters

  type Value = F.Value

  datatype Filter = Filter(path: seq<string>, value: Value)

  /** The filters of one column. */
  datatype Entry = Entry(column: string, filters: seq<Filter>)

  datatype Condition = Condition(column: string, path: seq<string>, equals: Value)

  datatype Clause = One(condition: Condition) | AnyOf(conditions: seq<Condition>)

  /** A single value counts as a list of one. */
  function Values(f: Filter): seq<Value> {
    if f.value.Many? then f.value.items else [f.value]
  }

  /** The segments with dots between them. */
  function Join(path: seq<string>): string {
    if path == [] then "" else if |path| == 1 then path[0] else path[0] + "." + Join(path[1..])
  }

  /** A path of one segment is its text, and two paths end to end have their texts with a dot between. */
  lemma {:induction false} JoinExact(p: seq<string>, q: seq<string>)
    requires p != [] && q != []
    ensures |p| == 1 ==> Join(p) == p[0]
    ensures Join(p + q) == Join(p) + "." + Join(q)
    decreases |p|
  {
    if |p| == 1 {
      assert (p + q)[1..] == q;
    } else {
      assert (p + q)[1..] == p[1..] + q;
      JoinExact(p[1..], q);
    }
  }

  /** A list gives each of its values, any other value itself. */
  predicate Gives(value: Value, v: Value) {
    match value
    case Many(items) => v in items
    case _ => v == value
  }

  /** The `j`-th filter of the `i`-th entry is on the path and in the column of the condition, and gives its value. */
  predicate ListedAt(entries: seq<Entry>, i: int, j: int, c: Condition) {
    && 0 <= i < |entries| && 0 <= j < |entries[i].filters|
    && entries[i].column == c.column && entries[i].filters[j].path == c.path
    && Gives(entries[i].filters[j].value, c.equals)
  }

  lemma ListedExact(entries: seq<Entry>, c: Condition)
    ensures Lists(entries, c) <==> exists i, j :: ListedAt(entries, i, j, c)
  {
    forall f: Filter ensures c.equals in Values(f) <==> Gives(f.value, c.equals) {
    }
    if i, j :| ListedAt(entries, i, j, c) {
      assert ListsIn(entries[i].column, entries[i].filters, c);
    }
    if i :| 0 <= i < |entries| && ListsIn(entries[i].column, entries[i].filters, c) {
      var fs := entries[i].filters;
      var j :| 0 <= j < |fs| && fs[j].path == c.path && c.equals in Values(fs[j]);
      assert ListedAt(entries, i, j, c);
    }
  }

  // ----- What the filters name and list

  ghost predicate NamesIn(filters: seq<Filter>, text: string) {
    exists j :: 0 <= j < |filters| && Join(filters[j].path) == text
  }

  ghost predicate ListsIn(column: string, filters: seq<Filter>, c: Condition) {
    c.column == column && exists j :: 0 <= j < |filters| && filters[j].path == c.path && c.equals in Values(filters[j])
  }

  ghost predicate Names(entries: seq<Entry>, text: string) {
    exists i :: 0 <= i < |entries| && NamesIn(entries[i].filters, text)
  }

  ghost predicate Lists(entries: seq<Entry>, c: Condition) {
    exists i :: 0 <= i < |entries| && ListsIn(entries[i].column, entries[i].filters, c)
  }

  type Groups = map<string, seq<Condition>>

  /** The groups hold, under each path text named so far, the conditions listed so far for such a path. */
  ghost predicate Collected(groups: Groups, entries: seq<Entry>) {
    && (forall t :: t in groups <==> Names(entries, t))
    && (forall t, c :: t in groups ==> (c in groups[t] <==> Lists(entries, c) && Join(c.path) == t))
  }

  // ----- The compilation

  method AddFilter(groups: Groups, column: string, f: Filter) returns (groups': Groups)
    ensures groups'.Keys == groups.Keys + {Join(f.path)}
    ensures forall t, c :: t in groups' ==>
              (c in groups'[t] <==>
               || (t in groups && c in groups[t])
               || (t == Join(f.path) && c.column == column && c.path == f.path && c.equals in Values(f)))
  {
    var key := Join(f.path);
    var conditions: seq<Condition> := if key in groups then groups[key] else [];
    var values := Values(f);
    for i := 0 to |values|
      invariant forall c :: c in conditions <==>
                  || (key in groups && c in groups[key])
                  || (c.column == column && c.path == f.path && c.equals in values[..i])
    {
      conditions := conditions + [Condition(column, f.path, values[i])];
      assert values[..i + 1] == values[..i] + [values[i]];
    }
    assert values[..|values|] == values;
    groups' := groups[key := conditions];
  }

  method AddEntry(groups: Groups, entry: Entry) returns (groups': Groups)
    ensures forall t :: t in groups' <==> t in groups || NamesIn(entry.filters, t)
    ensures forall t, c :: t in groups' ==>
              (c in groups'[t] <==>
               (t in groups && c in groups[t]) || (ListsIn(entry.column, entry.filters, c) && Join(c.path) == t))
  {
    var fs := entry.filters;
    groups' := groups;
    for j := 0 to |fs|
      invariant forall t :: t in groups' <==> t in groups || NamesIn(fs[..j], t)
      invariant forall t, c :: t in groups' ==>
                  (c in groups'[t] <==>
                   (t in groups && c in groups[t]) || (ListsIn(entry.column, fs[..j], c) && Join(c.path) == t))
    {
      groups' := AddFilter(groups', entry.column, fs[j]);
      forall t ensures NamesIn(fs[..j + 1], t) <==> NamesIn(fs[..j], t) || t == Join(fs[j].path) {
        NamesPush(fs, j, t);
      }
      forall c ensures ListsIn(entry.column, fs[..j + 1], c) <==>
                         ListsIn(entry.column, fs[..j], c)
                         || (c.column == entry.column && c.path == fs[j].path && c.equals in Values(fs[j]))
      {
        ListsPush(entry.column, fs, j, c);
      }
    }
    assert fs[..|fs|] == fs;
  }

  lemma NamesPush(fs: seq<Filter>, j: nat, t: string)
    requires j < |fs|
    ensures NamesIn(fs[..j + 1], t) <==> NamesIn(fs[..j], t) || t == Join(fs[j].path)
  {
    assert forall i :: 0 <= i < j ==> fs[..j + 1][i] == fs[..j][i];
    assert fs[..j + 1][j] == fs[j];
    if NamesIn(fs[..j], t) {
      var i :| 0 <= i < j && Join(fs[..j][i].path) == t;
      assert Join(fs[..j + 1][i].path) == t;
    }
  }

  lemma ListsPush(column: string, fs: seq<Filter>, j: nat, c: Condition)
    requires j < |fs|
    ensures ListsIn(column, fs[..j + 1], c) <==>
            ListsIn(column, fs[..j], c) || (c.column == column && c.path == fs[j].path && c.equals in Values(fs[j]))
  {
    assert forall i :: 0 <= i < j ==> fs[..j + 1][i] == fs[..j][i];
    assert fs[..j + 1][j] == fs[j];
    if ListsIn(column, fs[..j], c) {
      var i :| 0 <= i < j && fs[..j][i].path == c.path && c.equals in Values(fs[..j][i]);
      assert fs[..j + 1][i].path == c.path;
    }
  }

  method Collect(entries: seq<Entry>) returns (groups: Groups)
    ensures Collected(groups, entries)
  {
    groups := map[];
    for i := 0 to |entries|
      invariant Collected(groups, entries[..i])
    {
      ghost var before := groups;
      groups := AddEntry(groups, entries[i]);
      CollectedPush(before, groups, entries, i);
    }
    assert entries[..|entries|] == entries;
  }

  lemma CollectedPush(groups: Groups, groups': Groups, entries: seq<Entry>, i: nat)
    requires i < |entries| && Collected(groups, entries[..i])
    requires forall t :: t in groups' <==> t in groups || NamesIn(entries[i].filters, t)
    requires forall t, c :: t in groups' ==>
               (c in groups'[t] <==>
                (t in groups && c in groups[t])
                    || (ListsIn(entries[i].column, entries[i].filters, c) && Join(c.path) == t))
    ensures Collected(groups', entries[..i + 1])
  {
    EntriesPush(entries, i);
    forall t, c | t in groups' ensures c in groups'[t] <==> Lists(entries[..i + 1], c) && Join(c.path) == t {
      if Lists(entries[..i], c) {
        ListedNamed(entries[..i], c);
      }
    }
  }

  lemma ListedNamed(entries: seq<Entry>, c: Condition)
    requires Lists(entries, c)
    ensures Names(entries, Join(c.path))
  {
    var i :| 0 <= i < |entries| && ListsIn(entries[i].column, entries[i].filters, c);
    assert NamesIn(entries[i].filters, Join(c.path));
  }

  lemma EntriesPush(entries: seq<Entry>, i: nat)
    requires i < |entries|
    ensures forall t :: Names(entries[..i + 1], t) <==> Names(entries[..i], t) || NamesIn(entries[i].filters, t)
    ensures forall c :: Lists(entries[..i + 1], c) <==>
            Lists(entries[..i], c) || ListsIn(entries[i].column, entries[i].filters, c)
  {
    var front, more := entries[..i], entries[..i + 1];
    assert more == front + [entries[i]];
    forall t ensures Names(more, t) <==> Names(front, t) || NamesIn(entries[i].filters, t) {
      assert more[i] == entries[i];
      if k :| 0 <= k < |front| && NamesIn(front[k].filters, t) {
        assert NamesIn(more[k].filters, t);
      }
    }
    forall c ensures Lists(more, c) <==> Lists(front, c) || ListsIn(entries[i].column, entries[i].filters, c) {
      assert more[i] == entries[i];
      if k :| 0 <= k < |front| && ListsIn(front[k].column, front[k].filters, c) {
        assert ListsIn(more[k].column, more[k].filters, c);
      }
    }
  }

  // ----- Which rows pass

  /** `holds` says of a condition whether the row meets it. */
  type Test = Condition -> bool

  ghost predicate ClauseHolds(clause: Clause, holds: Test) {
    match clause
    case One(c) => holds(c)
    case AnyOf(cs) => exists c :: c in cs && holds(c)
  }

  ghost predicate Passes(clauses: seq<Clause>, holds: Test) {
    forall k :: 0 <= k < |clauses| ==> ClauseHolds(clauses[k], holds)
  }

  ghost predicate SomeListed(entries: seq<Entry>, text: string, holds: Test) {
    exists c :: Lists(entries, c) && Join(c.path) == text && holds(c)
  }

  /** For every path text named, one of the conditions listed under it holds. */
  ghost predicate Wanted(entries: seq<Entry>, holds: Test) {
    forall t :: Names(entries, t) ==> SomeListed(entries, t, holds)
  }

  function ClauseOf(conditions: seq<Condition>): Clause {
    if |conditions| == 1 then One(conditions[0]) else AnyOf(conditions)
  }

  ghost predicate IsClause(groups: Groups, clause: Clause) {
    exists t :: t in groups && clause == ClauseOf(groups[t])
  }

  /** The clauses pass exactly the rows that meet, for every path text named, one of the conditions listed for it. */
  method ProcessFiltersJson(entries: seq<Entry>) returns (clauses: seq<Clause>)
    ensures forall holds: Test :: Passes(clauses, holds) <==> Wanted(entries, holds)
  {
    var groups := Collect(entries);
    clauses := [];
    var todo: set<string> := groups.Keys;
    while todo != {}
      invariant todo <= groups.Keys
      invariant forall k :: 0 <= k < |clauses| ==> IsClause(groups, clauses[k])
      invariant forall t :: t in groups && t !in todo ==> ClauseOf(groups[t]) in clauses
      decreases |todo|
    {
      var t: string :| t in todo;
      var conditions := groups[t];
      if |conditions| == 1 {
        clauses := clauses + [One(conditions[0])];
      } else {
        clauses := clauses + [AnyOf(conditions)];
      }
      assert clauses[|clauses| - 1] == ClauseOf(groups[t]);
      todo := todo - {t};
    }
    forall holds: Test ensures Passes(clauses, holds) <==> Wanted(entries, holds) {
      PassesIsWanted(groups, entries, clauses, holds);
    }
  }

  lemma ClauseIsSomeListed(groups: Groups, entries: seq<Entry>, t: string, holds: Test)
    requires Collected(groups, entries) && t in groups
    ensures ClauseHolds(ClauseOf(groups[t]), holds) <==> SomeListed(entries, t, holds)
  {
    assert ClauseHolds(ClauseOf(groups[t]), holds) <==> exists c :: c in groups[t] && holds(c);
    if c :| c in groups[t] && holds(c) {
      assert Lists(entries, c);
    }
  }

  lemma PassesIsWanted(groups: Groups, entries: seq<Entry>, clauses: seq<Clause>, holds: Test)
    requires Collected(groups, entries)
    requires forall k :: 0 <= k < |clauses| ==> IsClause(groups, clauses[k])
    requires forall t :: t in groups ==> ClauseOf(groups[t]) in clauses
    ensures Passes(clauses, holds) <==> Wanted(entries, holds)
  {
    forall t | t in groups ensures ClauseHolds(ClauseOf(groups[t]), holds) <==> SomeListed(entries, t, holds) {
      ClauseIsSomeListed(groups, entries, t, holds);
    }
    if Passes(clauses, holds) {
      forall t | Names(entries, t) ensures SomeListed(entries, t, holds) {
        var k :| 0 <= k < |clauses| && clauses[k] == ClauseOf(groups[t]);
      }
    }
    if Wanted(entries, holds) {
      forall k | 0 <= k < |clauses| ensures ClauseHolds(clauses[k], holds) {
        assert IsClause(groups, clauses[k]);
        var t :| t in groups && clauses[k] == ClauseOf(groups[t]);
      }
    }
  }

  // ----- Columns, paths and their texts

  ghost predicate NamesPath(entries: seq<Entry>, column: string, p: seq<string>) {
    exists i, j :: 0 <= i < |entries| && 0 <= j < |entries[i].filters| && entries[i].column == column
        && entries[i].filters[j].path == p
  }

  ghost predicate SomeListedFor(entries: seq<Entry>, column: string, p: seq<string>, holds: Test) {
    exists c :: Lists(entries, c) && c.column == column && c.path == p && holds(c)
  }

  /**
  What the request means: for every path named in a column, one of the conditions listed for it in that
  column holds.
  */
  ghost predicate WantedByPath(entries: seq<Entry>, holds: Test) {
    forall column, p :: NamesPath(entries, column, p) ==> SomeListedFor(entries, column, p, holds)
  }

  /** No two paths named, in one column or in two, have one text; so no path is named in two columns. */
  ghost predicate TextsDiffer(entries: seq<Entry>) {
    forall k, p, l, q :: NamesPath(entries, k, p) && NamesPath(entries, l, q) && Join(p) == Join(q) ==> k == l && p == q
  }

  /** Some filters list no value at all for their path text, so that no row can pass. */
  ghost predicate SomeEmpty(entries: seq<Entry>) {
    exists t :: Names(entries, t) && forall c :: Lists(entries, c) ==> Join(c.path) != t
  }

  lemma NamesByPath(entries: seq<Entry>, t: string)
    ensures Names(entries, t) <==> exists k, p :: NamesPath(entries, k, p) && Join(p) == t
  {
    if Names(entries, t) {
      var i :| 0 <= i < |entries| && NamesIn(entries[i].filters, t);
      var j :| 0 <= j < |entries[i].filters| && Join(entries[i].filters[j].path) == t;
      assert NamesPath(entries, entries[i].column, entries[i].filters[j].path);
    }
    if k, p :| NamesPath(entries, k, p) && Join(p) == t {
      var i, j :| 0 <= i < |entries| && 0 <= j < |entries[i].filters| && entries[i].column == k
          && entries[i].filters[j].path == p;
      assert NamesIn(entries[i].filters, t);
    }
  }

  lemma ListedIsNamed(entries: seq<Entry>, c: Condition)
    requires Lists(entries, c)
    ensures NamesPath(entries, c.column, c.path)
  {
    var i :| 0 <= i < |entries| && ListsIn(entries[i].column, entries[i].filters, c);
    var j :| 0 <= j < |entries[i].filters| && entries[i].filters[j].path == c.path;
  }

  /** The meaning is never weaker than what the clauses ask for, unless texts are shared. */
  lemma GroupedRight(entries: seq<Entry>, holds: Test)
    requires TextsDiffer(entries)
    ensures Wanted(entries, holds) <==> WantedByPath(entries, holds)
  {
    forall k, p | NamesPath(entries, k, p) ensures SomeListed(entries, Join(p), holds) <==>
        SomeListedFor(entries, k, p, holds) {
      if c :| Lists(entries, c) && Join(c.path) == Join(p) && holds(c) {
        ListedIsNamed(entries, c);
      }
    }
    forall t ensures Names(entries, t) <==> exists k, p :: NamesPath(entries, k, p) && Join(p) == t {
      NamesByPath(entries, t);
    }
    if Wanted(entries, holds) {
      forall k, p | NamesPath(entries, k, p) ensures SomeListedFor(entries, k, p, holds) {
        assert Names(entries, Join(p));
      }
    }
  }

  /** If filters list nothing for some text, neither the clauses nor the request let any row pass. */
  lemma EmptyPassesNone(entries: seq<Entry>, holds: Test)
    requires SomeEmpty(entries)
    ensures !Wanted(entries, holds) && !WantedByPath(entries, holds)
  {
    var t :| Names(entries, t) && forall c :: Lists(entries, c) ==> Join(c.path) != t;
    NamesByPath(entries, t);
    var k, p :| NamesPath(entries, k, p) && Join(p) == t;
    assert !SomeListed(entries, t, holds) && !SomeListedFor(entries, k, p, holds);
  }

  lemma ListedUnder(entries: seq<Entry>, t: string) returns (c: Condition)
    requires !SomeEmpty(entries) && Names(entries, t)
    ensures Lists(entries, c) && Join(c.path) == t
  {
    c :| Lists(entries, c) && Join(c.path) == t;
  }

  /** Two paths of one text: a row that fails every condition for one of them may pass by way of the other. */
  lemma GroupedWrong(entries: seq<Entry>, k: string, p: seq<string>, l: string, q: seq<string>) returns (holds: Test)
    requires !SomeEmpty(entries)
    requires NamesPath(entries, k, p) && NamesPath(entries, l, q) && Join(p) == Join(q) && !(k == l && p == q)
    ensures Wanted(entries, holds) && !WantedByPath(entries, holds)
  {
    var always: Test := c => true;
    if SomeListedFor(entries, k, p, always) {
      var other :| Lists(entries, other) && other.column == k && other.path == p;
      holds := (c: Condition) => !(c.column == l && c.path == q);
      forall t | Names(entries, t) ensures SomeListed(entries, t, holds) {
        var c := ListedUnder(entries, t);
        if c.column == l && c.path == q {
          assert Lists(entries, other) && Join(other.path) == t && holds(other);
        }
      }
      assert !SomeListedFor(entries, l, q, holds);
    } else {
      holds := always;
      forall t | Names(entries, t) ensures SomeListed(entries, t, holds) {
        var c := ListedUnder(entries, t);
      }
    }
  }

  /**
  The clauses mean what the request means, for every test of conditions, exactly when no two paths named,
  in one column or in two, have the same text, or when some text has no value listed and nothing can
  pass anyway. Tests need not agree with any document here.
  */
  lemma GroupingExactForTests(entries: seq<Entry>)
    ensures (forall holds: Test :: Wanted(entries, holds) <==> WantedByPath(entries, holds)) <==>
            TextsDiffer(entries) || SomeEmpty(entries)
  {
    if TextsDiffer(entries) {
      forall holds: Test ensures Wanted(entries, holds) <==> WantedByPath(entries, holds) {
        GroupedRight(entries, holds);
      }
    } else if SomeEmpty(entries) {
      forall holds: Test ensures Wanted(entries, holds) <==> WantedByPath(entries, holds) {
        EmptyPassesNone(entries, holds);
      }
    } else {
      var k, p, l, q :| NamesPath(entries, k, p) && NamesPath(entries, l, q) && Join(p) == Join(q)
          && !(k == l && p == q);
      var holds := GroupedWrong(entries, k, p, l, q);
    }
  }

  /** One path in two columns is enough: the conditions of the two become alternatives. */
  lemma ColumnsShareText(k: string, l: string, p: seq<string>, u: Value, v: Value)
    requires k != l && !u.Many? && !v.Many?
    ensures !TextsDiffer([Entry(k, [Filter(p, u)]), Entry(l, [Filter(p, v)])])
  {
    var entries := [Entry(k, [Filter(p, u)]), Entry(l, [Filter(p, v)])];
    assert entries[0].filters[0].path == p && entries[1].filters[0].path == p;
    assert NamesPath(entries, k, p) && NamesPath(entries, l, p);
  }

  predicate NoDot(s: string) {
    forall i :: 0 <= i < |s| ==> s[i] != '.'
  }

  /** Texts differ when no path is empty and no segment has a dot in it. */
  lemma {:induction false} JoinInjective(p: seq<string>, q: seq<string>)
    requires p != [] && q != [] && Join(p) == Join(q)
    requires (forall i :: 0 <= i < |p| ==> NoDot(p[i])) && (forall i :: 0 <= i < |q| ==> NoDot(q[i]))
    ensures p == q
  {
    var s, t := Join(p), Join(q);
    assert forall i :: 0 <= i < |p[0]| ==> s[i] == p[0][i];
    assert forall i :: 0 <= i < |q[0]| ==> t[i] == q[0][i];
    assert |p| > 1 ==> s[|p[0]|] == '.';
    assert |q| > 1 ==> t[|q[0]|] == '.';
    assert |p[0]| == |q[0]| && p[0] == s[..|p[0]|] && q[0] == t[..|q[0]|];
    assert |p| == 1 ==> |s| == |p[0]|;
    assert |q| == 1 ==> |t| == |q[0]|;
    if |p| > 1 {
      assert Join(p[1..]) == s[|p[0]| + 1..] && Join(q[1..]) == t[|q[0]| + 1..];
      JoinInjective(p[1..], q[1..]);
    }
    assert p == [p[0]] + p[1..] && q == [q[0]] + q[1..];
  }

  /** A dot in a segment, or an empty path, can make two paths one. */
  lemma SharedTexts()
    ensures Join(["a", "b"]) == Join(["a.b"]) && Join([]) == Join([""])
  {
    assert ["a", "b"][1..] == ["b"];
  }
}
