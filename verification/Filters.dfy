/** The `where` tree that list requests compile their filters to, and which rows the database then returns. */
module Filters {
  import opened Wrappers

  datatype Value = Null | Flag(flag: bool) | Number(number: int) | Text(text: string) | Many(items: seq<Value>)

  /** A JavaScript object of nested conditions. */
  datatype Tree = Leaf(value: Value) | Node(kids: map<string, Tree>)

  const EMPTY: Tree := Node(map[])

  /** One entry of the request. An absent relation is "". */
  datatype Filter = Filter(
    field: string, value: Value, relation: string, relation2: string,
    relationType: string, relationType2: string, isEnum: bool)

  const TYPES: set<string> := {"is", "some", "every"}

  predicate StartsWith(s: string, p: string) {
    p <= s
  }

  predicate IsMin(f: Filter) {
    StartsWith(f.field, "min_")
  }

  predicate IsMax(f: Filter) {
    StartsWith(f.field, "max_")
  }

  function ActualField(f: Filter): string {
    if IsMin(f) || IsMax(f) then f.field[4..] else f.field
  }

  predicate IsEnumField(f: Filter) {
    f.isEnum || (|f.field| >= 4 && f.field[|f.field| - 4..] == "Type")
  }

  function Operator(f: Filter): string {
    if f.value.Many? then "in"
    else if IsEnumField(f) then "equals"
    else if f.value.Text? then "contains"
    else "equals"
  }

  // ----- The compilation

  /** A chain of single-key objects that ends in `v`. */
  function Chain(p: seq<string>, v: Value): Tree {
    if p == [] then Leaf(v) else Node(map[p[0] := Chain(p[1..], v)])
  }

  /** Values that JavaScript takes for false. */
  predicate Falsy(t: Tree) {
    t.Leaf? && match t.value
      case Null => true
      case Flag(flag) => !flag
      case Number(number) => number == 0
      case Text(text) => text == ""
      case Many(_) => false
  }

  /**
  What a key of the target holds when an object comes to be merged there: an empty object in place of
  nothing or a falsy value.
  */
  function Base(target: Tree, k: string): Tree
    requires target.Node?
  {
    if k in target.kids && !Falsy(target.kids[k]) then target.kids[k] else EMPTY
  }

  /**
  Can the source be merged? Where its object meets another value, the code writes properties into that and
  throws.
  */
  predicate Mergeable(target: Tree, source: Tree)
    decreases source
  {
    target.Node? && source.Node? &&
    forall k :: k in source.kids && source.kids[k].Node? ==> Mergeable(Base(target, k), source.kids[k])
  }

  /**
  The merged object: objects under a common key are merged in turn, any other value of the source replaces
  the target's.
  */
  function Merge(target: Tree, source: Tree): Tree
    requires Mergeable(target, source)
    decreases source, 1
  {
    Node(MergeKeys(target, source, source.kids.Keys))
  }

  /** The target after the source's keys in `done` have been merged into it. */
  function MergeKeys(target: Tree, source: Tree, done: set<string>): map<string, Tree>
    requires Mergeable(target, source) && done <= source.kids.Keys
    decreases source, 0
  {
    map k | k in target.kids.Keys + done :: if k in done then MergedKid(target, source.kids[k], k) else target.kids[k]
  }

  function MergedKid(target: Tree, kid: Tree, k: string): Tree
    requires target.Node? && (kid.Node? ==> Mergeable(Base(target, k), kid))
    decreases kid, 2
  {
    if kid.Leaf? then kid else Merge(Base(target, k), kid)
  }

  lemma MergeKeysStep(target: Tree, source: Tree, done: set<string>, k: string)
    requires Mergeable(target, source) && done <= source.kids.Keys && k in source.kids && k !in done
    ensures source.kids[k].Node? ==> Mergeable(Base(target, k), source.kids[k])
    ensures MergeKeys(target, source, done + {k}) ==
            MergeKeys(target, source, done)[k := MergedKid(target, source.kids[k], k)]
  {
  }

  lemma MergeKeysNone(target: Tree, source: Tree)
    requires Mergeable(target, source)
    ensures MergeKeys(target, source, {}) == target.kids
  {
  }

  predicate IsBlank(t: Tree) {
    t == Leaf(Null) || t == Leaf(Flag(false)) || t == Leaf(Number(0)) || t == Leaf(Text(""))
  }

  /**
  Each key of the source is in the merged object, with its own value or, where that is an object, merged
  into what the target has there; nothing, null, false, zero and the empty text give way to an empty object.
  Keys of the target alone keep their values.
  */
  lemma MergeExact(target: Tree, source: Tree, k: string)
    requires Mergeable(target, source)
    ensures var kids := Merge(target, source).kids;
            && (k in kids <==> k in target.kids || k in source.kids)
            && (k in target.kids && k !in source.kids ==> kids[k] == target.kids[k])
            && (k in source.kids && source.kids[k].Leaf? ==> kids[k] == source.kids[k])
            && (k in source.kids && source.kids[k].Node? ==>
                 var blank := k !in target.kids || IsBlank(target.kids[k]);
                 && (blank ==> Mergeable(EMPTY, source.kids[k]) && kids[k] == Merge(EMPTY, source.kids[k]))
                 && (!blank ==>
                      Mergeable(target.kids[k], source.kids[k]) && kids[k] == Merge(target.kids[k], source.kids[k])))
  {
    var kids := MergeKeys(target, source, source.kids.Keys);
    assert Merge(target, source).kids == kids;
    assert k in kids.Keys <==> k in target.kids.Keys + source.kids.Keys;
    if k in source.kids {
      assert kids[k] == MergedKid(target, source.kids[k], k);
      assert k in target.kids ==> (Falsy(target.kids[k]) <==> IsBlank(target.kids[k]));
    }
  }

  method MergeDeep(target: Tree, source: Tree) returns (merged: Tree)
    requires Mergeable(target, source)
    ensures merged == Merge(target, source)
    decreases source, 2
  {
    var kids: map<string, Tree> := target.kids;
    var todo: set<string> := source.kids.Keys;
    MergeKeysNone(target, source);
    assert source.kids.Keys - todo == {};
    while todo != {}
      invariant todo <= source.kids.Keys
      invariant kids == MergeKeys(target, source, source.kids.Keys - todo)
      decreases |todo|
    {
      var k: string :| k in todo;
      var kid := MergeKey(target, source, k);
      MergeKeysPick(target, source, todo, k);
      kids := kids[k := kid];
      todo := todo - {k};
    }
    assert source.kids.Keys - todo == source.kids.Keys;
    merged := Node(kids);
  }

  lemma MergeKeysPick(target: Tree, source: Tree, todo: set<string>, k: string)
    requires Mergeable(target, source) && todo <= source.kids.Keys && k in todo
    ensures source.kids[k].Node? ==> Mergeable(Base(target, k), source.kids[k])
    ensures MergeKeys(target, source, source.kids.Keys - (todo - {k}))
         == MergeKeys(target, source, source.kids.Keys - todo)[k := MergedKid(target, source.kids[k], k)]
  {
    assert source.kids.Keys - (todo - {k}) == (source.kids.Keys - todo) + {k};
    MergeKeysStep(target, source, source.kids.Keys - todo, k);
  }

  /** What the target gets under a key; its own entry there has not been touched before. */
  method MergeKey(target: Tree, source: Tree, k: string) returns (merged: Tree)
    requires Mergeable(target, source) && k in source.kids
    ensures merged == MergedKid(target, source.kids[k], k)
    decreases source, 1
  {
    if source.kids[k].Leaf? { return source.kids[k]; }
    merged := MergeDeep(Base(target, k), source.kids[k]);
  }

  /**
  The keys that lead from the root of the tree to the operand of the filter. Only an unrelated filter can be
  a range.
  */
  function Target(f: Filter): seq<string> {
    if f.relation == "" then
      [ActualField(f), if IsMin(f) then "gte" else if IsMax(f) then "lte" else Operator(f)]
    else if f.relation2 == "" then [f.relation, f.relationType, ActualField(f), Operator(f)]
    else [f.relation, f.relationType, f.relation2, f.relationType2, ActualField(f), Operator(f)]
  }

  /** `toNumber` is JavaScript's conversion of a value to a number. */
  function Operand(f: Filter, toNumber: Value -> Value): Value {
    if f.relation == "" && (IsMin(f) || IsMax(f)) then toNumber(f.value) else f.value
  }

  predicate KnownTypes(f: Filter) {
    f.relation != "" ==> f.relationType in TYPES && (f.relation2 != "" ==> f.relationType2 in TYPES)
  }

  predicate Fits(t: Tree, p: seq<string>) {
    if p == [] then t.Leaf? || t == EMPTY
    else t.Node? && (p[0] in t.kids ==> Fits(t.kids[p[0]], p[1..]))
  }

  function SetPath(t: Tree, p: seq<string>, v: Value): Tree
    requires Fits(t, p)
    decreases |p|
  {
    if p == [] then Leaf(v)
    else Node(t.kids[p[0] := SetPath(if p[0] in t.kids then t.kids[p[0]] else EMPTY, p[1..], v)])
  }

  /** The tree for the filters: each operand at its target, in the order given. */
  ghost function Where(fs: seq<Filter>, toNumber: Value -> Value): (t: Tree)
    requires forall i :: 0 <= i < |fs| ==> KnownTypes(fs[i])
    ensures IsWhere(t)
  {
    if fs == [] then EMPTY
    else
      var f := fs[|fs| - 1];
      var before := Where(fs[..|fs| - 1], toNumber);
      TargetProper(f);
      SetIsWhere(before, Target(f), Operand(f, toNumber));
      SetPath(before, Target(f), Operand(f, toNumber))
  }

  method ProcessFilters(fs: seq<Filter>, toNumber: Value -> Value) returns (where: Tree)
    requires forall i :: 0 <= i < |fs| ==> KnownTypes(fs[i])
    ensures where == Where(fs, toNumber)
  {
    where := EMPTY;
    for i := 0 to |fs|
      invariant where == Where(fs[..i], toNumber)
    {
      assert fs[..i + 1][..i] == fs[..i];
      where := AddFilter(where, fs[i], toNumber);
    }
    assert fs[..|fs|] == fs;
  }

  method AddFilter(where: Tree, f: Filter, toNumber: Value -> Value) returns (where': Tree)
    requires IsWhere(where) && KnownTypes(f)
    ensures Fits(where, Target(f)) && where' == SetPath(where, Target(f), Operand(f, toNumber))
  {
    TargetProper(f);
    SetIsWhere(where, Target(f), Operand(f, toNumber));
    var field := ActualField(f);
    if f.relation == "" && (IsMin(f) || IsMax(f)) {
      SetStep(where, Target(f), toNumber(f.value));
      var conditionType := if IsMin(f) then "gte" else "lte";
      where' := where;
      if field !in where'.kids {
        where' := Node(where'.kids[field := EMPTY]);
      }
      where' := Node(where'.kids[field := Node(where'.kids[field].kids[conditionType := Leaf(toNumber(f.value))])]);
    } else {
      MergeChain(where, Target(f), f.value);
      var condition := Node(map[Operator(f) := Leaf(f.value)]);
      var newFilter := Node(map[field := condition]);
      if f.relation != "" {
        if f.relation2 != "" {
          newFilter := Node(map[f.relation2 := Node(map[f.relationType2 := newFilter])]);
        }
        newFilter := Node(map[f.relation := Node(map[f.relationType := newFilter])]);
      }
      ChainIsFilter(f);
      where' := MergeDeep(where, newFilter);
    }
  }

  lemma ChainIsFilter(f: Filter)
    requires !(f.relation == "" && (IsMin(f) || IsMax(f)))
    ensures var condition := Node(map[ActualField(f) := Node(map[Operator(f) := Leaf(f.value)])]);
            Chain(Target(f), f.value) ==
            if f.relation == "" then condition
            else if f.relation2 == "" then Node(map[f.relation := Node(map[f.relationType := condition])])
            else
              var inner := Node(map[f.relation2 := Node(map[f.relationType2 := condition])]);
              Node(map[f.relation := Node(map[f.relationType := inner])])
  {
    var p := [ActualField(f), Operator(f)];
    ChainStep(ActualField(f), Operator(f), [], f.value);
    assert p + [] == p;
    if f.relation != "" {
      if f.relation2 != "" {
        ChainStep(f.relation2, f.relationType2, p, f.value);
        p := [f.relation2, f.relationType2] + p;
      }
      ChainStep(f.relation, f.relationType, p, f.value);
      p := [f.relation, f.relationType] + p;
    }
    assert p == Target(f);
  }

  lemma ChainStep(k: string, op: string, q: seq<string>, v: Value)
    ensures Chain([k, op] + q, v) == Node(map[k := Node(map[op := Chain(q, v)])])
  {
    var p := [k, op] + q;
    assert p[1..] == [op] + q && p[1..][1..] == q;
  }

  /** Merging a chain sets the value at the end of its path. */
  lemma {:induction false} MergeChain(t: Tree, p: seq<string>, v: Value)
    requires p != [] && Fits(t, p)
    ensures Mergeable(t, Chain(p, v)) && Merge(t, Chain(p, v)) == SetPath(t, p, v)
    decreases |p|
  {
    var source := Chain(p, v);
    var kid := if p[0] in t.kids then t.kids[p[0]] else EMPTY;
    if |p| > 1 {
      MergeChain(kid, p[1..], v);
    } else {
      assert p[1..] == [] && Chain([], v) == Leaf(v) && source.kids[p[0]] == Chain(p[1..], v);
    }
    assert Mergeable(t, source);
    MergeKeysNone(t, source);
    MergeKeysStep(t, source, {}, p[0]);
    assert {} + {p[0]} == source.kids.Keys;
  }

  // ----- The shape of the compiled tree

  predicate ProperPath(p: seq<string>) {
    |p| >= 2 && if |p| == 2 then p[1] !in TYPES else p[1] in TYPES && ProperPath(p[2..])
  }

  lemma TargetProper(f: Filter)
    requires KnownTypes(f)
    ensures ProperPath(Target(f))
  {
    var p := Target(f);
    if |p| == 4 {
      assert p[2..] == [ActualField(f), Operator(f)];
    } else if |p| == 6 {
      assert p[2..] == [f.relation2, f.relationType2, ActualField(f), Operator(f)];
      assert p[2..][2..] == [ActualField(f), Operator(f)];
    }
  }

  /** An object from fields to operators with operands, and from relations to relation types with such objects. */
  predicate IsWhere(t: Tree) {
    t.Node? && forall k :: k in t.kids ==>
      var c := t.kids[k];
      && c.Node? && c.kids != map[]
      && forall op :: op in c.kids ==>
          if op in TYPES then IsWhere(c.kids[op]) && c.kids[op].kids != map[] else c.kids[op].Leaf?
  }

  /** A step along a path passes a field or relation and an operator or relation type. */
  lemma SetStep(t: Tree, p: seq<string>, v: Value)
    requires IsWhere(t) && |p| >= 2
    requires var c := if p[0] in t.kids then t.kids[p[0]] else EMPTY;
             Fits(if p[1] in c.kids then c.kids[p[1]] else EMPTY, p[2..])
    ensures Fits(t, p)
    ensures var c := if p[0] in t.kids then t.kids[p[0]] else EMPTY;
            var d := if p[1] in c.kids then c.kids[p[1]] else EMPTY;
            SetPath(t, p, v) == Node(t.kids[p[0] := Node(c.kids[p[1] := SetPath(d, p[2..], v)])])
  {
    var q := p[1..];
    assert q[0] == p[1] && q[1..] == p[2..];
    var c := if p[0] in t.kids then t.kids[p[0]] else EMPTY;
    assert Fits(c, q);
  }

  lemma {:induction false} SetIsWhere(t: Tree, p: seq<string>, v: Value)
    requires IsWhere(t) && ProperPath(p)
    ensures Fits(t, p) && IsWhere(SetPath(t, p, v)) && SetPath(t, p, v).kids != map[]
    decreases |p|
  {
    var c := if p[0] in t.kids then t.kids[p[0]] else EMPTY;
    var d := if p[1] in c.kids then c.kids[p[1]] else EMPTY;
    if |p| > 2 {
      SetIsWhere(d, p[2..], v);
    }
    SetStep(t, p, v);
    StepIsWhere(t, p[0], p[1], SetPath(d, p[2..], v));
  }

  lemma StepIsWhere(t: Tree, k: string, op: string, d: Tree)
    requires IsWhere(t) && (if op in TYPES then IsWhere(d) && d.kids != map[] else d.Leaf?)
    ensures var c := if k in t.kids then t.kids[k] else EMPTY;
            var t' := Node(t.kids[k := Node(c.kids[op := d])]);
            IsWhere(t') && t'.kids != map[]
  {
    var c := if k in t.kids then t.kids[k] else EMPTY;
    var c' := Node(c.kids[op := d]);
    assert op in c'.kids && k in t.kids[k := c'];
  }

  /** The value at the end of a path. */
  function At(t: Tree, p: seq<string>): Option<Value> {
    if p == [] then if t.Leaf? then Some(t.value) else None
    else if t.Leaf? || p[0] !in t.kids then None
    else At(t.kids[p[0]], p[1..])
  }

  predicate ObjectAt(t: Tree, p: seq<string>) {
    t.Node? && (p == [] || (p[0] in t.kids && ObjectAt(t.kids[p[0]], p[1..])))
  }

  /** What a merge cannot do: write an object where the target has a value that is not blank. */
  ghost predicate Collides(target: Tree, source: Tree, p: seq<string>) {
    ObjectAt(source, p) && At(target, p).Some? && !IsBlank(Leaf(At(target, p).value))
  }

  lemma CollidesUnder(target: Tree, source: Tree, k: string, q: seq<string>)
    requires target.Node? && source.Node? && k in source.kids
    ensures Collides(target, source, [k] + q) <==> k in target.kids && Collides(target.kids[k], source.kids[k], q)
  {
    assert ([k] + q)[1..] == q;
  }

  /** Two objects can be merged exactly if they collide at no path. */
  lemma {:induction false} MergeableExact(target: Tree, source: Tree)
    requires target.Node? && source.Node?
    ensures Mergeable(target, source) <==> forall p :: !Collides(target, source, p)
    decreases source
  {
    forall k | k in source.kids && source.kids[k].Node?
      ensures Mergeable(Base(target, k), source.kids[k]) <==> forall q :: !Collides(target, source, [k] + q)
    {
      forall q ensures Collides(target, source, [k] + q) <==>
                       k in target.kids && Collides(target.kids[k], source.kids[k], q) {
        CollidesUnder(target, source, k, q);
      }
      if Base(target, k).Leaf? {
        assert Collides(target.kids[k], source.kids[k], []);
        assert Collides(target, source, [k] + []);
      } else {
        MergeableExact(Base(target, k), source.kids[k]);
      }
    }
    if Mergeable(target, source) {
      forall p ensures !Collides(target, source, p) {
        if p != [] && p[0] in source.kids && ObjectAt(source.kids[p[0]], p[1..]) {
          assert p == [p[0]] + p[1..];
        }
      }
    }
  }

  lemma {:induction false} AtSet(t: Tree, p: seq<string>, v: Value, q: seq<string>)
    requires Fits(t, p)
    ensures At(SetPath(t, p, v), q) == if q == p then Some(v) else At(t, q)
    decreases |p|
  {
    if p != [] && q != [] {
      assert p == [p[0]] + p[1..] && q == [q[0]] + q[1..];
      if p[0] == q[0] {
        AtSet(if p[0] in t.kids then t.kids[p[0]] else EMPTY, p[1..], v, q[1..]);
      }
    }
  }

  lemma {:induction false} AtProper(t: Tree, p: seq<string>)
    requires IsWhere(t) && At(t, p).Some?
    ensures ProperPath(p)
    decreases |p|
  {
    var c := t.kids[p[0]];
    assert At(c, p[1..]).Some? && p[1..] != [];
    assert p[1..][0] == p[1] && p[1..][1..] == p[2..];
    if p[1] in TYPES {
      AtProper(c.kids[p[1]], p[2..]);
    } else {
      assert At(c, p[1..]) == At(c.kids[p[1]], p[2..]);
    }
  }

  /** No branch of the tree is empty. */
  lemma {:induction false} SomePath(t: Tree) returns (p: seq<string>)
    requires IsWhere(t) && t.kids != map[]
    ensures At(t, p).Some?
    decreases t
  {
    var k: string :| k in t.kids;
    var c := t.kids[k];
    var op: string :| op in c.kids;
    var q := [];
    if op in TYPES {
      q := SomePath(c.kids[op]);
    }
    p := [k, op] + q;
    AtStep(t, k, op, q);
  }

  lemma AtStep(t: Tree, k: string, op: string, q: seq<string>)
    requires t.Node? && k in t.kids && t.kids[k].Node? && op in t.kids[k].kids
    ensures At(t, [k, op] + q) == At(t.kids[k].kids[op], q)
  {
    var p := [k, op] + q;
    assert p[1..] == [op] + q && p[1..][1..] == q;
  }

  // ----- Which rows pass

  /** A row with its related records; a link to one record holds at most one. */
  datatype Row = Row(fields: map<string, Value>, links: map<string, seq<Row>>)

  /** `holds` is the database's test of one operator on a stored value. */
  type Test = (string, Value, Value) -> bool

  /** The row passes every condition of the tree. */
  ghost predicate Accepts(t: Tree, row: Row, holds: Test)
    requires IsWhere(t)
    decreases t, 1
  {
    forall k, op :: k in t.kids && op in t.kids[k].kids ==> ConditionAccepts(t, k, op, row, holds)
  }

  /** A related condition asks for one record, or all, that pass all of it. */
  ghost predicate ConditionAccepts(t: Tree, k: string, op: string, row: Row, holds: Test)
    requires IsWhere(t) && k in t.kids && op in t.kids[k].kids
    decreases t, 0
  {
    var c := t.kids[k].kids[op];
    if op !in TYPES then k in row.fields && holds(op, c.value, row.fields[k])
    else k in row.links && if op == "every" then AllAccept(c, row.links[k], holds)
        else SomeAccepts(c, row.links[k], holds)
  }

  ghost predicate AllAccept(c: Tree, recs: seq<Row>, holds: Test)
    requires IsWhere(c)
    decreases c, 2
  {
    forall i :: 0 <= i < |recs| ==> Accepts(c, recs[i], holds)
  }

  ghost predicate SomeAccepts(c: Tree, recs: seq<Row>, holds: Test)
    requires IsWhere(c)
    decreases c, 2
  {
    exists i :: 0 <= i < |recs| && Accepts(c, recs[i], holds)
  }

  /** What one filter alone asks of a row. */
  ghost predicate PathAccepts(p: seq<string>, v: Value, row: Row, holds: Test)
    decreases |p|
  {
    if |p| < 2 then true
    else if |p| == 2 then p[0] in row.fields && holds(p[1], v, row.fields[p[0]])
    else p[0] in row.links &&
         if p[1] == "every" then forall i :: 0 <= i < |row.links[p[0]]| ==>
             PathAccepts(p[2..], v, row.links[p[0]][i], holds)
         else exists i :: 0 <= i < |row.links[p[0]]| && PathAccepts(p[2..], v, row.links[p[0]][i], holds)
  }

  ghost predicate FilterAccepts(f: Filter, toNumber: Value -> Value, row: Row, holds: Test)
  {
    PathAccepts(Target(f), Operand(f, toNumber), row, holds)
  }

  /** A path in the tree starts with a condition. */
  lemma PathStep(c: Tree, q: seq<string>)
    requires IsWhere(c) && At(c, q).Some?
    ensures ProperPath(q) && q[0] in c.kids && q[1] in c.kids[q[0]].kids
    ensures |q| == 2 ==> c.kids[q[0]].kids[q[1]] == Leaf(At(c, q).value)
  {
    AtProper(c, q);
    assert q == [q[0], q[1]] + q[2..];
    OnPath(c, q[0], q[1], q[2..]);
    AtStep(c, q[0], q[1], q[2..]);
  }

  /** What a related condition asks of the records, in terms of a path behind it. */
  lemma ConditionGivesPath(t: Tree, k: string, op: string, q: seq<string>, v: Value, row: Row, holds: Test)
    requires IsWhere(t) && k in t.kids && op in t.kids[k].kids && op in TYPES && |q| >= 2
    requires ConditionAccepts(t, k, op, row, holds)
    requires k in row.links ==>
             forall i :: 0 <= i < |row.links[k]| && Accepts(t.kids[k].kids[op], row.links[k][i], holds) ==>
               PathAccepts(q, v, row.links[k][i], holds)
    ensures PathAccepts([k, op] + q, v, row, holds)
  {
    var p := [k, op] + q;
    assert p[2..] == q && p[0] == k && p[1] == op;
  }

  lemma FieldGivesPath(t: Tree, row: Row, holds: Test, p: seq<string>)
    requires IsWhere(t) && Accepts(t, row, holds) && At(t, p).Some? && |p| == 2
    ensures PathAccepts(p, At(t, p).value, row, holds)
  {
    PathStep(t, p);
    assert ConditionAccepts(t, p[0], p[1], row, holds);
  }

  /** What stands behind a relation and its type. */
  lemma PathBehind(t: Tree, p: seq<string>)
    requires IsWhere(t) && At(t, p).Some? && |p| > 2
    ensures p[0] in t.kids && p[1] in t.kids[p[0]].kids && p[1] in TYPES && |p[2..]| >= 2
    ensures At(t.kids[p[0]].kids[p[1]], p[2..]) == At(t, p) && [p[0], p[1]] + p[2..] == p
  {
    PathStep(t, p);
    assert p == [p[0], p[1]] + p[2..];
    AtStep(t, p[0], p[1], p[2..]);
    AtProper(t.kids[p[0]].kids[p[1]], p[2..]);
  }

  /** A row that passes the tree passes each of its paths. */
  lemma {:induction false} AcceptsGivesPath(t: Tree, row: Row, holds: Test, p: seq<string>)
    requires IsWhere(t) && Accepts(t, row, holds) && At(t, p).Some?
    ensures PathAccepts(p, At(t, p).value, row, holds)
    decreases |p|
  {
    if |p| < 2 {
    } else if |p| == 2 {
      FieldGivesPath(t, row, holds, p);
    } else {
      PathBehind(t, p);
      var c, v := t.kids[p[0]].kids[p[1]], At(t, p).value;
      if p[0] in row.links {
        var recs := row.links[p[0]];
        forall i | 0 <= i < |recs| && Accepts(c, recs[i], holds) ensures PathAccepts(p[2..], v, recs[i], holds) {
          AcceptsGivesPath(c, recs[i], holds, p[2..]);
        }
      }
      assert ConditionAccepts(t, p[0], p[1], row, holds);
      ConditionGivesPath(t, p[0], p[1], p[2..], v, row, holds);
    }
  }

  // ----- The main results

  /** No later filter has the same target. */
  predicate Wins(fs: seq<Filter>, i: nat)
    requires i < |fs|
  {
    forall j :: i < j < |fs| ==> Target(fs[j]) != Target(fs[i])
  }

  lemma WhereAtStep(fs: seq<Filter>, toNumber: Value -> Value, p: seq<string>)
    requires fs != [] && forall i :: 0 <= i < |fs| ==> KnownTypes(fs[i])
    ensures var f := fs[|fs| - 1];
            At(Where(fs, toNumber), p) ==
            if p == Target(f) then Some(Operand(f, toNumber)) else At(Where(fs[..|fs| - 1], toNumber), p)
  {
    var f := fs[|fs| - 1];
    var before := Where(fs[..|fs| - 1], toNumber);
    TargetProper(f);
    SetIsWhere(before, Target(f), Operand(f, toNumber));
    AtSet(before, Target(f), Operand(f, toNumber), p);
  }

  ghost predicate Winner(fs: seq<Filter>, i: nat, p: seq<string>) {
    i < |fs| && Wins(fs, i) && Target(fs[i]) == p
  }

  lemma WinnerFront(fs: seq<Filter>, i: nat, p: seq<string>)
    requires fs != [] && Target(fs[|fs| - 1]) != p
    ensures Winner(fs, i, p) <==> Winner(fs[..|fs| - 1], i, p)
  {
    var front := fs[..|fs| - 1];
    if Winner(front, i, p) {
      forall j | i < j < |fs| ensures Target(fs[j]) != Target(fs[i]) {
        assert j < |front| ==> front[j] == fs[j];
      }
    }
    if Winner(fs, i, p) {
      forall j | i < j < |front| ensures Target(front[j]) != Target(front[i]) {
        assert front[j] == fs[j];
      }
    }
  }

  /** What stands at a path is the operand of the last filter with that target. */
  lemma {:induction false} WinnerAt(fs: seq<Filter>, toNumber: Value -> Value, i: nat, p: seq<string>)
    requires forall i :: 0 <= i < |fs| ==> KnownTypes(fs[i])
    requires Winner(fs, i, p)
    ensures At(Where(fs, toNumber), p) == Some(Operand(fs[i], toNumber))
    decreases |fs|
  {
    WhereAtStep(fs, toNumber, p);
    if i < |fs| - 1 {
      WinnerFront(fs, i, p);
      WinnerAt(fs[..|fs| - 1], toNumber, i, p);
    }
  }

  lemma {:induction false} WinnerOf(fs: seq<Filter>, toNumber: Value -> Value, p: seq<string>) returns (i: nat)
    requires forall i :: 0 <= i < |fs| ==> KnownTypes(fs[i])
    requires At(Where(fs, toNumber), p).Some?
    ensures Winner(fs, i, p)
    decreases |fs|
  {
    var n := |fs| - 1;
    WhereAtStep(fs, toNumber, p);
    if Target(fs[n]) == p {
      i := n;
    } else {
      i := WinnerOf(fs[..n], toNumber, p);
      WinnerFront(fs, i, p);
    }
  }

  /**
  Whatever the relation types, a row that passes the compiled tree passes every filter that no later one
  replaces.
  */
  lemma FiltersSound(fs: seq<Filter>, toNumber: Value -> Value, row: Row, holds: Test)
    requires forall i :: 0 <= i < |fs| ==> KnownTypes(fs[i])
    requires Accepts(Where(fs, toNumber), row, holds)
    ensures forall i :: 0 <= i < |fs| && Wins(fs, i) ==> FilterAccepts(fs[i], toNumber, row, holds)
  {
    forall i | 0 <= i < |fs| && Wins(fs, i) ensures FilterAccepts(fs[i], toNumber, row, holds) {
      WinnerAt(fs, toNumber, i, Target(fs[i]));
      AcceptsGivesPath(Where(fs, toNumber), row, holds, Target(fs[i]));
    }
  }

  // ----- Exactly which rows pass

  /** The path of the filter goes on from `pre`. */
  predicate Through(f: Filter, pre: seq<string>) {
    pre < Target(f)
  }

  /**
  The row meets all winning filters whose paths come through `pre`, and meets them together: where
  several go on by one link, a single record must meet all of those, or, with "every", each record.
  */
  ghost predicate MeetsTogether(fs: seq<Filter>, toNumber: Value -> Value, pre: seq<string>, row: Row, holds: Test)
    decreases 6 - |pre|, 1
  {
    forall i :: 0 <= i < |fs| && Wins(fs, i) && Through(fs[i], pre) ==>
      StepMet(fs, toNumber, pre, Target(fs[i])[|pre|..], Operand(fs[i], toNumber), row, holds)
  }

  ghost predicate StepMet(
      fs: seq<Filter>, toNumber: Value -> Value, pre: seq<string>, q: seq<string>, v: Value, row: Row, holds: Test)
    requires |pre| + |q| <= 6
    decreases 6 - |pre|, 0
  {
    if |q| < 2 then true
    else if |q| == 2 then q[0] in row.fields && holds(q[1], v, row.fields[q[0]])
    else q[0] in row.links &&
         if q[1] == "every" then
           forall i :: 0 <= i < |row.links[q[0]]| ==>
             MeetsTogether(fs, toNumber, pre + q[..2], row.links[q[0]][i], holds)
         else
           exists i :: 0 <= i < |row.links[q[0]]| &&
             MeetsTogether(fs, toNumber, pre + q[..2], row.links[q[0]][i], holds)
  }

  /** `c` is the part of the compiled tree under `pre`. */
  ghost predicate PartAt(fs: seq<Filter>, toNumber: Value -> Value, pre: seq<string>, c: Tree)
    requires forall i :: 0 <= i < |fs| ==> KnownTypes(fs[i])
  {
    IsWhere(c) && forall q :: At(c, q) == At(Where(fs, toNumber), pre + q)
  }

  lemma PartStep(fs: seq<Filter>, toNumber: Value -> Value, pre: seq<string>, c: Tree, k: string, op: string)
    requires forall i :: 0 <= i < |fs| ==> KnownTypes(fs[i])
    requires PartAt(fs, toNumber, pre, c) && k in c.kids && op in c.kids[k].kids && op in TYPES
    ensures PartAt(fs, toNumber, pre + [k, op], c.kids[k].kids[op])
  {
    var d := c.kids[k].kids[op];
    forall q ensures At(d, q) == At(Where(fs, toNumber), (pre + [k, op]) + q) {
      AtStep(c, k, op, q);
      assert (pre + [k, op]) + q == pre + ([k, op] + q);
    }
  }

  /** Where the filter goes on in that part, and what it leads to. */
  lemma StepPosition(fs: seq<Filter>, toNumber: Value -> Value, pre: seq<string>, c: Tree, i: nat)
    requires forall i :: 0 <= i < |fs| ==> KnownTypes(fs[i])
    requires PartAt(fs, toNumber, pre, c) && i < |fs| && Wins(fs, i) && Through(fs[i], pre)
    ensures var q := Target(fs[i])[|pre|..];
            && ProperPath(q) && q[0] in c.kids && q[1] in c.kids[q[0]].kids
            && (|q| == 2 ==> c.kids[q[0]].kids[q[1]] == Leaf(Operand(fs[i], toNumber)))
  {
    var q := Target(fs[i])[|pre|..];
    assert pre + q == Target(fs[i]);
    WinnerAt(fs, toNumber, i, Target(fs[i]));
    PathStep(c, q);
  }

  /** A related condition and a step ask for the same, if they ask the same of each record. */
  lemma SameOfRecords(
      fs: seq<Filter>, toNumber: Value -> Value, pre: seq<string>, c: Tree, q: seq<string>, v: Value, row: Row,
      holds: Test)
    requires IsWhere(c) && 2 < |q| <= 6 - |pre| && q[0] in c.kids && q[1] in c.kids[q[0]].kids && q[1] in TYPES
    requires q[0] in row.links ==> forall n :: 0 <= n < |row.links[q[0]]| ==>
               (Accepts(c.kids[q[0]].kids[q[1]], row.links[q[0]][n], holds) <==>
                   MeetsTogether(fs, toNumber, pre + q[..2], row.links[q[0]][n], holds))
    ensures ConditionAccepts(c, q[0], q[1], row, holds) <==> StepMet(fs, toNumber, pre, q, v, row, holds)
  {
  }

  lemma StepTogether(
      fs: seq<Filter>, toNumber: Value -> Value, pre: seq<string>, c: Tree, i: nat, row: Row, holds: Test)
    requires forall i :: 0 <= i < |fs| ==> KnownTypes(fs[i])
    requires PartAt(fs, toNumber, pre, c) && i < |fs| && Wins(fs, i) && Through(fs[i], pre)
    ensures var q := Target(fs[i])[|pre|..];
            && |q| >= 2 && q[0] in c.kids && q[1] in c.kids[q[0]].kids
            && (ConditionAccepts(c, q[0], q[1], row, holds) <==>
                 StepMet(fs, toNumber, pre, q, Operand(fs[i], toNumber), row, holds))
    decreases c, 0
  {
    StepPosition(fs, toNumber, pre, c, i);
    var q := Target(fs[i])[|pre|..];
    if |q| > 2 {
      var d, step := c.kids[q[0]].kids[q[1]], pre + q[..2];
      assert step == pre + [q[0], q[1]];
      PartStep(fs, toNumber, pre, c, q[0], q[1]);
      if q[0] in row.links {
        var recs := row.links[q[0]];
        forall n | 0 <= n < |recs| ensures Accepts(d, recs[n], holds) <==>
            MeetsTogether(fs, toNumber, step, recs[n], holds) {
          Together(fs, toNumber, step, d, recs[n], holds);
        }
      }
      SameOfRecords(fs, toNumber, pre, c, q, Operand(fs[i], toNumber), row, holds);
    }
  }

  lemma Together(fs: seq<Filter>, toNumber: Value -> Value, pre: seq<string>, c: Tree, row: Row, holds: Test)
    requires forall i :: 0 <= i < |fs| ==> KnownTypes(fs[i])
    requires PartAt(fs, toNumber, pre, c)
    ensures Accepts(c, row, holds) <==> MeetsTogether(fs, toNumber, pre, row, holds)
    decreases c, 1
  {
    forall i | 0 <= i < |fs| && Wins(fs, i) && Through(fs[i], pre)
      ensures Accepts(c, row, holds) ==>
              StepMet(fs, toNumber, pre, Target(fs[i])[|pre|..], Operand(fs[i], toNumber), row, holds) {
      StepTogether(fs, toNumber, pre, c, i, row, holds);
    }
    forall k, op | k in c.kids && op in c.kids[k].kids
      ensures MeetsTogether(fs, toNumber, pre, row, holds) ==> ConditionAccepts(c, k, op, row, holds) {
      var i := WinnerUnder(fs, toNumber, pre, c, k, op);
      StepTogether(fs, toNumber, pre, c, i, row, holds);
    }
  }

  /** Every condition in the tree is there for a filter. */
  lemma WinnerUnder(
      fs: seq<Filter>, toNumber: Value -> Value, pre: seq<string>, c: Tree, k: string, op: string) returns (i: nat)
    requires forall i :: 0 <= i < |fs| ==> KnownTypes(fs[i])
    requires PartAt(fs, toNumber, pre, c) && k in c.kids && op in c.kids[k].kids
    ensures i < |fs| && Wins(fs, i) && Through(fs[i], pre)
    ensures var q := Target(fs[i])[|pre|..]; |q| >= 2 && q[0] == k && q[1] == op
  {
    var r := [];
    if op in TYPES {
      r := SomePath(c.kids[k].kids[op]);
    }
    AtStep(c, k, op, r);
    var q := [k, op] + r;
    i := WinnerOf(fs, toNumber, pre + q);
    assert (pre + q)[|pre|..] == q;
  }

  /**
  For every row, however many records its links hold: it passes the tree exactly when it meets the winning
  filters together.
  */
  lemma TreeExact(fs: seq<Filter>, toNumber: Value -> Value, row: Row, holds: Test)
    requires forall i :: 0 <= i < |fs| ==> KnownTypes(fs[i])
    ensures Accepts(Where(fs, toNumber), row, holds) <==> MeetsTogether(fs, toNumber, [], row, holds)
  {
    var t := Where(fs, toNumber);
    forall q ensures At(t, q) == At(t, [] + q) {
      assert [] + q == q;
    }
    Together(fs, toNumber, [], t, row, holds);
  }

  /** A row that meets the filters together passes each of them. */
  lemma {:induction false} TogetherGivesPath(
      fs: seq<Filter>, toNumber: Value -> Value, pre: seq<string>, row: Row, holds: Test, i: nat)
    requires MeetsTogether(fs, toNumber, pre, row, holds) && i < |fs| && Wins(fs, i) && Through(fs[i], pre)
    ensures PathAccepts(Target(fs[i])[|pre|..], Operand(fs[i], toNumber), row, holds)
    decreases 6 - |pre|
  {
    var q := Target(fs[i])[|pre|..];
    assert StepMet(fs, toNumber, pre, q, Operand(fs[i], toNumber), row, holds);
    if |q| > 2 {
      var step := pre + q[..2];
      assert Target(fs[i])[|step|..] == q[2..] && step == Target(fs[i])[..|step|];
      forall n | 0 <= n < |row.links[q[0]]| && MeetsTogether(fs, toNumber, step, row.links[q[0]][n], holds)
        ensures PathAccepts(q[2..], Operand(fs[i], toNumber), row.links[q[0]][n], holds) {
        TogetherGivesPath(fs, toNumber, step, row.links[q[0]][n], holds, i);
      }
    }
  }

  /** No other winning filter comes through `pre`. */
  predicate AloneAt(fs: seq<Filter>, i: nat, pre: seq<string>) {
    forall j :: 0 <= j < |fs| && j != i && Wins(fs, j) ==> !Through(fs[j], pre)
  }

  /** Wherever the filter asks for one record, the row has at most one, or no other filter asks there. */
  predicate Clear(fs: seq<Filter>, i: nat, pre: seq<string>, row: Row)
    requires i < |fs| && pre <= Target(fs[i])
    decreases 6 - |pre|
  {
    var q := Target(fs[i])[|pre|..];
    |q| > 2 && q[0] in row.links ==>
      && (q[1] == "every" || |row.links[q[0]]| <= 1 || AloneAt(fs, i, pre + q[..2]))
      && forall n :: 0 <= n < |row.links[q[0]]| ==> Clear(fs, i, pre + q[..2], row.links[q[0]][n])
  }

  ghost predicate ClearAndPassing(
      fs: seq<Filter>, toNumber: Value -> Value, pre: seq<string>, row: Row, holds: Test, i: nat)
    requires i < |fs| && Through(fs[i], pre)
  {
    Clear(fs, i, pre, row) && PathAccepts(Target(fs[i])[|pre|..], Operand(fs[i], toNumber), row, holds)
  }

  /** `i` goes on from `pre` by `step`. */
  lemma StepOn(fs: seq<Filter>, i: nat, pre: seq<string>, step: seq<string>)
    requires i < |fs| && Through(fs[i], step) && |step| == |pre| + 2 && pre <= step
    ensures Through(fs[i], pre)
    ensures var q := Target(fs[i])[|pre|..]; |q| > 2 && step == pre + q[..2] && Target(fs[i])[|step|..] == q[2..]
  {
  }

  ghost predicate AllClearAndPassing(
      fs: seq<Filter>, toNumber: Value -> Value, pre: seq<string>, row: Row, holds: Test) {
    forall i :: 0 <= i < |fs| && Wins(fs, i) && Through(fs[i], pre) ==>
        ClearAndPassing(fs, toNumber, pre, row, holds, i)
  }

  /**
  Filters that pass behind a link are passed by each record, by the only one, or, if there is one filter, by
  the record it found.
  */
  lemma PassOn(fs: seq<Filter>, toNumber: Value -> Value, pre: seq<string>, row: Row, holds: Test, i: nat, n: nat)
    requires AllClearAndPassing(fs, toNumber, pre, row, holds) && i < |fs| && Wins(fs, i) && Through(fs[i], pre)
    requires var q := Target(fs[i])[|pre|..];
             && |q| > 2 && n < |row.links[q[0]]|
             && (q[1] == "every" || PathAccepts(q[2..], Operand(fs[i], toNumber), row.links[q[0]][n], holds))
    ensures var q := Target(fs[i])[|pre|..]; AllClearAndPassing(fs, toNumber, pre + q[..2], row.links[q[0]][n], holds)
  {
    var q := Target(fs[i])[|pre|..];
    var step := pre + q[..2];
    assert ClearAndPassing(fs, toNumber, pre, row, holds, i);
    forall j | 0 <= j < |fs| && Wins(fs, j) && Through(fs[j], step)
      ensures ClearAndPassing(fs, toNumber, step, row.links[q[0]][n], holds, j) {
      StepOn(fs, j, pre, step);
      assert ClearAndPassing(fs, toNumber, pre, row, holds, j);
    }
  }

  lemma {:induction false} PassTogether(
      fs: seq<Filter>, toNumber: Value -> Value, pre: seq<string>, row: Row, holds: Test)
    requires AllClearAndPassing(fs, toNumber, pre, row, holds)
    ensures MeetsTogether(fs, toNumber, pre, row, holds)
    decreases 6 - |pre|
  {
    forall i | 0 <= i < |fs| && Wins(fs, i) && Through(fs[i], pre)
      ensures StepMet(fs, toNumber, pre, Target(fs[i])[|pre|..], Operand(fs[i], toNumber), row, holds) {
      var q := Target(fs[i])[|pre|..];
      assert ClearAndPassing(fs, toNumber, pre, row, holds, i);
      if |q| > 2 {
        var recs := row.links[q[0]];
        forall n: nat | n < |recs| && (q[1] == "every" || PathAccepts(q[2..], Operand(fs[i], toNumber), recs[n], holds))
          ensures MeetsTogether(fs, toNumber, pre + q[..2], recs[n], holds) {
          PassOn(fs, toNumber, pre, row, holds, i, n);
          PassTogether(fs, toNumber, pre + q[..2], recs[n], holds);
        }
      }
    }
  }

  ghost predicate WinnersPass(fs: seq<Filter>, toNumber: Value -> Value, row: Row, holds: Test) {
    forall i :: 0 <= i < |fs| && Wins(fs, i) ==> FilterAccepts(fs[i], toNumber, row, holds)
  }

  /** On a row that is clear for the filters, the tree is the conjunction of those that win. */
  lemma ClearExact(fs: seq<Filter>, toNumber: Value -> Value, row: Row, holds: Test)
    requires forall i :: 0 <= i < |fs| ==> KnownTypes(fs[i])
    requires forall i :: 0 <= i < |fs| && Wins(fs, i) ==> Clear(fs, i, [], row)
    ensures Accepts(Where(fs, toNumber), row, holds) <==> WinnersPass(fs, toNumber, row, holds)
  {
    if Accepts(Where(fs, toNumber), row, holds) {
      FiltersSound(fs, toNumber, row, holds);
    }
    if WinnersPass(fs, toNumber, row, holds) {
      assert AllClearAndPassing(fs, toNumber, [], row, holds) by {
        forall i | 0 <= i < |fs| && Wins(fs, i) && Through(fs[i], [])
            ensures ClearAndPassing(fs, toNumber, [], row, holds, i) {
          assert FilterAccepts(fs[i], toNumber, row, holds) && Target(fs[i])[0..] == Target(fs[i]);
        }
      }
      PassTogether(fs, toNumber, [], row, holds);
      TreeExact(fs, toNumber, row, holds);
    }
  }

  /** Along the path the row has at most one related record wherever one is asked for: so it is with "is" relations. */
  predicate OneRecord(p: seq<string>, row: Row)
    decreases |p|
  {
    |p| > 2 && p[0] in row.links ==>
      && (p[1] == "every" || |row.links[p[0]]| <= 1)
      && forall i :: 0 <= i < |row.links[p[0]]| ==> OneRecord(p[2..], row.links[p[0]][i])
  }

  lemma {:induction false} OneRecordClear(fs: seq<Filter>, i: nat, pre: seq<string>, row: Row)
    requires i < |fs| && pre <= Target(fs[i]) && OneRecord(Target(fs[i])[|pre|..], row)
    ensures Clear(fs, i, pre, row)
    decreases 6 - |pre|
  {
    var q := Target(fs[i])[|pre|..];
    if |q| > 2 && q[0] in row.links {
      var step := pre + q[..2];
      assert step <= Target(fs[i]) && Target(fs[i])[|step|..] == q[2..];
      forall n | 0 <= n < |row.links[q[0]]| ensures Clear(fs, i, step, row.links[q[0]][n]) {
        OneRecordClear(fs, i, step, row.links[q[0]][n]);
      }
    }
  }

  /**
  With at most one record behind each link, the tree passes exactly the rows that pass every filter no later
  one replaces.
  */
  lemma FiltersExact(fs: seq<Filter>, toNumber: Value -> Value, row: Row, holds: Test)
    requires forall i :: 0 <= i < |fs| ==> KnownTypes(fs[i]) && OneRecord(Target(fs[i]), row)
    ensures Accepts(Where(fs, toNumber), row, holds) <==>
            forall i :: 0 <= i < |fs| && Wins(fs, i) ==> FilterAccepts(fs[i], toNumber, row, holds)
  {
    forall i | 0 <= i < |fs| ensures Clear(fs, i, [], row) {
      assert Target(fs[i])[0..] == Target(fs[i]);
      OneRecordClear(fs, i, [], row);
    }
    ClearExact(fs, toNumber, row, holds);
  }

  predicate Related(f: Filter) {
    f.relation != ""
  }

  /** The names are distinct, as the keys of a request object are, and no related filter is written as a range. */
  predicate NoRelatedRanges(fs: seq<Filter>) {
    && (forall i, j :: 0 <= i < j < |fs| ==> fs[i].field != fs[j].field)
    && (forall i :: 0 <= i < |fs| && Related(fs[i]) ==> !IsMin(fs[i]) && !IsMax(fs[i]))
  }

  lemma SameTarget(f: Filter, g: Filter)
    requires Target(f) == Target(g)
    requires (Related(f) ==> !IsMin(f) && !IsMax(f)) && (Related(g) ==> !IsMin(g) && !IsMax(g))
    ensures f.field == g.field
  {
    var p, q := Target(f), Target(g);
    assert p[|p| - 2] == q[|q| - 2] && p[|p| - 1] == q[|q| - 1];
    assert ActualField(f) == ActualField(g);
    assert Related(f) <==> Related(g);
    assert (IsMin(f) <==> IsMin(g)) && (IsMax(f) <==> IsMax(g));
    assert IsMin(f) ==> f.field == "min_" + ActualField(f) && g.field == "min_" + ActualField(g);
    assert IsMax(f) ==> f.field == "max_" + ActualField(f) && g.field == "max_" + ActualField(g);
  }

  /** Then a row passes the tree exactly when it passes every filter on its own. */
  lemma EveryFilterCounts(fs: seq<Filter>, toNumber: Value -> Value, row: Row, holds: Test)
    requires forall i :: 0 <= i < |fs| ==> KnownTypes(fs[i]) && OneRecord(Target(fs[i]), row)
    requires NoRelatedRanges(fs)
    ensures Accepts(Where(fs, toNumber), row, holds) <==>
            forall i :: 0 <= i < |fs| ==> FilterAccepts(fs[i], toNumber, row, holds)
  {
    FiltersExact(fs, toNumber, row, holds);
    forall i | 0 <= i < |fs| ensures Wins(fs, i) {
      forall j | i < j < |fs| ensures Target(fs[j]) != Target(fs[i]) {
        if Target(fs[j]) == Target(fs[i]) {
          SameTarget(fs[i], fs[j]);
        }
      }
    }
  }

  /** So the order in which the filters are listed does not matter. */
  lemma OrderFree(fs: seq<Filter>, gs: seq<Filter>, toNumber: Value -> Value, row: Row, holds: Test)
    requires multiset(fs) == multiset(gs) && NoRelatedRanges(fs) && NoRelatedRanges(gs)
    requires forall f :: f in fs ==> KnownTypes(f) && OneRecord(Target(f), row)
    ensures (forall i :: 0 <= i < |gs| ==> KnownTypes(gs[i]))
    ensures Accepts(Where(fs, toNumber), row, holds) <==> Accepts(Where(gs, toNumber), row, holds)
  {
    assert forall f :: f in fs <==> f in multiset(fs);
    assert forall f :: f in gs <==> f in multiset(gs);
    assert forall i :: 0 <= i < |gs| ==> gs[i] in fs;
    assert forall i :: 0 <= i < |fs| ==> fs[i] in gs;
    EveryFilterCounts(fs, toNumber, row, holds);
    EveryFilterCounts(gs, toNumber, row, holds);
  }

  /** A related range is compiled to equality with its upper end: the lower end has the same target and is replaced. */
  lemma RelatedRangeLost(
      relation: string, name: string, lo: int, hi: int, toNumber: Value -> Value, row: Row, holds: Test)
    requires relation != "" && (relation in row.links ==> |row.links[relation]| <= 1)
    ensures var fs := [Filter("min_" + name, Number(lo), relation, "", "is", "is", false),
                       Filter("max_" + name, Number(hi), relation, "", "is", "is", false)];
            && Target(fs[1]) == [relation, "is", name, "equals"] && Operand(fs[1], toNumber) == Number(hi)
            && (Accepts(Where(fs, toNumber), row, holds) <==> FilterAccepts(fs[1], toNumber, row, holds))
  {
    var fs := [Filter("min_" + name, Number(lo), relation, "", "is", "is", false),
               Filter("max_" + name, Number(hi), relation, "", "is", "is", false)];
    assert fs[0].field[..4] == "min_" && fs[0].field[4..] == name && fs[1].field[..4] == "max_"
        && fs[1].field[4..] == name;
    assert StartsWith(fs[0].field, "min_") && StartsWith(fs[1].field, "max_");
    assert forall i :: 0 <= i < 2 ==> Target(fs[i]) == [relation, "is", name, "equals"];
    assert !Wins(fs, 0) by { assert Target(fs[1]) == Target(fs[0]); }
    assert Wins(fs, 1);
    FiltersExact(fs, toNumber, row, holds);
  }

  const TAG_FILTERS: seq<Filter> :=
    [Filter("a", Number(1), "tags", "", "some", "is", false), Filter("b", Number(2), "tags", "", "some", "is", false)]
  const TAG_RECORDS: seq<Row> :=
    [Row(map["a" := Number(1), "b" := Number(1)], map[]), Row(map["a" := Number(2), "b" := Number(2)], map[])]
  const TAGGED: Row := Row(map[], map["tags" := TAG_RECORDS])
  const EQUAL: Test := (op, operand, stored) => operand == stored

  lemma TagTargets()
    ensures Target(TAG_FILTERS[0]) == ["tags", "some"] + ["a", "equals"]
    ensures Target(TAG_FILTERS[1]) == ["tags", "some"] + ["b", "equals"]
    ensures forall i :: 0 <= i < 2 ==> KnownTypes(TAG_FILTERS[i])
  {
  }

  lemma TagPaths(toNumber: Value -> Value)
    ensures forall i :: 0 <= i < 2 ==> KnownTypes(TAG_FILTERS[i])
    ensures var t := Where(TAG_FILTERS, toNumber);
            && At(t, ["tags", "some"] + ["a", "equals"]) == Some(Number(1))
            && At(t, ["tags", "some"] + ["b", "equals"]) == Some(Number(2))
  {
    TagTargets();
    var p, q := ["tags", "some"] + ["a", "equals"], ["tags", "some"] + ["b", "equals"];
    assert p[2] != q[2];
    WinnerAt(TAG_FILTERS, toNumber, 0, p);
    WinnerAt(TAG_FILTERS, toNumber, 1, q);
  }

  /** With "some" and several records the filters may each be met by another record, and the tree by none. */
  lemma SomeNeedsOneRecord(toNumber: Value -> Value)
    ensures forall i :: 0 <= i < 2 ==> KnownTypes(TAG_FILTERS[i])
    ensures forall i :: 0 <= i < 2 ==> FilterAccepts(TAG_FILTERS[i], toNumber, TAGGED, EQUAL)
    ensures !Accepts(Where(TAG_FILTERS, toNumber), TAGGED, EQUAL)
  {
    TagTargets();
    var pa, pb := ["a", "equals"], ["b", "equals"];
    assert Target(TAG_FILTERS[0])[2..] == pa && Target(TAG_FILTERS[1])[2..] == pb;
    assert PathAccepts(pa, Number(1), TAG_RECORDS[0], EQUAL) && PathAccepts(pb, Number(2), TAG_RECORDS[1], EQUAL);
    TagPaths(toNumber);
    var t := Where(TAG_FILTERS, toNumber);
    if Accepts(t, TAGGED, EQUAL) {
      OnPath(t, "tags", "some", pa);
      assert ConditionAccepts(t, "tags", "some", TAGGED, EQUAL);
      var c := t.kids["tags"].kids["some"];
      AtStep(t, "tags", "some", pa);
      AtStep(t, "tags", "some", pb);
      NoRecordHasBoth(c);
    }
  }

  lemma FieldsOfBoth(c: Tree, row: Row)
    requires IsWhere(c) && At(c, ["a", "equals"]) == Some(Number(1)) && At(c, ["b", "equals"]) == Some(Number(2))
    requires Accepts(c, row, EQUAL)
    ensures "a" in row.fields && row.fields["a"] == Number(1) && "b" in row.fields && row.fields["b"] == Number(2)
  {
    AcceptsGivesPath(c, row, EQUAL, ["a", "equals"]);
    AcceptsGivesPath(c, row, EQUAL, ["b", "equals"]);
  }

  lemma NoRecordHasBoth(c: Tree)
    requires IsWhere(c) && At(c, ["a", "equals"]) == Some(Number(1)) && At(c, ["b", "equals"]) == Some(Number(2))
    ensures !SomeAccepts(c, TAG_RECORDS, EQUAL)
  {
    forall i | 0 <= i < |TAG_RECORDS| ensures !Accepts(c, TAG_RECORDS[i], EQUAL) {
      assert TAG_RECORDS[i].fields["a"] == TAG_RECORDS[i].fields["b"];
      if Accepts(c, TAG_RECORDS[i], EQUAL) {
        FieldsOfBoth(c, TAG_RECORDS[i]);
      }
    }
  }

  lemma OnPath(t: Tree, k: string, op: string, q: seq<string>)
    requires At(t, [k, op] + q).Some?
    ensures t.Node? && k in t.kids && t.kids[k].Node? && op in t.kids[k].kids
  {
    var p := [k, op] + q;
    assert p[1..] == [op] + q;
    assert At(t.kids[k], p[1..]).Some?;
  }
}
